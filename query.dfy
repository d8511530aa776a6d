/**
  The query string OkHttpFactory.sendGet appends to the URL: the parameters
  in insertion order, each as encode(key) "=" encode(value), joined by '&'.
  Splitting on '&' and '=' and decoding gives the parameters back.
 */
module Query {
  import opened Wrappers
  import opened LinkedMap
  import opened FormUrlEncoding

  /** The pieces of s between occurrences of d (like String.split(d, -1), which keeps every
      empty piece, trailing ones included). */
  function Split(s: string, d: char): (parts: seq<string>)
    ensures |parts| >= 1
  {
    if s == [] then [[]]
    else
      var rest := Split(s[1..], d);
      if s[0] == d then [[]] + rest
      else [[s[0]] + rest[0]] + rest[1..]
  }

  /** parts with d between each two neighbours. */
  function JoinWith(parts: seq<string>, d: char): string
  {
    if parts == [] then []
    else if |parts| == 1 then parts[0]
    else JoinWith(parts[..|parts| - 1], d) + [d] + parts[|parts| - 1]
  }

  /** One parameter as it appears in the query. */
  function PairText(e: Entry): string
  {
    Encode(e.key) + "=" + Encode(e.value)
  }

  /** The first n parameters' pairs. */
  function PairsUpTo(ps: seq<Entry>, n: nat): (r: seq<string>)
    requires n <= |ps|
    ensures |r| == n
  {
    if n == 0 then [] else PairsUpTo(ps, n - 1) + [PairText(ps[n - 1])]
  }

  function Pairs(ps: seq<Entry>): seq<string>
  {
    PairsUpTo(ps, |ps|)
  }

  /** The query string of a parameter map. */
  function QueryString(ps: seq<Entry>): string
  {
    JoinWith(Pairs(ps), '&')
  }

  /** The URL a GET request is sent to: the base URL alone when there are no
      parameters, otherwise the base URL, '?' and the query string. */
  function GetUrl(url: string, ps: seq<Entry>): string
  {
    if ps == [] then url else url + "?" + QueryString(ps)
  }

  /** Reads "key=value" back, or fails. */
  function ParsePair(p: string): Option<Entry>
  {
    var f := Split(p, '=');
    if |f| != 2 then None
    else match (Decode(f[0]), Decode(f[1]))
      case (Some(k), Some(v)) => Some(Entry(k, v))
      case _ => None
  }

  function ParsePairs(parts: seq<string>): Option<seq<Entry>>
  {
    if parts == [] then Some([])
    else match (ParsePair(parts[0]), ParsePairs(parts[1..]))
      case (Some(e), Some(es)) => Some([e] + es)
      case _ => None
  }

  /** Reads a query string back into its parameters. */
  function ParseQuery(q: string): Option<seq<Entry>>
  {
    ParsePairs(Split(q, '&'))
  }

  // ---------------------------------------------------------------------

  lemma {:induction false} SplitNoDelimiter(s: string, d: char)
    requires d !in s
    ensures Split(s, d) == [s]
  {
    if s != [] {
      SplitNoDelimiter(s[1..], d);
      assert [s[0]] + s[1..] == s;
    }
  }

  lemma {:induction false} SplitAround(a: string, d: char, b: string)
    ensures Split(a + [d] + b, d) == Split(a, d) + Split(b, d)
  {
    if a == [] {
      assert ([d] + b)[1..] == b;
    } else {
      assert (a + [d] + b)[1..] == a[1..] + [d] + b;
      SplitAround(a[1..], d, b);
    }
  }

  /** Splitting a join gives the parts back when no part holds the delimiter. */
  lemma {:induction false} SplitJoin(parts: seq<string>, d: char)
    requires |parts| >= 1
    requires forall i :: 0 <= i < |parts| ==> d !in parts[i]
    ensures Split(JoinWith(parts, d), d) == parts
  {
    var n := |parts|;
    if n == 1 {
      SplitNoDelimiter(parts[0], d);
    } else {
      SplitJoin(parts[..n - 1], d);
      SplitAround(JoinWith(parts[..n - 1], d), d, parts[n - 1]);
      SplitNoDelimiter(parts[n - 1], d);
      assert parts[..n - 1] + [parts[n - 1]] == parts;
    }
  }

  /** What sendGet's loop holds after the pairs `parts`: the URL, '?', and
      every pair so far followed by '&'. */
  function Spliced(url: string, parts: seq<string>): string
  {
    if parts == [] then url + "?" else url + "?" + JoinWith(parts, '&') + "&"
  }

  lemma SplicedSnoc(url: string, parts: seq<string>, p: string)
    ensures Spliced(url, parts) + p + "&" == Spliced(url, parts + [p])
  {
    var all := parts + [p];
    assert all[..|all| - 1] == parts;
    assert all[|all| - 1] == p;
    if parts != [] {
      assert JoinWith(all, '&') == JoinWith(parts, '&') + "&" + p;
    }
  }

  lemma {:induction false} PairsAt(ps: seq<Entry>, n: nat, i: nat)
    requires i < n <= |ps|
    ensures PairsUpTo(ps, n)[i] == PairText(ps[i])
  {
    if i < n - 1 {
      PairsAt(ps, n - 1, i);
    }
  }

  /** One turn of sendGet's loop: appending the next encoded key, '=', the
      encoded value and '&' extends the text by that parameter. */
  lemma SplicedStep(url: string, ps: seq<Entry>, i: nat, key: string, value: string)
    requires i < |ps| && key == Encode(ps[i].key) && value == Encode(ps[i].value)
    ensures Spliced(url, PairsUpTo(ps, i)) + key + "=" + value + "&" == Spliced(url, PairsUpTo(ps, i + 1))
  {
    var before := PairsUpTo(ps, i);
    assert PairsUpTo(ps, i + 1) == before + [key + "=" + value];
    SplicedSnoc(url, before, key + "=" + value);
    AppendPair(Spliced(url, before), key, value);
  }

  lemma AppendPair(pre: string, key: string, value: string)
    ensures pre + key + "=" + value + "&" == pre + (key + "=" + value) + "&"
  {
  }

  /** Deleting the last '&' leaves the GET URL. */
  lemma SplicedDropLast(url: string, ps: seq<Entry>)
    requires ps != []
    ensures |Spliced(url, Pairs(ps))| >= 1
    ensures Spliced(url, Pairs(ps))[..|Spliced(url, Pairs(ps))| - 1] == GetUrl(url, ps)
  {
  }

  /** Neither '&', '=' nor '?' occurs in an encoded key or value. */
  lemma EncodeHasNoDelimiters(s: string)
    ensures '&' !in Encode(s) && '=' !in Encode(s) && '?' !in Encode(s)
  {
    EncodeAlphabet(s);
    var r := Encode(s);
    forall i | 0 <= i < |r| ensures r[i] != '&' && r[i] != '=' && r[i] != '?' {
      assert EncodedChar(r[i]);
    }
  }

  lemma ParsePairText(e: Entry)
    ensures ParsePair(PairText(e)) == Some(e)
  {
    EncodeHasNoDelimiters(e.key);
    EncodeHasNoDelimiters(e.value);
    SplitAround(Encode(e.key), '=', Encode(e.value));
    SplitNoDelimiter(Encode(e.key), '=');
    SplitNoDelimiter(Encode(e.value), '=');
    DecodeEncode(e.key);
    DecodeEncode(e.value);
  }

  lemma {:induction false} ParsePairsEach(parts: seq<string>, ps: seq<Entry>)
    requires |parts| == |ps|
    requires forall i :: 0 <= i < |ps| ==> ParsePair(parts[i]) == Some(ps[i])
    ensures ParsePairs(parts) == Some(ps)
  {
    if ps != [] {
      ParsePairsEach(parts[1..], ps[1..]);
      assert [ps[0]] + ps[1..] == ps;
    }
  }

  lemma ParsePairsOfPairs(ps: seq<Entry>)
    ensures ParsePairs(Pairs(ps)) == Some(ps)
  {
    forall i | 0 <= i < |ps| ensures ParsePair(Pairs(ps)[i]) == Some(ps[i]) {
      PairsAt(ps, |ps|, i);
      ParsePairText(ps[i]);
    }
    ParsePairsEach(Pairs(ps), ps);
  }

  /** Each pair holds neither '&' nor '?', and exactly one '='. */
  lemma PairTextShape(e: Entry)
    ensures '&' !in PairText(e) && '?' !in PairText(e)
    ensures |Split(PairText(e), '=')| == 2
  {
    EncodeHasNoDelimiters(e.key);
    EncodeHasNoDelimiters(e.value);
    SplitAround(Encode(e.key), '=', Encode(e.value));
    SplitNoDelimiter(Encode(e.key), '=');
    SplitNoDelimiter(Encode(e.value), '=');
  }

  /** With n >= 1 parameters the query splits on '&' into exactly n pieces,
      the i-th being the i-th parameter's "key=value" with exactly one '=',
      and reading it back gives the parameters in insertion order. */
  lemma QueryRoundTrip(ps: seq<Entry>)
    requires |ps| >= 1
    ensures |Split(QueryString(ps), '&')| == |ps|
    ensures forall i :: 0 <= i < |ps| ==>
      Split(QueryString(ps), '&')[i] == PairText(ps[i]) && |Split(PairText(ps[i]), '=')| == 2
    ensures ParseQuery(QueryString(ps)) == Some(ps)
  {
    forall i | 0 <= i < |ps| ensures Pairs(ps)[i] == PairText(ps[i]) && '&' !in Pairs(ps)[i] && |Split(PairText(ps[i]), '=')| == 2 {
      PairsAt(ps, |ps|, i);
      PairTextShape(ps[i]);
    }
    SplitJoin(Pairs(ps), '&');
    ParsePairsOfPairs(ps);
  }

  lemma {:induction false} JoinWithout(parts: seq<string>, d: char, c: char)
    requires c != d
    requires forall i :: 0 <= i < |parts| ==> c !in parts[i]
    ensures c !in JoinWith(parts, d)
  {
    if |parts| > 1 {
      JoinWithout(parts[..|parts| - 1], d, c);
    }
  }

  /** The GET URL is the base URL alone when there are no parameters;
      otherwise it is the base URL and '?' followed by a query holding no
      '?', which reads back as exactly the parameters. */
  lemma GetUrlShape(url: string, ps: seq<Entry>)
    ensures ps == [] ==> GetUrl(url, ps) == url
    ensures ps != [] ==>
      && GetUrl(url, ps)[..|url| + 1] == url + "?"
      && '?' !in GetUrl(url, ps)[|url| + 1..]
      && ParseQuery(GetUrl(url, ps)[|url| + 1..]) == Some(ps)
  {
    if ps != [] {
      forall i | 0 <= i < |ps| ensures '?' !in Pairs(ps)[i] {
        PairsAt(ps, |ps|, i);
        PairTextShape(ps[i]);
      }
      JoinWithout(Pairs(ps), '&', '?');
      QueryRoundTrip(ps);
      assert GetUrl(url, ps)[|url| + 1..] == QueryString(ps);
    }
  }

  /** A worked case: two plain parameters. */
  lemma TwoParamGetUrl(url: string)
    ensures GetUrl(url, [Entry("a", "1"), Entry("b", "2")]) == url + "?a=1&b=2"
  {
    TwoPlainPairs();
    assert JoinWith(["a=1"], '&') == "a=1";
    assert JoinWith(["a=1", "b=2"], '&') == "a=1&b=2";
  }

  lemma TwoPlainPairs()
    ensures Pairs([Entry("a", "1"), Entry("b", "2")]) == ["a=1", "b=2"]
  {
    EncodeUnreserved("a");
    EncodeUnreserved("1");
    EncodeUnreserved("b");
    EncodeUnreserved("2");
    var ps := [Entry("a", "1"), Entry("b", "2")];
    assert PairText(ps[0]) == "a=1" && PairText(ps[1]) == "b=2";
    assert PairsUpTo(ps, 1) == ["a=1"];
  }
}
