/**
  The insertion-ordered map the builder keeps its parameters and headers in
  (a java.util.LinkedHashMap<String, String>): the entries in iteration order.
  Putting a key that is already present replaces its value where it stands;
  putting a new key appends it at the end.
 */
module LinkedMap {
  import opened Wrappers

  datatype Entry = Entry(key: string, value: string)

  /** The keys in iteration order. */
  function Keys(m: seq<Entry>): seq<string>
  {
    seq(|m|, i requires 0 <= i < |m| => m[i].key)
  }

  /** A map holds each key at most once. */
  ghost predicate DistinctKeys(m: seq<Entry>)
  {
    forall i, j :: 0 <= i < j < |m| ==> m[i].key != m[j].key
  }

  /** Map.get: the value stored under k, if any. */
  function Get(m: seq<Entry>, k: string): Option<string>
  {
    if m == [] then None
    else if m[0].key == k then Some(m[0].value)
    else Get(m[1..], k)
  }

  /** Map.put on a LinkedHashMap: an existing key keeps its place and takes
      the new value, a new key goes to the end. */
  function Put(m: seq<Entry>, k: string, v: string): (r: seq<Entry>)
    requires DistinctKeys(m)
    ensures k in Keys(m) ==>
      |r| == |m| && forall i :: 0 <= i < |m| ==> r[i] == if m[i].key == k then Entry(k, v) else m[i]
    ensures k !in Keys(m) ==> r == m + [Entry(k, v)]
  {
    if m == [] then [Entry(k, v)]
    else if m[0].key == k then
      assert Keys(m)[0] == k;
      [Entry(k, v)] + m[1..]
    else
      assert Keys(m) == [m[0].key] + Keys(m[1..]);
      [m[0]] + Put(m[1..], k, v)
  }

  /** Get finds the entry at any position of a map with distinct keys. */
  lemma {:induction false} GetAt(m: seq<Entry>, i: nat)
    requires DistinctKeys(m) && i < |m|
    ensures Get(m, m[i].key) == Some(m[i].value)
  {
    if i > 0 {
      assert m[0].key != m[i].key;
      GetAt(m[1..], i - 1);
    }
  }

  /** Get finds nothing under a key that is not there. */
  lemma {:induction false} GetAbsent(m: seq<Entry>, k: string)
    requires k !in Keys(m)
    ensures Get(m, k) == None
  {
    if m != [] {
      assert Keys(m) == [m[0].key] + Keys(m[1..]);
      GetAbsent(m[1..], k);
    }
  }

  /** Put keeps every key unique, so the map stays a map. */
  lemma PutKeepsDistinct(m: seq<Entry>, k: string, v: string)
    requires DistinctKeys(m)
    ensures DistinctKeys(Put(m, k, v))
  {
    var r := Put(m, k, v);
    if k in Keys(m) {
      assert forall i :: 0 <= i < |m| ==> r[i].key == m[i].key;
    } else {
      forall i, j | 0 <= i < j < |r| ensures r[i].key != r[j].key {
        if j == |m| {
          assert Keys(m)[i] == m[i].key;
        }
      }
    }
  }

  /** Put changes the key order only by appending a key that was absent. */
  lemma PutKeys(m: seq<Entry>, k: string, v: string)
    requires DistinctKeys(m)
    ensures Keys(Put(m, k, v)) == if k in Keys(m) then Keys(m) else Keys(m) + [k]
  {
  }

  /** The last write wins: after Put, k maps to v and every other key maps
      to what it mapped to before. */
  lemma PutGet(m: seq<Entry>, k: string, v: string, k': string)
    requires DistinctKeys(m)
    ensures Get(Put(m, k, v), k') == if k' == k then Some(v) else Get(m, k')
  {
    var r := Put(m, k, v);
    PutKeepsDistinct(m, k, v);
    PutKeys(m, k, v);
    if k' in Keys(r) {
      var i :| 0 <= i < |r| && Keys(r)[i] == k';
      PutGetAt(m, k, v, i);
    } else {
      GetAbsent(r, k');
      assert k' !in Keys(m);
      GetAbsent(m, k');
    }
  }

  lemma PutGetAt(m: seq<Entry>, k: string, v: string, i: nat)
    requires DistinctKeys(m) && DistinctKeys(Put(m, k, v)) && i < |Put(m, k, v)|
    ensures Get(Put(m, k, v), Put(m, k, v)[i].key) ==
      if Put(m, k, v)[i].key == k then Some(v) else Get(m, Put(m, k, v)[i].key)
  {
    var r := Put(m, k, v);
    GetAt(r, i);
    if i < |m| {
      assert Keys(m)[i] == m[i].key;
      GetAt(m, i);
      assert r[i].key == m[i].key;
    }
  }
}
