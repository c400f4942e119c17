// A `Dictionary<string, string>` as an association list in insertion
// order: the indexer's set replaces the value of a present key in place
// and appends a new key at the end, so enumeration order is the order in
// which keys were first added.
module FieldMaps {
  import opened Wrappers

  type FieldMap = seq<(string, string)>

  function Keys(m: FieldMap): (ks: seq<string>)
    ensures |ks| == |m|
    ensures forall i :: 0 <= i < |m| ==> ks[i] == m[i].0
  {
    if m == [] then [] else [m[0].0] + Keys(m[1..])
  }

  predicate DistinctKeys(m: FieldMap) {
    forall i, j :: 0 <= i < j < |m| ==> m[i].0 != m[j].0
  }

  /** The indexer's get: the value stored under `k`, or None when absent. */
  function Lookup(m: FieldMap, k: string): (r: Option<string>)
    ensures r.None? <==> forall i :: 0 <= i < |m| ==> m[i].0 != k
    ensures r.Some? ==> exists i :: 0 <= i < |m| && m[i] == (k, r.value)
  {
    if m == [] then None else if m[0].0 == k then Some(m[0].1) else Lookup(m[1..], k)
  }

  /** The indexer's set `m[k] = v`. */
  function Put(m: FieldMap, k: string, v: string): (r: FieldMap)
    ensures |r| == if Lookup(m, k).None? then |m| + 1 else |m|
  {
    if m == [] then [(k, v)]
    else if m[0].0 == k then [(k, v)] + m[1..]
    else [m[0]] + Put(m[1..], k, v)
  }

  /** After `m[k] = v`, `k` reads `v` and every other key reads as before. */
  lemma {:induction false} PutLookup(m: FieldMap, k: string, v: string, j: string)
    ensures Lookup(Put(m, k, v), j) == if j == k then Some(v) else Lookup(m, j)
  {
    if m != [] && m[0].0 != k {
      PutLookup(m[1..], k, v, j);
      assert Put(m, k, v)[1..] == Put(m[1..], k, v);
    }
  }

  /** Setting a key keeps the keys pairwise distinct. */
  lemma {:induction false} PutDistinct(m: FieldMap, k: string, v: string)
    requires DistinctKeys(m)
    ensures DistinctKeys(Put(m, k, v))
  {
    if m != [] && m[0].0 != k {
      var rest := Put(m[1..], k, v);
      PutDistinct(m[1..], k, v);
      forall i | 0 <= i < |rest| ensures rest[i].0 != m[0].0 {
        PutLookup(m[1..], k, v, rest[i].0);
        assert Lookup(rest, rest[i].0).Some?;
        if rest[i].0 != k {
          assert Lookup(m[1..], rest[i].0).Some?;
        }
      }
    }
  }
}
