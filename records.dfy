/**
 * A JavaScript object literal used as a bag of rule options: its own
 * enumerable properties in insertion order (the order `Object.entries`
 * reports for non-numeric keys), with distinct keys. Object spread
 * (`{ defaults..., ...params }`) and `Object.assign(defaults, params)`
 * both become `Merge`.
 */
module Records {
  import opened JsValues

  type Record = seq<(string, Value)>

  /** `k in r` */
  predicate HasKey(r: Record, k: string)
  {
    r != [] && (r[0].0 == k || HasKey(r[1..], k))
  }

  /** No property is listed twice, as in every JavaScript object. */
  predicate DistinctKeys(r: Record)
  {
    r == [] || (!HasKey(r[1..], r[0].0) && DistinctKeys(r[1..]))
  }

  lemma {:induction false} HasKeyAt(r: Record, k: string)
    ensures HasKey(r, k) <==> exists i | 0 <= i < |r| :: r[i].0 == k
  {
    if r != [] {
      HasKeyAt(r[1..], k);
      if exists i | 0 <= i < |r| :: r[i].0 == k {
        var i :| 0 <= i < |r| && r[i].0 == k;
        if i > 0 { assert r[1..][i - 1].0 == k; }
      }
      if exists i | 0 <= i < |r[1..]| :: r[1..][i].0 == k {
        var i :| 0 <= i < |r[1..]| && r[1..][i].0 == k;
        assert r[i + 1].0 == k;
      }
    }
  }

  /** `r[k]`: the value stored under k, or undefined when k is absent. */
  function Lookup(r: Record, k: string): (v: Value)
    ensures !HasKey(r, k) ==> v == VUndefined
  {
    if r == [] then VUndefined else if r[0].0 == k then r[0].1 else Lookup(r[1..], k)
  }

  lemma {:induction false} LookupAt(r: Record, i: nat)
    requires DistinctKeys(r) && i < |r|
    ensures Lookup(r, r[i].0) == r[i].1
  {
    if i > 0 {
      LookupAt(r[1..], i - 1);
      HasKeyAt(r[1..], r[i].0);
      assert r[1..][i - 1] == r[i];
    }
  }

  /** The value of option k, or the given default when the caller did not set it. */
  function Setting(r: Record, k: string, default: Value): Value
  {
    if HasKey(r, k) then Lookup(r, k) else default
  }

  /** `r[k] = v`: overwrite in place when k is present, otherwise append. */
  function Put(r: Record, k: string, v: Value): (r': Record)
    ensures |r'| == if HasKey(r, k) then |r| else |r| + 1
    ensures forall i | 0 <= i < |r| :: r'[i].0 == r[i].0
  {
    if r == [] then [(k, v)]
    else if r[0].0 == k then [(k, v)] + r[1..]
    else [r[0]] + Put(r[1..], k, v)
  }

  lemma {:induction false} PutHasKey(r: Record, k: string, v: Value, k': string)
    ensures HasKey(Put(r, k, v), k') <==> k' == k || HasKey(r, k')
  {
    if r != [] && r[0].0 != k {
      PutHasKey(r[1..], k, v, k');
    }
  }

  lemma {:induction false} PutLookup(r: Record, k: string, v: Value, k': string)
    ensures Lookup(Put(r, k, v), k') == if k' == k then v else Lookup(r, k')
  {
    if r != [] && r[0].0 != k {
      PutLookup(r[1..], k, v, k');
    }
  }

  lemma {:induction false} PutDistinct(r: Record, k: string, v: Value)
    requires DistinctKeys(r)
    ensures DistinctKeys(Put(r, k, v))
  {
    if r != [] && r[0].0 != k {
      PutDistinct(r[1..], k, v);
      PutHasKey(r[1..], k, v, r[0].0);
    }
  }

  /** `{ ...base, ...over }`: the properties of over, in order, written onto base. */
  function Merge(base: Record, over: Record): Record
    decreases |over|
  {
    if over == [] then base else Merge(Put(base, over[0].0, over[0].1), over[1..])
  }

  /** A merged object has the caller's value where the caller set one and the
      default elsewhere, and exactly the keys of both. */
  lemma {:induction false} MergeLookup(base: Record, over: Record, k: string)
    requires DistinctKeys(over)
    ensures Lookup(Merge(base, over), k) == Setting(over, k, Lookup(base, k))
    ensures HasKey(Merge(base, over), k) <==> HasKey(base, k) || HasKey(over, k)
    decreases |over|
  {
    if over != [] {
      var b' := Put(base, over[0].0, over[0].1);
      PutLookup(base, over[0].0, over[0].1, k);
      PutHasKey(base, over[0].0, over[0].1, k);
      MergeLookup(b', over[1..], k);
    }
  }

  lemma MergeLookupAll(base: Record, over: Record)
    requires DistinctKeys(over)
    ensures forall k :: Lookup(Merge(base, over), k) == Setting(over, k, Lookup(base, k))
  {
    forall k ensures Lookup(Merge(base, over), k) == Setting(over, k, Lookup(base, k)) {
      MergeLookup(base, over, k);
    }
  }

  /** Options that only override defaults add no property. */
  lemma {:induction false} MergeNoNewKeys(base: Record, over: Record)
    requires forall i | 0 <= i < |over| :: HasKey(base, over[i].0)
    ensures |Merge(base, over)| == |base|
    decreases |over|
  {
    if over != [] {
      var b' := Put(base, over[0].0, over[0].1);
      forall i | 0 <= i < |over[1..]| ensures HasKey(b', over[1..][i].0) {
        PutHasKey(base, over[0].0, over[0].1, over[i + 1].0);
      }
      MergeNoNewKeys(b', over[1..]);
    }
  }

  /** Merging keeps every default at its position, so defaults come first in
      key order, and a merge of objects is again an object. */
  lemma {:induction false} MergeKeepsBase(base: Record, over: Record)
    ensures |base| <= |Merge(base, over)|
    ensures forall i | 0 <= i < |base| :: Merge(base, over)[i].0 == base[i].0
    ensures DistinctKeys(base) ==> DistinctKeys(Merge(base, over))
    decreases |over|
  {
    if over != [] {
      var b' := Put(base, over[0].0, over[0].1);
      if DistinctKeys(base) { PutDistinct(base, over[0].0, over[0].1); }
      MergeKeepsBase(b', over[1..]);
    }
  }

  /** `const { k, ...rest } = r`: the other properties, in order. */
  function Without(r: Record, k: string): (rest: Record)
    ensures |rest| <= |r|
  {
    if r == [] then [] else if r[0].0 == k then Without(r[1..], k) else [r[0]] + Without(r[1..], k)
  }

  /** The rest holds every property of r except k, with its value. */
  lemma {:induction false} WithoutSpec(r: Record, k: string, k': string)
    requires DistinctKeys(r)
    ensures HasKey(Without(r, k), k') <==> k' != k && HasKey(r, k')
    ensures Lookup(Without(r, k), k') == if k' == k then VUndefined else Lookup(r, k')
    ensures DistinctKeys(Without(r, k))
  {
    if r != [] {
      WithoutSpec(r[1..], k, k');
      WithoutSpec(r[1..], k, r[0].0);
    }
  }

  /** Nothing is left once every property is k. */
  lemma {:induction false} WithoutOnly(r: Record, k: string)
    ensures (forall i | 0 <= i < |r| :: r[i].0 == k) <==> Without(r, k) == []
  {
    if r != [] {
      WithoutOnly(r[1..], k);
      assert forall i | 0 <= i < |r[1..]| :: r[1..][i] == r[i + 1];
      if r[0].0 != k {
        assert Without(r, k)[0] == r[0];
      }
    }
  }
}
