/**
 * The insertion-ordered map that holds media-type parameters
 * (java.util.LinkedHashMap, copied into ImmutableMap). It is kept as the
 * sequence of its entries in iteration order. Re-putting a key that is
 * already present overwrites its value where it stands; a new key goes to
 * the end.
 */
module OrderedMaps {
  import opened Options

  type Entry = (string, string)

  type ParamMap = seq<Entry>

  function Keys(m: ParamMap): seq<string>
  {
    seq(|m|, i requires 0 <= i < |m| => m[i].0)
  }

  ghost function KeySet(m: ParamMap): set<string>
  {
    set i | 0 <= i < |m| :: m[i].0
  }

  predicate Distinct(xs: seq<string>)
  {
    forall i, j :: 0 <= i < j < |xs| ==> xs[i] != xs[j]
  }

  predicate DistinctKeys(m: ParamMap)
  {
    forall i, j :: 0 <= i < j < |m| ==> m[i].0 != m[j].0
  }

  /** The position of the entry for k, or |m| when k has no entry. */
  function IndexOf(m: ParamMap, k: string): (i: nat)
    ensures i <= |m|
    ensures i < |m| ==> m[i].0 == k
    ensures forall j :: 0 <= j < i ==> m[j].0 != k
  {
    if m == [] then 0
    else if m[0].0 == k then 0
    else 1 + IndexOf(m[1..], k)
  }

  /** Map.get. */
  function Lookup(m: ParamMap, k: string): Option<string>
  {
    var i := IndexOf(m, k);
    if i < |m| then Some(m[i].1) else None
  }

  /** Map.put: overwrite in place, or append a new key at the end. */
  function Put(m: ParamMap, k: string, v: string): ParamMap
  {
    var i := IndexOf(m, k);
    if i < |m| then m[i := (k, v)] else m + [(k, v)]
  }

  /** Map.remove: drop the entry whose key equals k, if any. */
  function Remove(m: ParamMap, k: string): ParamMap
  {
    var i := IndexOf(m, k);
    if i < |m| then m[..i] + m[i + 1..] else m
  }

  /** Map.putAll: put the entries of n into m, in n's iteration order. */
  function PutAll(m: ParamMap, n: ParamMap): ParamMap
    decreases |n|
  {
    if n == [] then m
    else Put(PutAll(m, n[..|n| - 1]), n[|n| - 1].0, n[|n| - 1].1)
  }

  /** The value of the last entry for k in n. */
  function LastValue(n: ParamMap, k: string): Option<string>
    decreases |n|
  {
    if n == [] then None
    else if n[|n| - 1].0 == k then Some(n[|n| - 1].1)
    else LastValue(n[..|n| - 1], k)
  }

  /** xs without repeats, each element where it first occurs. */
  function Dedup(xs: seq<string>): seq<string>
    decreases |xs|
  {
    if xs == [] then []
    else
      var d := Dedup(xs[..|xs| - 1]);
      if xs[|xs| - 1] in d then d else d + [xs[|xs| - 1]]
  }

  /** entrySet().containsAll: every entry of r is an entry of m. */
  predicate ContainsAll(m: ParamMap, r: ParamMap)
  {
    forall i :: 0 <= i < |r| ==> Lookup(m, r[i].0) == Some(r[i].1)
  }

  /** AbstractMap.equals: the same size, and every entry of p is an entry of q. */
  predicate MapEquals(p: ParamMap, q: ParamMap)
  {
    |p| == |q| && ContainsAll(q, p)
  }

  // ---------------------------------------------------------------------
  // Lookup, Put and Remove

  lemma KeysIndexOf(m: ParamMap, k: string)
    ensures k in Keys(m) <==> IndexOf(m, k) < |m|
    ensures k in Keys(m) <==> k in KeySet(m)
    ensures Lookup(m, k).Some? <==> k in Keys(m)
  {
    if IndexOf(m, k) < |m| {
      assert Keys(m)[IndexOf(m, k)] == k;
    }
    if k in KeySet(m) {
      var i :| 0 <= i < |m| && m[i].0 == k;
      assert Keys(m)[i] == k;
    }
  }

  /** IndexOf finds the first entry for k and nothing else. */
  lemma IndexOfIs(m: ParamMap, k: string, i: nat)
    requires i <= |m|
    requires i < |m| ==> m[i].0 == k
    requires forall j :: 0 <= j < i ==> m[j].0 != k
    ensures IndexOf(m, k) == i
  {
  }

  lemma LookupAt(m: ParamMap, i: nat)
    requires DistinctKeys(m) && i < |m|
    ensures Lookup(m, m[i].0) == Some(m[i].1)
  {
  }

  lemma PutLookup(m: ParamMap, k: string, v: string)
    ensures Lookup(Put(m, k, v), k) == Some(v)
    ensures forall k' :: k' != k ==> Lookup(Put(m, k, v), k') == Lookup(m, k')
  {
    var r := Put(m, k, v);
    var i := IndexOf(m, k);
    forall k' | k' != k
      ensures Lookup(r, k') == Lookup(m, k')
    {
      var j := IndexOf(m, k');
      if j < |m| {
        IndexOfIs(r, k', j);
      } else {
        IndexOfIs(r, k', |r|);
      }
    }
    IndexOfIs(r, k, i);
  }

  lemma PutKeys(m: ParamMap, k: string, v: string)
    ensures Keys(Put(m, k, v)) == if k in Keys(m) then Keys(m) else Keys(m) + [k]
    ensures DistinctKeys(m) ==> DistinctKeys(Put(m, k, v))
  {
    KeysIndexOf(m, k);
  }

  lemma RemoveLookup(m: ParamMap, k: string)
    requires DistinctKeys(m)
    ensures DistinctKeys(Remove(m, k))
    ensures Lookup(Remove(m, k), k) == None
    ensures forall k' :: k' != k ==> Lookup(Remove(m, k), k') == Lookup(m, k')
    ensures k !in Keys(m) ==> Remove(m, k) == m
  {
    KeysIndexOf(m, k);
    var i := IndexOf(m, k);
    if i < |m| {
      var r := Remove(m, k);
      RemoveAt(m, i);
      IndexOfIs(r, k, |r|);
      forall k' | k' != k
        ensures Lookup(r, k') == Lookup(m, k')
      {
        var j := IndexOf(m, k');
        if j < |m| {
          IndexOfIs(r, k', if j < i then j else j - 1);
        } else {
          IndexOfIs(r, k', |r|);
        }
      }
    }
  }

  lemma RemoveAt(m: ParamMap, i: nat)
    requires DistinctKeys(m) && i < |m|
    ensures |m[..i] + m[i + 1..]| == |m| - 1
    ensures forall j :: 0 <= j < |m| - 1 ==> (m[..i] + m[i + 1..])[j] == if j < i then m[j] else m[j + 1]
    ensures DistinctKeys(m[..i] + m[i + 1..])
  {
  }

  // ---------------------------------------------------------------------
  // PutAll

  lemma {:induction false} PutAllLookup(m: ParamMap, n: ParamMap, k: string)
    ensures Lookup(PutAll(m, n), k) == if LastValue(n, k).Some? then LastValue(n, k) else Lookup(m, k)
    decreases |n|
  {
    if n != [] {
      PutAllLookup(m, n[..|n| - 1], k);
      PutLookup(PutAll(m, n[..|n| - 1]), n[|n| - 1].0, n[|n| - 1].1);
    }
  }

  lemma {:induction false} PutAllKeys(m: ParamMap, n: ParamMap)
    requires DistinctKeys(m)
    ensures Keys(PutAll(m, n)) == Dedup(Keys(m) + Keys(n))
    ensures DistinctKeys(PutAll(m, n))
    decreases |n|
  {
    if n == [] {
      assert Keys(m) + Keys(n) == Keys(m);
      DedupOfDistinct(Keys(m));
    } else {
      var init := n[..|n| - 1];
      var e := n[|n| - 1];
      PutAllKeys(m, init);
      var p := PutAll(m, init);
      PutKeys(p, e.0, e.1);
      KeysSnoc(m, n);
      DedupSnoc(Keys(m) + Keys(init), e.0);
    }
  }

  lemma KeysSnoc(m: ParamMap, n: ParamMap)
    requires n != []
    ensures Keys(m) + Keys(n) == (Keys(m) + Keys(n[..|n| - 1])) + [n[|n| - 1].0]
  {
    assert Keys(n) == Keys(n[..|n| - 1]) + [n[|n| - 1].0];
  }

  lemma DedupSnoc(xs: seq<string>, x: string)
    ensures Dedup(xs + [x]) == if x in Dedup(xs) then Dedup(xs) else Dedup(xs) + [x]
  {
    assert (xs + [x])[..|xs|] == xs;
  }

  lemma {:induction false} PutAllEntries(m: ParamMap, n: ParamMap)
    ensures forall e :: e in PutAll(m, n) ==> e in m || e in n
    decreases |n|
  {
    if n != [] {
      var init := n[..|n| - 1];
      PutAllEntries(m, init);
      var p := PutAll(m, init);
      forall e | e in PutAll(m, n)
        ensures e in m || e in n
      {
        if e in p {
          assert e in m || e in init;
        } else {
          assert e == n[|n| - 1];
        }
      }
    }
  }

  /** Copying a map into an empty one (ImmutableMap.copyOf) gives it back unchanged. */
  lemma {:induction false} PutAllIntoEmpty(n: ParamMap)
    requires DistinctKeys(n)
    ensures PutAll([], n) == n
    decreases |n|
  {
    if n != [] {
      var init := n[..|n| - 1];
      var e := n[|n| - 1];
      assert DistinctKeys(init);
      PutAllIntoEmpty(init);
      assert forall j :: 0 <= j < |init| ==> init[j].0 != e.0;
      IndexOfIs(init, e.0, |init|);
      assert init + [e] == n;
    }
  }

  lemma LastValueOfDistinct(n: ParamMap, k: string)
    requires DistinctKeys(n)
    ensures LastValue(n, k) == Lookup(n, k)
  {
    PutAllIntoEmpty(n);
    PutAllLookup([], n, k);
  }

  /** The last entry for k in n gives LastValue. */
  lemma {:induction false} LastValueAt(n: ParamMap, i: int)
    requires 0 <= i < |n|
    requires forall j :: i < j < |n| ==> n[j].0 != n[i].0
    ensures LastValue(n, n[i].0) == Some(n[i].1)
    decreases |n|
  {
    if i < |n| - 1 {
      LastValueAt(n[..|n| - 1], i);
    }
  }

  lemma {:induction false} LastValueAbsent(n: ParamMap, k: string)
    requires forall j :: 0 <= j < |n| ==> n[j].0 != k
    ensures LastValue(n, k) == None
    decreases |n|
  {
    if n != [] {
      LastValueAbsent(n[..|n| - 1], k);
    }
  }

  // ---------------------------------------------------------------------
  // Dedup

  lemma {:induction false} DedupMembers(xs: seq<string>)
    ensures forall x :: x in Dedup(xs) <==> x in xs
    ensures Distinct(Dedup(xs))
    decreases |xs|
  {
    if xs != [] {
      var init := xs[..|xs| - 1];
      DedupMembers(init);
      assert xs == init + [xs[|xs| - 1]];
    }
  }

  lemma {:induction false} DedupOfDistinct(xs: seq<string>)
    requires Distinct(xs)
    ensures Dedup(xs) == xs
    decreases |xs|
  {
    if xs != [] {
      var init := xs[..|xs| - 1];
      DedupOfDistinct(init);
      assert xs[|xs| - 1] !in init;
      assert init + [xs[|xs| - 1]] == xs;
    }
  }

  /** Dedup keeps a repeat-free prefix where it stands. */
  lemma {:induction false} DedupPrefix(a: seq<string>, b: seq<string>)
    requires Distinct(a)
    ensures |a| <= |Dedup(a + b)| && Dedup(a + b)[..|a|] == a
    decreases |b|
  {
    if b == [] {
      assert a + b == a;
      DedupOfDistinct(a);
    } else {
      var init := b[..|b| - 1];
      DedupPrefix(a, init);
      assert (a + b)[..|a + b| - 1] == a + init;
    }
  }

  // ---------------------------------------------------------------------
  // Remove as a filter

  /** m without its entries for k, the others in their order. */
  function Without(m: ParamMap, k: string): (r: ParamMap)
    ensures |r| <= |m|
  {
    if m == [] then []
    else (if m[0].0 == k then [] else [m[0]]) + Without(m[1..], k)
  }

  lemma {:induction false} WithoutAbsent(m: ParamMap, k: string)
    requires forall j :: 0 <= j < |m| ==> m[j].0 != k
    ensures Without(m, k) == m
    decreases |m|
  {
    if m != [] {
      WithoutAbsent(m[1..], k);
      assert [m[0]] + m[1..] == m;
    }
  }

  /** On a map, Map.remove drops exactly the entries a filter on the key drops. */
  lemma {:induction false} RemoveIsWithout(m: ParamMap, k: string)
    requires DistinctKeys(m)
    ensures Remove(m, k) == Without(m, k)
    decreases |m|
  {
    if m != [] {
      var tail := m[1..];
      assert DistinctKeys(tail);
      assert Without(m, k) == (if m[0].0 == k then [] else [m[0]]) + Without(tail, k);
      if m[0].0 == k {
        assert forall j :: 0 <= j < |tail| ==> tail[j].0 != k;
        WithoutAbsent(tail, k);
        assert Remove(m, k) == tail;
      } else {
        RemoveIsWithout(tail, k);
        RemoveCons(m, k);
      }
    }
  }

  /** Removing a key other than the first one's keeps the first entry in front. */
  lemma RemoveCons(m: ParamMap, k: string)
    requires m != [] && m[0].0 != k
    ensures Remove(m, k) == [m[0]] + Remove(m[1..], k)
  {
    var tail := m[1..];
    var i := IndexOf(tail, k);
    assert IndexOf(m, k) == i + 1;
    if i < |tail| {
      assert m[..i + 1] == [m[0]] + tail[..i];
      assert m[i + 2..] == tail[i + 1..];
    } else {
      assert m == [m[0]] + tail;
    }
  }

  // ---------------------------------------------------------------------
  // Equality and containment

  lemma {:induction false} KeySetSize(m: ParamMap)
    requires DistinctKeys(m)
    ensures |KeySet(m)| == |m|
    decreases |m|
  {
    if m != [] {
      var init := m[..|m| - 1];
      KeySetSize(init);
      assert KeySet(m) == KeySet(init) + {m[|m| - 1].0};
      assert m[|m| - 1].0 !in KeySet(init);
    }
  }

  /** Map.equals compares content, whatever the iteration order. */
  lemma MapEqualsIffSameLookups(p: ParamMap, q: ParamMap)
    requires DistinctKeys(p) && DistinctKeys(q)
    ensures MapEquals(p, q) <==> forall k :: Lookup(p, k) == Lookup(q, k)
  {
    KeySetSize(p);
    KeySetSize(q);
    if MapEquals(p, q) {
      assert KeySet(p) <= KeySet(q) by {
        forall k | k in KeySet(p) ensures k in KeySet(q) {
          var i :| 0 <= i < |p| && p[i].0 == k;
          KeysIndexOf(q, k);
        }
      }
      assert KeySet(q) - KeySet(p) == {} by {
        assert |KeySet(q) - KeySet(p)| == |KeySet(q)| - |KeySet(p)|;
      }
      forall k ensures Lookup(p, k) == Lookup(q, k) {
        KeysIndexOf(p, k);
        KeysIndexOf(q, k);
        if k in KeySet(p) {
          var i :| 0 <= i < |p| && p[i].0 == k;
          LookupAt(p, i);
        }
      }
    }
    if forall k :: Lookup(p, k) == Lookup(q, k) {
      forall i | 0 <= i < |p| ensures Lookup(q, p[i].0) == Some(p[i].1) {
        LookupAt(p, i);
      }
      assert KeySet(p) == KeySet(q) by {
        forall k ensures k in KeySet(p) <==> k in KeySet(q) {
          KeysIndexOf(p, k);
          KeysIndexOf(q, k);
        }
      }
    }
  }

  lemma ContainsAllReflexive(m: ParamMap)
    requires DistinctKeys(m)
    ensures ContainsAll(m, m)
  {
    forall i | 0 <= i < |m| ensures Lookup(m, m[i].0) == Some(m[i].1) {
      LookupAt(m, i);
    }
  }

  lemma ContainsAllTransitive(a: ParamMap, b: ParamMap, c: ParamMap)
    requires ContainsAll(a, b) && ContainsAll(b, c) && DistinctKeys(b)
    ensures ContainsAll(a, c)
  {
    forall i | 0 <= i < |c| ensures Lookup(a, c[i].0) == Some(c[i].1) {
      var j := IndexOf(b, c[i].0);
      assert j < |b|;
    }
  }
}
