// common/apply_permutation.h: rearranging by following cycles, one swap at a time.

module Permutations {
  import opened Wrappers

  predicate IsPermutation(p: seq<nat>) {
    && (forall j :: 0 <= j < |p| ==> p[j] < |p|)
    && (forall i, j :: 0 <= i < j < |p| ==> p[i] != p[j])
  }

  // ---- The pigeonhole behind the membership check ----

  function Elements(p: seq<nat>): set<nat> { set j | 0 <= j < |p| :: p[j] }

  function Below(n: nat): (s: set<nat>)
    ensures forall k :: k in s <==> 0 <= k < n
    ensures |s| == n
  {
    if n == 0 then {} else Below(n - 1) + {n - 1}
  }

  lemma {:induction false} DistinctCount(p: seq<nat>)
    requires forall i, j :: 0 <= i < j < |p| ==> p[i] != p[j]
    ensures |Elements(p)| == |p|
  {
    if |p| > 0 {
      var q := p[..|p| - 1];
      DistinctCount(q);
      assert Elements(p) == Elements(q) + {p[|p| - 1]};
    }
  }

  lemma SameSize(a: set<nat>, b: set<nat>)
    requires a <= b && |a| == |b|
    ensures a == b
  {
    assert |b - a| == |b| - |a|;
  }

  /** Distinct numbers below n fill all of them. */
  lemma Covers(p: seq<nat>)
    requires IsPermutation(p)
    ensures forall k :: 0 <= k < |p| ==> k in p
  {
    DistinctCount(p);
    SameSize(Elements(p), Below(|p|));
    forall k | 0 <= k < |p| ensures k in p {
      assert k in Elements(p);
    }
  }

  function Position(p: seq<nat>, k: nat): (j: nat)
    requires k in p
    ensures j < |p| && p[j] == k
  {
    if p[0] == k then 0 else 1 + Position(p[1..], k)
  }

  function Inverse(p: seq<nat>): (inv: seq<nat>)
    requires forall k :: 0 <= k < |p| ==> k in p
    ensures |inv| == |p| && forall k :: 0 <= k < |p| ==> inv[k] < |p| && p[inv[k]] == k
  {
    seq(|p|, k requires 0 <= k < |p| => Position(p, k))
  }

  /** If each number below its length occurs, a sequence has each exactly once. */
  lemma OccursOnce(p: seq<nat>)
    requires forall k :: 0 <= k < |p| ==> k in p
    ensures IsPermutation(p)
    ensures forall j :: 0 <= j < |p| ==> Inverse(p)[p[j]] == j
  {
    var inv := Inverse(p);
    forall i, j | 0 <= i < j < |p| ensures inv[i] != inv[j] {
      assert p[inv[i]] == i && p[inv[j]] == j;
    }
    Covers(inv);
    forall j | 0 <= j < |p| ensures p[j] < |p| && inv[p[j]] == j {
      var k := Position(inv, j);
      assert inv[k] == j && p[inv[k]] == k;
    }
  }

  // ---- Swaps ----

  function Swapped<T>(s: seq<T>, i: nat, j: nat): (r: seq<T>)
    requires i < |s| && j < |s|
    ensures |r| == |s|
  {
    s[i := s[j]][j := s[i]]
  }

  predicate InRange(swaps: seq<(nat, nat)>, n: nat) {
    forall k :: 0 <= k < |swaps| ==> swaps[k].0 < n && swaps[k].1 < n
  }

  /** The effect of a run of swaps, first to last. */
  function Performed<T>(s: seq<T>, swaps: seq<(nat, nat)>): (r: seq<T>)
    requires InRange(swaps, |s|)
    ensures |r| == |s|
  {
    if |swaps| == 0 then s
    else
      var last := swaps[|swaps| - 1];
      Swapped(Performed(s, swaps[..|swaps| - 1]), last.0, last.1)
  }

  function Iota(n: nat): (r: seq<nat>)
    ensures |r| == n && forall k :: 0 <= k < n ==> r[k] == k
  {
    seq(n, k => k)
  }

  function Permuted<T>(s: seq<T>, p: seq<nat>): (r: seq<T>)
    requires |s| == |p| && forall k :: 0 <= k < |p| ==> p[k] < |s|
    ensures |r| == |s|
  {
    seq(|p|, k requires 0 <= k < |p| => s[p[k]])
  }

  /** Where the elements of n positions end up: position k then holds element r[k]. */
  function Arrangement(n: nat, swaps: seq<(nat, nat)>): (r: seq<nat>)
    requires InRange(swaps, n)
    ensures |r| == n && forall k :: 0 <= k < n ==> r[k] < n
  {
    if |swaps| == 0 then Iota(n)
    else
      var last := swaps[|swaps| - 1];
      Swapped(Arrangement(n, swaps[..|swaps| - 1]), last.0, last.1)
  }

  /** Swaps move whatever they are given in the same way. */
  lemma {:induction false} SwapsPermute<T>(s: seq<T>, swaps: seq<(nat, nat)>)
    requires InRange(swaps, |s|)
    ensures Performed(s, swaps) == Permuted(s, Arrangement(|s|, swaps))
    decreases |swaps|
  {
    if |swaps| > 0 {
      SwapsPermute(s, swaps[..|swaps| - 1]);
    }
  }

  // ---- Following cycles ----

  /** A settled position holds what the permutation asks for, the hole element i, and any other one its own. */
  predicate Holds(p: seq<nat>, t: seq<nat>, a: seq<nat>, i: nat, hole: nat, j: nat)
    requires j < |p| == |t| == |a|
  {
    if t[j] == j then a[j] == p[j]
    else t[j] == p[j] && a[j] == if j == hole then i else j
  }

  /**
    Inside the cycle that starts at i, with its hole at current: t names the settled positions, and what the permutation
    maps to a settled position or to the hole is itself settled, but for what it maps to the start.
    */
  predicate Following(p: seq<nat>, t: seq<nat>, a: seq<nat>, i: nat, current: nat) {
    && IsPermutation(p) && |p| == |t| == |a| && i < |p| && current < |p|
    && (forall j :: 0 <= j < |p| ==> Holds(p, t, a, i, current, j))
    && (forall j :: 0 <= j < |p| && (t[p[j]] == p[j] || p[j] == current) && (p[j] != i || current == i == t[i]) ==>
      t[j] == j)
    && (current != i ==> t[i] == i && t[current] != current)
  }

  predicate BetweenCycles(p: seq<nat>, t: seq<nat>, a: seq<nat>) {
    && IsPermutation(p) && |p| == |t| == |a|
    && (forall j :: 0 <= j < |p| ==> Holds(p, t, a, j, j, j))
    && (forall j :: 0 <= j < |p| && t[p[j]] == p[j] ==> t[j] == j)
  }

  lemma StartCycle(p: seq<nat>, t: seq<nat>, a: seq<nat>, i: nat)
    requires BetweenCycles(p, t, a) && i < |p|
    ensures Following(p, t, a, i, i)
  {
    forall j | 0 <= j < |p| ensures Holds(p, t, a, i, i, j) {
      assert Holds(p, t, a, j, j, j);
    }
  }

  lemma NextInCycle(p: seq<nat>, t: seq<nat>, a: seq<nat>, i: nat, current: nat)
    requires Following(p, t, a, i, current) && t[current] != i
    ensures t[current] != current && t[current] < |p|
    ensures Following(p, t[current := current], Swapped(a, current, t[current]), i, t[current])
  {
    assert Holds(p, t, a, i, current, current);
    var next := t[current];
    assert t[next] != next;
    assert Holds(p, t, a, i, current, next);
    var t', a' := t[current := current], Swapped(a, current, next);
    forall j | 0 <= j < |p| ensures Holds(p, t', a', i, next, j) {
      assert Holds(p, t, a, i, current, j);
    }
  }

  lemma CloseCycle(p: seq<nat>, t: seq<nat>, a: seq<nat>, i: nat, current: nat)
    requires Following(p, t, a, i, current) && t[current] == i
    ensures BetweenCycles(p, t[current := current], a)
  {
    assert Holds(p, t, a, i, current, current);
    var t' := t[current := current];
    forall j | 0 <= j < |p| ensures Holds(p, t', a, j, j, j) {
      assert Holds(p, t, a, i, current, j);
    }
  }

  lemma AllSettled(p: seq<nat>, t: seq<nat>, a: seq<nat>)
    requires BetweenCycles(p, t, a) && forall j :: 0 <= j < |p| ==> t[j] == j
    ensures a == p
  {
    forall j | 0 <= j < |p| ensures a[j] == p[j] {
      assert Holds(p, t, a, j, j, j);
    }
  }

  function Unsettled(t: seq<nat>): set<nat> { set j | 0 <= j < |t| && t[j] != j }

  lemma SettlesOne(t: seq<nat>, current: nat)
    requires current < |t| && t[current] != current
    ensures Unsettled(t[current := current]) == Unsettled(t) - {current} && current in Unsettled(t)
  {
  }

  lemma NextSwap(n: nat, swaps: seq<(nat, nat)>, i: nat, j: nat)
    requires InRange(swaps, n) && i < n && j < n
    ensures InRange(swaps + [(i, j)], n)
    ensures Arrangement(n, swaps + [(i, j)]) == Swapped(Arrangement(n, swaps), i, j)
  {
    assert (swaps + [(i, j)])[..|swaps|] == swaps;
  }

  /** The callback form of apply_permutation: the calls of swap, in order, or None for the exception. */
  method ApplyPermutation(permutation: seq<nat>) returns (swaps: Option<seq<(nat, nat)>>)
    ensures swaps.Some? <==> IsPermutation(permutation)
    ensures swaps.Some? ==>
      InRange(swaps.value, |permutation|) && Arrangement(|permutation|, swaps.value) == permutation
  {
    for n := 0 to |permutation|
      invariant forall k :: 0 <= k < n ==> k in permutation
    {
      if n !in permutation {
        if IsPermutation(permutation) {
          Covers(permutation);
        }
        return None;
      }
    }
    OccursOnce(permutation);
    ghost var p := permutation;
    var t: seq<nat> := permutation;
    var made: seq<(nat, nat)> := [];
    hide Arrangement, Swapped, IsPermutation, Holds;
    StartsSettled(p);
    for i := 0 to |permutation|
      invariant |t| == |p| && InRange(made, |p|) && BetweenCycles(p, t, Arrangement(|p|, made))
      invariant forall j :: 0 <= j < i ==> t[j] == j
    {
      var current: nat := i;
      StartCycle(p, t, Arrangement(|p|, made), i);
      while i != t[current]
        invariant |t| == |p| && InRange(made, |p|) && Following(p, t, Arrangement(|p|, made), i, current)
        invariant forall j :: 0 <= j < i ==> t[j] == j
        decreases |Unsettled(t)|
      {
        NextInCycle(p, t, Arrangement(|p|, made), i, current);
        SettlesOne(t, current);
        var next := t[current];
        NextSwap(|p|, made, current, next);
        made := made + [(current, next)];
        t := t[current := current];
        current := next;
      }
      CloseCycle(p, t, Arrangement(|p|, made), i, current);
      t := t[current := current];
    }
    AllSettled(p, t, Arrangement(|p|, made));
    swaps := Some(made);
  }

  lemma StartsSettled(p: seq<nat>)
    requires IsPermutation(p)
    ensures BetweenCycles(p, p, Arrangement(|p|, []))
  {
  }

  /** The swaps made on an array. */
  method PerformSwaps<T>(v: array<T>, swaps: seq<(nat, nat)>)
    requires InRange(swaps, v.Length)
    modifies v
    ensures v[..] == Performed(old(v[..]), swaps)
  {
    for k := 0 to |swaps|
      invariant v[..] == Performed(old(v[..]), swaps[..k])
    {
      assert swaps[..k + 1][..k] == swaps[..k];
      v[swaps[k].0], v[swaps[k].1] := v[swaps[k].1], v[swaps[k].0];
    }
    assert swaps[..|swaps|] == swaps;
  }

  /** The vector form: every element comes from where the permutation says, or nothing happens. */
  method ApplyPermutationTo<T>(permutation: seq<nat>, v: array<T>) returns (ok: bool)
    modifies v
    ensures ok <==> |permutation| == v.Length && IsPermutation(permutation)
    ensures ok ==> forall i :: 0 <= i < v.Length ==> permutation[i] < v.Length && v[i] == old(v[..])[permutation[i]]
    ensures !ok ==> v[..] == old(v[..])
  {
    if |permutation| != v.Length {
      return false;
    }
    var swaps := ApplyPermutation(permutation);
    if swaps.None? {
      return false;
    }
    PerformSwaps(v, swaps.value);
    SwapsPermute(old(v[..]), swaps.value);
    return true;
  }

  /** One callback that swaps three arrays keeps them aligned: each ends up permuted in the same way. */
  method ApplyPermutationAligned<A, B, C>(permutation: seq<nat>, vin: array<A>, contexts: array<B>, sources: array<C>)
    returns (ok: bool)
    requires vin.Length == contexts.Length == sources.Length == |permutation|
    requires vin as object != contexts as object && vin as object != sources as object
      && contexts as object != sources as object
    modifies vin, contexts, sources
    ensures ok <==> IsPermutation(permutation)
    ensures ok ==> forall i :: 0 <= i < |permutation| ==> permutation[i] < |permutation|
    ensures ok ==> forall i :: 0 <= i < |permutation| ==>
      && vin[i] == old(vin[..])[permutation[i]]
      && contexts[i] == old(contexts[..])[permutation[i]]
      && sources[i] == old(sources[..])[permutation[i]]
  {
    var swaps := ApplyPermutation(permutation);
    if swaps.None? {
      return false;
    }
    PerformSwaps(vin, swaps.value);
    PerformSwaps(contexts, swaps.value);
    PerformSwaps(sources, swaps.value);
    SwapsPermute(old(vin[..]), swaps.value);
    SwapsPermute(old(contexts[..]), swaps.value);
    SwapsPermute(old(sources[..]), swaps.value);
    return true;
  }

  /**
    The input sorting of construct_tx_with_tx_key: with order as std::sort leaves it, no input comes after one it
    precedes, and each context and source stays with its input.
    */
  method SortInputs<A, B, C>(order: seq<nat>, precedes: (A, A) -> bool, vin: array<A>, contexts: array<B>,
      sources: array<C>)
    requires vin.Length == contexts.Length == sources.Length == |order| && IsPermutation(order)
    requires vin as object != contexts as object && vin as object != sources as object
      && contexts as object != sources as object
    requires forall i, j :: 0 <= i < j < |order| ==> !precedes(vin[order[j]], vin[order[i]])
    modifies vin, contexts, sources
    ensures forall i, j :: 0 <= i < j < |order| ==> !precedes(vin[j], vin[i])
    ensures forall i :: 0 <= i < |order| ==>
      && vin[i] == old(vin[..])[order[i]]
      && contexts[i] == old(contexts[..])[order[i]]
      && sources[i] == old(sources[..])[order[i]]
  {
    ghost var was := vin[..];
    assert forall i, j :: 0 <= i < j < |order| ==> !precedes(was[order[j]], was[order[i]]);
    var ok := ApplyPermutationAligned(order, vin, contexts, sources);
  }
}
