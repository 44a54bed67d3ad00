/** Binary heaps of times, as sequences: what one swap does to the order. */
module HeapOrder {

  function Parent(i: nat): nat
    requires i > 0
  {
    (i - 1) / 2
  }

  function LChild(i: nat): nat { 2 * i + 1 }
  function RChild(i: nat): nat { 2 * i + 2 }

  ghost predicate Above(t: seq<nat>, i: nat)
    requires 0 < i < |t|
  {
    t[Parent(i)] <= t[i]
  }

  /** The parent of every element is not later than the element. */
  ghost predicate Heap(t: seq<nat>) {
    forall i | 0 < i < |t| :: Above(t, i)
  }

  /** A heap but for the element at `k`, which may be too early for its place. */
  ghost predicate HeapButUp(t: seq<nat>, k: nat) {
    && k < |t|
    && (forall i | 0 < i < |t| && i != k :: Above(t, i))
    && (forall i | 0 < i < |t| && k > 0 && Parent(i) == k :: t[Parent(k)] <= t[i])
  }

  /** A heap but for the element at `k`, which may be too late for its place. */
  ghost predicate HeapButDown(t: seq<nat>, k: nat) {
    && k < |t|
    && (forall i | 0 < i < |t| && Parent(i) != k :: Above(t, i))
    && (forall i | 0 < i < |t| && k > 0 && Parent(i) == k :: t[Parent(k)] <= t[i])
  }

  function Swapped<T>(s: seq<T>, a: nat, b: nat): seq<T>
    requires a < |s| && b < |s|
  {
    s[a := s[b]][b := s[a]]
  }

  lemma RootIsEarliest(t: seq<nat>, i: nat)
    requires Heap(t) && i < |t|
    ensures t[0] <= t[i]
  {
    if i > 0 {
      assert Above(t, i);
      RootIsEarliest(t, Parent(i));
    }
  }

  lemma StepUp(t: seq<nat>, k: nat, p: nat, t': seq<nat>)
    requires HeapButUp(t, k) && k > 0 && p == Parent(k) && t[p] >= t[k] && t' == Swapped(t, k, p)
    ensures HeapButUp(t', p)
  {
    forall i | 0 < i < |t'| && i != p
      ensures Above(t', i)
    {
      if i != k {
        assert Above(t, i);
      }
    }
    forall i | 0 < i < |t'| && p > 0 && Parent(i) == p
      ensures t'[Parent(p)] <= t'[i]
    {
      assert Above(t, p);
      if i != k {
        assert Above(t, i);
      }
    }
  }

  lemma StepDown(t: seq<nat>, k: nat, c: nat, t': seq<nat>)
    requires HeapButDown(t, k) && 0 < c < |t| && Parent(c) == k && t[c] < t[k] && t' == Swapped(t, c, k)
    requires forall i | 0 < i < |t| && Parent(i) == k :: t[c] <= t[i]
    ensures HeapButDown(t', c)
  {
  }

  /** Removing the last element keeps a heap. */
  lemma DropLast(t: seq<nat>, t': seq<nat>)
    requires Heap(t) && t != [] && t' == t[..|t| - 1]
    ensures Heap(t')
  {
    forall i | 0 < i < |t'|
      ensures Above(t', i)
    {
      assert Above(t, i);
    }
  }

  /** So does putting the last element in the place of another, after moving it up or down. */
  lemma Replaced(t: seq<nat>, k: nat, t': seq<nat>)
    requires Heap(t) && k < |t| - 1 && t' == t[..|t| - 1][k := t[|t| - 1]]
    ensures if k > 0 && t'[k] < t'[Parent(k)] then HeapButUp(t', k) else HeapButDown(t', k)
  {
    forall i | 0 < i < |t'| && i != k && Parent(i) != k
      ensures Above(t', i)
    {
      assert Above(t, i);
    }
    forall i | 0 < i < |t'| && Parent(i) == k
      ensures t[k] <= t'[i]
    {
      assert Above(t, i);
    }
    if k > 0 {
      assert Above(t, k);
    }
  }

  lemma DownDone(t: seq<nat>, k: nat)
    requires HeapButDown(t, k) && forall i | 0 < i < |t| && Parent(i) == k :: t[k] <= t[i]
    ensures Heap(t)
  {
  }

  /** A new last element. */
  lemma AppendedLast(t: seq<nat>, x: nat, t': seq<nat>)
    requires Heap(t) && t' == t + [x]
    ensures HeapButUp(t', |t|)
  {
    forall i | 0 < i < |t'| && i != |t|
      ensures Above(t', i)
    {
      assert Above(t, i);
    }
  }

  // ---------- Counting ----------

  /** How many times are before the cutoff. */
  function CountBelow(t: seq<nat>, cutoff: nat): nat {
    if t == [] then 0 else CountBelow(t[..|t| - 1], cutoff) + if t[|t| - 1] < cutoff then 1 else 0
  }

  lemma {:induction false} CountConcat(a: seq<nat>, b: seq<nat>, cutoff: nat)
    ensures CountBelow(a + b, cutoff) == CountBelow(a, cutoff) + CountBelow(b, cutoff)
  {
    if b == [] {
      assert a + b == a;
    } else {
      assert (a + b)[..|a + b| - 1] == a + b[..|b| - 1];
      CountConcat(a, b[..|b| - 1], cutoff);
    }
  }

  lemma {:induction false} CountBounds(t: seq<nat>, cutoff: nat)
    ensures CountBelow(t, cutoff) <= |t|
    ensures CountBelow(t, cutoff) == |t| <==> forall i | 0 <= i < |t| :: t[i] < cutoff
    ensures CountBelow(t, cutoff) == 0 <==> forall i | 0 <= i < |t| :: t[i] >= cutoff
  {
    if t != [] {
      var init := t[..|t| - 1];
      CountBounds(init, cutoff);
      assert forall i | 0 <= i < |init| :: init[i] == t[i];
      if forall i | 0 <= i < |t| :: t[i] < cutoff {
        assert forall i | 0 <= i < |init| :: init[i] < cutoff;
      }
      if forall i | 0 <= i < |t| :: t[i] >= cutoff {
        assert forall i | 0 <= i < |init| :: init[i] >= cutoff;
      }
    }
  }

  /** The part of the heap with index below `n`. */
  function Upto(t: seq<nat>, n: nat): seq<nat> {
    t[..if n < |t| then n else |t|]
  }

  /** The elements of one level, as many as there are. */
  ghost predicate WhollyBelow(t: seq<nat>, from: nat, to: nat, cutoff: nat) {
    to <= |t| && forall i | from <= i < to :: t[i] < cutoff
  }

  lemma CountPart(t: seq<nat>, n: nat, cutoff: nat)
    ensures CountBelow(Upto(t, n), cutoff) <= CountBelow(t, cutoff)
  {
    var part := Upto(t, n);
    assert t == part + t[|part|..];
    CountConcat(part, t[|part|..], cutoff);
  }

  /** If the root is not before the cutoff, nothing is. */
  lemma NoneBefore(t: seq<nat>, cutoff: nat)
    requires Heap(t) && (t == [] || t[0] >= cutoff)
    ensures CountBelow(t, cutoff) == 0
  {
    forall i | 0 <= i < |t|
      ensures t[i] >= cutoff
    {
      RootIsEarliest(t, i);
    }
    CountBounds(t, cutoff);
  }
}
