/** The queue of connections by advisory tick time. */
module AdvisoryTickQueue {
  import opened Wrappers
  import opened HeapOrder
  import opened WordBits

  type Addr = nat
  type Conn = nat

  /** A queue element, with the index that it has in the heap array. */
  datatype Elem = Elem(conn: Conn, time: nat, why: nat, idx: nat)

  /** Element memory, by address. */
  type Elems = map<Addr, Elem>

  /** What the queue says about one connection. */
  datatype Entry = Entry(time: nat, why: nat)

  // ---------- The links ----------

  /** Every element of the heap knows its place. */
  ghost predicate Indexed(heap: seq<Addr>, elems: Elems) {
    forall i | 0 <= i < |heap| :: IndexedAt(heap, elems, i)
  }

  ghost predicate IndexedAt(heap: seq<Addr>, elems: Elems, i: nat)
    requires i < |heap|
  {
    heap[i] in elems && elems[heap[i]].idx == i
  }

  /** Every element is in the heap, those on their way out aside. */
  ghost predicate Complete(heap: seq<Addr>, elems: Elems, gone: set<Addr>) {
    forall a | a in elems && a !in gone :: elems[a].idx < |heap| && heap[elems[a].idx] == a
  }

  /** Connections in the queue and elements point to each other. */
  ghost predicate Linked(elems: Elems, connElem: map<Conn, Addr>, gone: set<Addr>) {
    && (forall a | a in elems && a !in gone :: elems[a].conn in connElem && connElem[elems[a].conn] == a)
    && (forall c | c in connElem :: connElem[c] in elems && connElem[c] !in gone && elems[connElem[c]].conn == c)
  }

  function TimeOf(elems: Elems, a: Addr): nat {
    if a in elems then elems[a].time else 0
  }

  /** The advisory times in heap order. */
  ghost function Times(heap: seq<Addr>, elems: Elems): seq<nat> {
    seq(|heap|, i requires 0 <= i < |heap| => TimeOf(elems, heap[i]))
  }

  function Reindexed(elems: Elems, x: Addr, i: nat): Elems
    requires x in elems
  {
    elems[x := elems[x].(idx := i)]
  }

  /** Nothing but indices differs. */
  ghost predicate SameEntries(elems: Elems, elems': Elems) {
    elems.Keys == elems'.Keys && forall a | a in elems :: elems'[a] == elems[a].(idx := elems'[a].idx)
  }

  ghost function QueueOf(elems: Elems, connElem: map<Conn, Addr>): map<Conn, Entry>
    requires forall c | c in connElem :: connElem[c] in elems
  {
    map c | c in connElem :: Entry(elems[connElem[c]].time, elems[connElem[c]].why)
  }

  lemma SwapTimes(heap: seq<Addr>, elems: Elems, a: nat, b: nat, heap': seq<Addr>, elems': Elems)
    requires a < |heap| && b < |heap| && heap' == Swapped(heap, a, b) && SameEntries(elems, elems')
    ensures Times(heap', elems') == Swapped(Times(heap, elems), a, b)
  {
  }

  lemma SwapIndexed(heap: seq<Addr>, elems: Elems, a: nat, b: nat, heap': seq<Addr>, elems': Elems)
    requires a < |heap| && b < |heap| && Indexed(heap, elems) && heap' == Swapped(heap, a, b)
    requires heap'[a] in elems && heap'[b] in elems
    requires elems' == Reindexed(Reindexed(elems, heap'[a], a), heap'[b], b)
    ensures Indexed(heap', elems') && SameEntries(elems, elems')
  {
    forall i | 0 <= i < |heap|
      ensures IndexedAt(heap', elems', i)
    {
      assert IndexedAt(heap, elems, i) && IndexedAt(heap, elems, a) && IndexedAt(heap, elems, b);
    }
  }

  lemma SwapKeeps(heap: seq<Addr>, elems: Elems, connElem: map<Conn, Addr>, gone: set<Addr>, a: nat, b: nat,
                  heap': seq<Addr>, elems': Elems)
    requires a < |heap| && b < |heap|
    requires Indexed(heap, elems) && Complete(heap, elems, gone) && Linked(elems, connElem, gone)
    requires heap' == Swapped(heap, a, b)
    requires heap'[a] in elems && heap'[b] in elems
    requires elems' == Reindexed(Reindexed(elems, heap'[a], a), heap'[b], b)
    ensures Indexed(heap', elems') && Complete(heap', elems', gone) && Linked(elems', connElem, gone)
    ensures SameEntries(elems, elems')
    ensures Times(heap', elems') == Swapped(Times(heap, elems), a, b)
  {
    assert IndexedAt(heap, elems, a) && IndexedAt(heap, elems, b);
    SwapIndexed(heap, elems, a, b, heap', elems');
    SwapTimes(heap, elems, a, b, heap', elems');
  }

  /** The queue as values: the heap array up to its end, element memory, and the connections' links. */
  ghost predicate QueueOk(heap: seq<Addr>, elems: Elems, connElem: map<Conn, Addr>, gone: set<Addr>) {
    Indexed(heap, elems) && Complete(heap, elems, gone) && Linked(elems, connElem, gone)
  }

  lemma SameQueue(elems: Elems, elems': Elems, connElem: map<Conn, Addr>)
    requires SameEntries(elems, elems') && forall c | c in connElem :: connElem[c] in elems
    ensures QueueOf(elems', connElem) == QueueOf(elems, connElem)
  {
  }

  lemma SameEntriesTrans(a: Elems, b: Elems, c: Elems)
    requires SameEntries(a, b) && SameEntries(b, c)
    ensures SameEntries(a, c)
  {
  }

  /** A new element at the end of the heap. */
  lemma AddIndexed(heap: seq<Addr>, elems: Elems, el: Addr, e: Elem, heap': seq<Addr>, elems': Elems)
    requires Indexed(heap, elems) && Complete(heap, elems, {}) && el !in elems && e.idx == |heap|
    requires heap' == heap + [el] && elems' == elems[el := e]
    ensures Indexed(heap', elems') && Complete(heap', elems', {})
  {
    forall i | 0 <= i < |heap'|
      ensures IndexedAt(heap', elems', i)
    {
      if i < |heap| {
        assert IndexedAt(heap, elems, i);
      }
    }
  }

  lemma AddLinked(elems: Elems, connElem: map<Conn, Addr>, el: Addr, e: Elem, elems': Elems, connElem': map<Conn, Addr>)
    requires Linked(elems, connElem, {}) && el !in elems && e.conn !in connElem
    requires elems' == elems[el := e] && connElem' == connElem[e.conn := el]
    ensures Linked(elems', connElem', {})
  {
  }

  lemma AddQueue(elems: Elems, connElem: map<Conn, Addr>, el: Addr, e: Elem, elems': Elems, connElem': map<Conn, Addr>)
    requires Linked(elems, connElem, {}) && el !in elems && Linked(elems', connElem', {})
    requires elems' == elems[el := e] && connElem' == connElem[e.conn := el]
    ensures QueueOf(elems', connElem') == QueueOf(elems, connElem)[e.conn := Entry(e.time, e.why)]
  {
  }

  lemma AddTimes(heap: seq<Addr>, elems: Elems, el: Addr, e: Elem, heap': seq<Addr>, elems': Elems)
    requires Indexed(heap, elems) && el !in elems && heap' == heap + [el] && elems' == elems[el := e]
    ensures Times(heap', elems') == Times(heap, elems) + [e.time]
  {
    var t, t' := Times(heap, elems) + [e.time], Times(heap', elems');
    forall i | 0 <= i < |t'|
      ensures t'[i] == t[i]
    {
      if i < |heap| {
        assert IndexedAt(heap, elems, i);
      }
    }
  }

  /** The heap array after the element at `idx` gives its place to the last one. */
  ghost function Vacated(heap: seq<Addr>, idx: nat): seq<Addr>
    requires idx < |heap|
  {
    var n := |heap| - 1;
    if idx < n then heap[..n][idx := heap[n]] else heap[..n]
  }

  lemma RemoveIndexed(heap: seq<Addr>, elems: Elems, idx: nat, el: Addr, last: Addr, heap': seq<Addr>, elems': Elems)
    requires Indexed(heap, elems) && Complete(heap, elems, {})
    requires idx < |heap| && el == heap[idx] && last == heap[|heap| - 1] && el in elems && last in elems
    requires heap' == Vacated(heap, idx) && elems' == Reindexed(elems, last, idx)
    ensures Indexed(heap', elems') && Complete(heap', elems', {el}) && el !in heap'
    ensures SameEntries(elems, elems')
  {
    assert IndexedAt(heap, elems, |heap| - 1) && IndexedAt(heap, elems, idx);
    forall i | 0 <= i < |heap'|
      ensures IndexedAt(heap', elems', i) && heap'[i] != el
    {
      assert IndexedAt(heap, elems, i);
    }
  }

  lemma RemoveTimes(heap: seq<Addr>, elems: Elems, idx: nat, heap': seq<Addr>, elems': Elems, t: seq<nat>, n: nat)
    requires idx < |heap| && heap' == Vacated(heap, idx) && SameEntries(elems, elems')
    requires t == Times(heap, elems) && n == |heap| - 1
    ensures Times(heap', elems') == if idx < n then t[..n][idx := t[n]] else t[..n]
  {
  }

  lemma RemoveLinked(elems: Elems, connElem: map<Conn, Addr>, el: Addr, elems': Elems, connElem': map<Conn, Addr>)
    requires Linked(elems, connElem, {}) && SameEntries(elems, elems') && el in elems
    requires connElem' == connElem - {elems[el].conn}
    ensures Linked(elems', connElem', {el})
    ensures QueueOf(elems', connElem') == QueueOf(elems, connElem) - {elems[el].conn}
  {
  }

  lemma VacateKeeps(heap: seq<Addr>, elems: Elems, connElem: map<Conn, Addr>, idx: nat, el: Addr, last: Addr,
                    heap': seq<Addr>, elems': Elems, connElem': map<Conn, Addr>, t: seq<nat>, t': seq<nat>, n: nat)
    requires QueueOk(heap, elems, connElem, {}) && n == |heap| - 1
    requires idx < |heap| && el == heap[idx] && last == heap[n] && el in elems && last in elems
    requires heap' == Vacated(heap, idx) && elems' == Reindexed(elems, last, idx)
    requires connElem' == connElem - {elems[el].conn}
    requires t == Times(heap, elems) && Heap(t) && t' == Times(heap', elems')
    ensures QueueOk(heap', elems', connElem', {el}) && el !in heap' && el in elems'
    ensures QueueOf(elems', connElem') == QueueOf(elems, connElem) - {elems[el].conn}
    ensures idx < n ==>
              if idx > 0 && t'[idx] < t'[Parent(idx)] then HeapButUp(t', idx) else HeapButDown(t', idx)
    ensures idx == n ==> Heap(t') && TimeOf(elems', el) == t[n]
    ensures idx == n && idx > 0 ==> TimeOf(elems', el) >= t'[Parent(idx)]
  {
    RemoveIndexed(heap, elems, idx, el, last, heap', elems');
    RemoveLinked(elems, connElem, el, elems', connElem');
    RemoveTimes(heap, elems, idx, heap', elems', t, n);
    if idx < n {
      Replaced(t, idx, t');
    } else {
      DropLast(t, t');
      assert idx > 0 ==> Above(t, idx);
    }
  }

  /** The memory of an element that is on its way out is given back. */
  lemma FreeKeeps(heap: seq<Addr>, elems: Elems, connElem: map<Conn, Addr>, el: Addr, elems': Elems)
    requires QueueOk(heap, elems, connElem, {el}) && el !in heap && elems' == elems - {el}
    ensures QueueOk(heap, elems', connElem, {})
    ensures Times(heap, elems') == Times(heap, elems)
    ensures QueueOf(elems', connElem) == QueueOf(elems, connElem)
  {
    forall i | 0 <= i < |heap|
      ensures IndexedAt(heap, elems', i)
    {
      assert IndexedAt(heap, elems, i);
    }
  }

  class Attq {
    var heap: array<Addr>
    var nelem: nat
    var elems: Elems
    /** The link from a connection to its element, if it is in the queue. */
    var connElem: map<Conn, Addr>

    ghost predicate Sound(gone: set<Addr>)
      reads this, heap
    {
      nelem <= heap.Length && QueueOk(heap[..nelem], elems, connElem, gone)
    }

    ghost function HeapTimes(): seq<nat>
      reads this, heap
      requires nelem <= heap.Length
    {
      Times(heap[..nelem], elems)
    }

    ghost predicate Valid()
      reads this, heap
    {
      Sound({}) && Heap(HeapTimes())
    }

    /** Time and reason of every connection in the queue: what the queue stands for. */
    ghost function Queue(): map<Conn, Entry>
      reads this, heap
      requires Valid()
    {
      QueueOf(elems, connElem)
    }

    constructor ()
      ensures Valid() && Queue() == map[] && fresh(heap)
    {
      heap := new Addr[0];
      nelem, elems, connElem := 0, map[], map[];
    }

    method Swap(a: nat, b: nat, ghost gone: set<Addr>)
      requires Sound(gone) && a < nelem && b < nelem
      modifies heap, `elems
      ensures Sound(gone)
      ensures heap[..nelem] == Swapped(old(heap[..nelem]), a, b)
      ensures HeapTimes() == Swapped(old(HeapTimes()), a, b)
      ensures SameEntries(old(elems), elems)
    {
      ghost var h, es := heap[..nelem], elems;
      assert IndexedAt(h, es, a) && IndexedAt(h, es, b);
      var el := heap[a];
      heap[a] := heap[b];
      heap[b] := el;
      var x, y := heap[a], heap[b];
      elems := Reindexed(elems, x, a);
      elems := Reindexed(elems, y, b);
      ghost var h' := heap[..nelem];
      assert h' == Swapped(h, a, b);
      SwapKeeps(h, es, connElem, gone, a, b, h', elems);
    }

    function Time(i: nat): nat
      reads this, heap
      requires i < heap.Length
    {
      TimeOf(elems, heap[i])
    }

    lemma TimeIs(i: nat)
      requires i < nelem <= heap.Length
      ensures Time(i) == HeapTimes()[i]
    {
    }

    /**
     Adds a connection that is not in the queue.  `room` and `memory` are the answers of the
     allocator, for a larger heap array and for an element.
     */
    method Add(conn: Conn, time: nat, why: nat, room: bool, memory: Option<Addr>) returns (ok: bool)
      requires Valid() && conn !in connElem
      requires memory.Some? ==> memory.value !in elems
      modifies this, heap
      ensures Valid() && (heap == old(heap) || fresh(heap))
      ensures ok <==> memory.Some? && (old(nelem) < old(heap.Length) || room)
      ensures Queue() == if ok then old(Queue())[conn := Entry(time, why)] else old(Queue())
    {
      if nelem >= heap.Length {
        if !room {
          return false;
        }
        Enlarge();
      }
      if memory.None? {
        return false;
      }
      Insert(memory.value, Elem(conn, time, why, nelem));
      ok := true;
    }

    method Insert(el: Addr, e: Elem)
      requires Valid() && nelem < heap.Length
      requires el !in elems && e.conn !in connElem && e.idx == nelem
      modifies this, heap
      ensures Valid() && heap == old(heap) && Queue() == old(Queue())[e.conn := Entry(e.time, e.why)]
    {
      Append(el, e);
      SiftUp(nelem - 1);
    }

    method Enlarge()
      requires Valid() && nelem == heap.Length
      modifies `heap
      ensures Valid() && Queue() == old(Queue())
      ensures fresh(heap) && nelem < heap.Length && heap.Length == (if nelem == 0 then 8 else 2 * nelem)
    {
      var n := if heap.Length > 0 then heap.Length * 2 else 8;
      var narrow := heap;
      var wide := new Addr[n];
      var i := 0;
      while i < nelem
        invariant i <= nelem && narrow.Length == nelem < wide.Length && fresh(wide)
        invariant wide[..i] == narrow[..i]
      {
        wide[i] := narrow[i];
        i := i + 1;
      }
      assert wide[..nelem] == narrow[..nelem];
      heap := wide;
    }

    method Append(el: Addr, e: Elem)
      requires Valid() && nelem < heap.Length
      requires el !in elems && e.conn !in connElem && e.idx == nelem
      modifies this, heap
      ensures heap == old(heap) && nelem == old(nelem) + 1 && Sound({}) && HeapButUp(HeapTimes(), nelem - 1)
      ensures QueueOf(elems, connElem) == old(Queue())[e.conn := Entry(e.time, e.why)]
    {
      ghost var h, es, links, t := heap[..nelem], elems, connElem, HeapTimes();
      elems := elems[el := e];
      connElem := connElem[e.conn := el];
      heap[nelem] := el;
      nelem := nelem + 1;
      ghost var h', t' := heap[..nelem], HeapTimes();
      assert h' == h + [el];
      AddIndexed(h, es, el, e, h', elems);
      AddLinked(es, links, el, e, elems, connElem);
      AddQueue(es, links, el, e, elems, connElem);
      AddTimes(h, es, el, e, h', elems);
      AppendedLast(t, e.time, t');
    }

    /** Swaps the element at `i`, which may be too early for its place, with its parent. */
    method Raise(i: nat, p: nat, ghost gone: set<Addr>, ghost es: Elems)
      requires Sound(gone) && 0 < i < nelem && p == Parent(i) && HeapButUp(HeapTimes(), i) && Time(p) >= Time(i)
      requires SameEntries(es, elems)
      modifies heap, `elems
      ensures Sound(gone) && HeapButUp(HeapTimes(), p)
      ensures SameEntries(es, elems)
      ensures forall x | x in heap[..nelem] :: x in old(heap[..nelem])
    {
      ghost var t, es1 := HeapTimes(), elems;
      TimeIs(i);
      TimeIs(p);
      Swap(i, p, gone);
      ghost var t' := HeapTimes();
      StepUp(t, i, p, t');
      SameEntriesTrans(es, es1, elems);
    }

    /** The element at `i` is not too early for its place. */
    lemma RaiseEnds(i: nat, gone: set<Addr>)
      requires Sound(gone) && i < nelem && HeapButUp(HeapTimes(), i) && (i == 0 || Time(Parent(i)) <= Time(i))
      ensures Heap(HeapTimes())
    {
    }

    /** Moves the element at `k` up while its parent is not earlier. */
    method SiftUp(k: nat)
      requires Sound({}) && k < nelem && HeapButUp(HeapTimes(), k)
      modifies heap, `elems
      ensures Valid() && Queue() == old(QueueOf(elems, connElem))
    {
      ghost var es := elems;
      var i: nat := k;
      while i > 0 && Time(Parent(i)) >= Time(i)
        invariant i < nelem && Sound({}) && HeapButUp(HeapTimes(), i)
        invariant SameEntries(es, elems)
      {
        var p := Parent(i);
        Raise(i, p, {}, es);
        i := p;
      }
      RaiseEnds(i, {});
      SameQueue(es, elems, connElem);
    }

    /** Moves the element at `i`, which may be too late for its place, down. */
    method Heapify(i: nat, ghost gone: set<Addr>, ghost es: Elems, ghost members: set<Addr>)
      requires Sound(gone) && i < nelem && HeapButDown(HeapTimes(), i)
      requires SameEntries(es, elems) && forall x | x in heap[..nelem] :: x in members
      modifies heap, `elems
      ensures Sound(gone) && Heap(HeapTimes())
      ensures SameEntries(es, elems) && forall x | x in heap[..nelem] :: x in members
      decreases nelem - i
    {
      var smallest := i;
      if LChild(i) < nelem {
        if Time(LChild(i)) < Time(i) {
          smallest := LChild(i);
        }
        if RChild(i) < nelem && Time(RChild(i)) < Time(smallest) {
          smallest := RChild(i);
        }
      }
      SmallestIs(i, smallest, gone);
      if smallest != i {
        Lower(i, smallest, gone, es, members);
        Heapify(smallest, gone, es, members);
      } else {
        DownDone(HeapTimes(), i);
      }
    }

    lemma SmallestIs(i: nat, smallest: nat, gone: set<Addr>)
      requires Sound(gone) && i < nelem && smallest < nelem
      requires smallest == i || smallest == LChild(i) || smallest == RChild(i)
      requires smallest != i ==> Time(smallest) < Time(i)
      requires LChild(i) < nelem ==> Time(smallest) <= Time(LChild(i))
      requires RChild(i) < nelem ==> Time(smallest) <= Time(RChild(i))
      ensures smallest != i ==> Parent(smallest) == i && HeapTimes()[smallest] < HeapTimes()[i]
      ensures forall k | 0 < k < nelem && Parent(k) == i :: HeapTimes()[smallest] <= HeapTimes()[k]
    {
    }

    method Lower(i: nat, c: nat, ghost gone: set<Addr>, ghost es: Elems, ghost members: set<Addr>)
      requires Sound(gone) && i < nelem && HeapButDown(HeapTimes(), i)
      requires SameEntries(es, elems) && forall x | x in heap[..nelem] :: x in members
      requires 0 < c < nelem && Parent(c) == i && HeapTimes()[c] < HeapTimes()[i]
      requires forall k | 0 < k < nelem && Parent(k) == i :: HeapTimes()[c] <= HeapTimes()[k]
      modifies heap, `elems
      ensures Sound(gone) && HeapButDown(HeapTimes(), c)
      ensures SameEntries(es, elems) && forall x | x in heap[..nelem] :: x in members
    {
      ghost var t, es1 := HeapTimes(), elems;
      Swap(c, i, gone);
      ghost var t' := HeapTimes();
      StepDown(t, i, c, t');
      SameEntriesTrans(es, es1, elems);
    }

    /** Takes a connection out of the queue. */
    method Remove(conn: Conn)
      requires Valid() && conn in connElem
      modifies this, heap
      ensures Valid() && heap == old(heap) && Queue() == old(Queue()) - {conn}
    {
      var el := connElem[conn];
      var idx := elems[el].idx;
      assert heap[idx] == el;
      Vacate(el, idx, conn);
      ghost var es := elems;
      if idx > 0 && Time(idx) < Time(Parent(idx)) {
        Elevate(idx, el, es);
      } else if nelem > 1 && idx < nelem {
        Heapify(idx, {el}, es, set x | x in heap[..nelem]);
      }
      SameQueue(es, elems, connElem);
      Free(el);
    }

    /** Puts the last element in the place of `el`. */
    method Vacate(el: Addr, idx: nat, conn: Conn)
      requires Valid() && conn in connElem && el == connElem[conn] && idx < nelem && heap[idx] == el
      modifies `nelem, `elems, `connElem, heap
      ensures Sound({el}) && nelem == old(nelem) - 1 && idx < heap.Length && el in elems
      ensures el !in heap[..nelem]
      ensures QueueOf(elems, connElem) == old(Queue()) - {conn}
      ensures idx == nelem ==> Heap(HeapTimes()) && (idx > 0 ==> Time(idx) >= Time(Parent(idx)))
      ensures idx < nelem ==>
                if idx > 0 && Time(idx) < Time(Parent(idx)) then HeapButUp(HeapTimes(), idx) else HeapButDown(HeapTimes(), idx)
    {
      ghost var h, es, links, t, n := heap[..nelem], elems, connElem, HeapTimes(), nelem - 1;
      connElem := connElem - {conn};
      nelem := nelem - 1;
      var last := heap[nelem];
      assert IndexedAt(h, es, n) && IndexedAt(h, es, idx);
      heap[idx] := last;
      elems := Reindexed(elems, last, idx);
      ghost var h', t' := heap[..nelem], HeapTimes();
      assert h' == Vacated(h, idx);
      VacateKeeps(h, es, links, idx, el, last, h', elems, connElem, t, t', n);
      if idx < nelem {
        TimeIs(idx);
      }
      if idx > 0 {
        TimeIs(Parent(idx));
      }
    }

    /** Moves the element at `k` up while it is earlier than its parent. */
    method Elevate(k: nat, el: Addr, ghost es: Elems)
      requires Sound({el}) && 0 < k < nelem && HeapButUp(HeapTimes(), k) && Time(k) < Time(Parent(k))
      requires SameEntries(es, elems) && el !in heap[..nelem]
      modifies heap, `elems
      ensures Sound({el}) && Heap(HeapTimes())
      ensures SameEntries(es, elems) && el !in heap[..nelem]
    {
      var idx: nat := k;
      var again := true;
      while again
        invariant idx < nelem && Sound({el}) && HeapButUp(HeapTimes(), idx)
        invariant SameEntries(es, elems) && el !in heap[..nelem]
        invariant again == (idx > 0 && Time(idx) < Time(Parent(idx)))
        decreases idx + if again then 1 else 0
      {
        var p := Parent(idx);
        Raise(idx, p, {el}, es);
        idx := p;
        again := idx > 0 && Time(idx) < Time(Parent(idx));
      }
      RaiseEnds(idx, {el});
    }

    method Free(el: Addr)
      requires Sound({el}) && el !in heap[..nelem] && Heap(HeapTimes())
      modifies `elems
      ensures Valid() && Queue() == old(QueueOf(elems, connElem))
    {
      ghost var h, es := heap[..nelem], elems;
      elems := elems - {el};
      FreeKeeps(h, es, connElem, el, elems);
    }

    /** A connection's time is found at its element's place in the heap. */
    lemma EntryAt(c: Conn)
      requires Valid() && c in Queue()
      ensures elems[connElem[c]].idx < nelem && HeapTimes()[elems[connElem[c]].idx] == Queue()[c].time
      ensures HeapTimes()[0] <= Queue()[c].time
    {
      RootIsEarliest(HeapTimes(), elems[connElem[c]].idx);
    }

    /** Takes out the earliest connection, if it is before the cutoff. */
    method Pop(cutoff: nat) returns (conn: Option<Conn>)
      requires Valid()
      modifies this, heap
      ensures Valid() && heap == old(heap)
      ensures conn.None? <==> forall c | c in old(Queue()) :: old(Queue())[c].time >= cutoff
      ensures conn.None? ==> Queue() == old(Queue())
      ensures conn.Some? ==>
                && conn.value in old(Queue()) && old(Queue())[conn.value].time < cutoff
                && (forall c | c in old(Queue()) :: old(Queue())[conn.value].time <= old(Queue())[c].time)
                && Queue() == old(Queue()) - {conn.value}
    {
      ghost var q := Queue();
      if nelem == 0 {
        return None;
      }
      forall c | c in q
        ensures Time(0) <= q[c].time
      {
        EntryAt(c);
      }
      var el := heap[0];
      assert IndexedAt(heap[..nelem], elems, 0);
      if elems[el].time >= cutoff {
        return None;
      }
      var c := elems[el].conn;
      assert q[c].time == elems[el].time;
      Remove(c);
      conn := Some(c);
    }

    /** Pops until nothing is before the cutoff, as the engine does at every tick. */
    method PopAll(cutoff: nat) returns (conns: seq<Conn>)
      requires Valid()
      modifies this, heap
      ensures Valid()
      ensures forall c :: c in conns <==> c in old(Queue()) && old(Queue())[c].time < cutoff
      ensures forall i, j | 0 <= i < j < |conns| ::
                conns[i] != conns[j] && old(Queue())[conns[i]].time <= old(Queue())[conns[j]].time
      ensures Queue() == map c | c in old(Queue()) && old(Queue())[c].time >= cutoff :: old(Queue())[c]
    {
      ghost var q := Queue();
      conns := [];
      var more := true;
      while more
        invariant Valid() && heap == old(heap)
        invariant Popped(q, Queue(), conns, cutoff)
        invariant !more ==> forall c | c in Queue() :: Queue()[c].time >= cutoff
        decreases more, |Queue()|
      {
        ghost var rest := Queue();
        var conn := Pop(cutoff);
        ghost var rest' := Queue();
        if conn.Some? {
          PopOne(q, rest, rest', conns, conn.value, cutoff);
          conns := conns + [conn.value];
        } else {
          more := false;
        }
      }
      PoppedAll(q, Queue(), conns, cutoff);
    }

    /**
     Counts level by level what is before the cutoff, and stops after the first level
     that is not wholly before it: the count may be too low, but it is zero only if
     there is nothing to count.
     */
    method CountBefore(cutoff: nat) returns (total: nat, ghost level: nat)
      requires Valid()
      ensures LastCounted(HeapTimes(), level, total, cutoff)
      ensures total <= CountBelow(HeapTimes(), cutoff)
      ensures total == 0 <==> CountBelow(HeapTimes(), cutoff) == 0
    {
      ghost var t := HeapTimes();
      total, level := 0, 0;
      var i, width := 0, 1;
      while true
        invariant width == Pow2(level) && LevelsCounted(t, level, i, total, cutoff)
        decreases nelem - i
      {
        var count;
        count, i, total := CountNext(i, width, total, cutoff, level);
        if count < width {
          return;
        }
        level := level + 1;
        width := 2 * width;
      }
    }

    /** Counts one level more. */
    method CountNext(i: nat, width: nat, total: nat, cutoff: nat, ghost level: nat) returns (count: nat, i': nat, total': nat)
      requires Valid() && width == Pow2(level) && LevelsCounted(HeapTimes(), level, i, total, cutoff)
      ensures if count < width then LastCounted(HeapTimes(), level, total', cutoff)
              else i < i' && LevelsCounted(HeapTimes(), level + 1, i', total', cutoff)
    {
      ghost var t := HeapTimes();
      var max := i + width;
      count, i' := CountLevel(i, max, cutoff);
      total' := total + count;
      LevelAdded(t, i, i', cutoff, total, count);
      LevelCounted(t, i, i', max, cutoff);
      assert max == LevelStart(level + 1);
      if count < width {
        RootCounted(t, total', i', max, cutoff);
      }
    }

    /** Counts what is before the cutoff from `start` to `max` or to the end of the heap. */
    method CountLevel(start: nat, max: nat, cutoff: nat) returns (count: nat, i: nat)
      requires Valid() && start <= max && start <= nelem
      ensures i == if max < nelem then max else nelem
      ensures count == CountBelow(HeapTimes()[start..i], cutoff)
    {
      ghost var t := HeapTimes();
      i, count := start, 0;
      while i < max && i < nelem
        invariant start <= i <= max && i <= nelem
        invariant count == CountBelow(t[start..i], cutoff)
      {
        assert t[start..i + 1][..i - start] == t[start..i];
        TimeIs(i);
        count := count + if Time(i) < cutoff then 1 else 0;
        i := i + 1;
      }
    }

    /** The count that the method falls short of is the number of connections before the cutoff. */
    lemma CountIsConns(cutoff: nat)
      requires Valid()
      ensures CountBelow(HeapTimes(), cutoff) == |set c | c in Queue() && Queue()[c].time < cutoff|
    {
      var h, t := heap[..nelem], HeapTimes();
      assert t[..nelem] == t;
      CountConns(h, elems, connElem, t, nelem, cutoff);
      var early := set c | c in Queue() && Queue()[c].time < cutoff;
      assert early == EarlyConns(elems, connElem, nelem, cutoff);
    }
  }

  /** Index of the first element of a level of the heap. */
  function LevelStart(level: nat): nat {
    Pow2(level) - 1
  }

  /** All levels before `level`, which end at `i`, are wholly before the cutoff and have been counted. */
  ghost predicate LevelsCounted(t: seq<nat>, level: nat, i: nat, total: nat, cutoff: nat) {
    i == LevelStart(level) <= |t| && total == CountBelow(t[..i], cutoff) && WhollyBelow(t, 0, i, cutoff)
  }

  /** `level` is the first that is not wholly before the cutoff, and what is before it there has been counted too. */
  ghost predicate LastCounted(t: seq<nat>, level: nat, total: nat, cutoff: nat) {
    && WhollyBelow(t, 0, LevelStart(level), cutoff)
    && !WhollyBelow(t, LevelStart(level), LevelStart(level + 1), cutoff)
    && total == CountBelow(Upto(t, LevelStart(level + 1)), cutoff) <= CountBelow(t, cutoff)
    && (total == 0 <==> CountBelow(t, cutoff) == 0)
  }

  /** The connections before the cutoff whose elements are among the first `n` of the heap. */
  ghost function EarlyConns(elems: Elems, connElem: map<Conn, Addr>, n: nat, cutoff: nat): set<Conn>
    requires forall c | c in connElem :: connElem[c] in elems
  {
    set c | c in connElem && elems[connElem[c]].idx < n && elems[connElem[c]].time < cutoff
  }

  /** The connection of the element at `i` comes with it. */
  lemma EarlyMore(heap: seq<Addr>, elems: Elems, connElem: map<Conn, Addr>, t: seq<nat>, i: nat, cutoff: nat, c: Conn)
    requires QueueOk(heap, elems, connElem, {}) && t == Times(heap, elems) && i < |heap|
    requires heap[i] in elems && c == elems[heap[i]].conn
    ensures c !in EarlyConns(elems, connElem, i, cutoff)
    ensures EarlyConns(elems, connElem, i + 1, cutoff) ==
            EarlyConns(elems, connElem, i, cutoff) + if t[i] < cutoff then {c} else {}
  {
    assert IndexedAt(heap, elems, i);
  }

  lemma {:induction false} CountConns(heap: seq<Addr>, elems: Elems, connElem: map<Conn, Addr>, t: seq<nat>, n: nat, cutoff: nat)
    requires QueueOk(heap, elems, connElem, {}) && t == Times(heap, elems) && n <= |heap|
    ensures CountBelow(t[..n], cutoff) == |EarlyConns(elems, connElem, n, cutoff)|
  {
    if n == 0 {
      assert EarlyConns(elems, connElem, n, cutoff) == {};
    } else {
      CountConns(heap, elems, connElem, t, n - 1, cutoff);
      assert IndexedAt(heap, elems, n - 1);
      EarlyMore(heap, elems, connElem, t, n - 1, cutoff, elems[heap[n - 1]].conn);
      var upto := t[..n];
      assert upto[..n - 1] == t[..n - 1];
    }
  }

  lemma LevelAdded(t: seq<nat>, start: nat, i: nat, cutoff: nat, total: nat, count: nat)
    requires start <= i <= |t| && total == CountBelow(t[..start], cutoff) && count == CountBelow(t[start..i], cutoff)
    ensures total + count == CountBelow(t[..i], cutoff)
  {
    assert t[..i] == t[..start] + t[start..i];
    CountConcat(t[..start], t[start..i], cutoff);
  }

  /** `conns` were taken out of `q` in order, and `rest` is what is left. */
  ghost predicate Popped(q: map<Conn, Entry>, rest: map<Conn, Entry>, conns: seq<Conn>, cutoff: nat) {
    && (forall c | c in conns :: c in q && c !in rest && q[c].time < cutoff)
    && (forall c | c in rest :: c in q && rest[c] == q[c])
    && (forall c | c in q :: c in rest || c in conns)
    && (forall i, j | 0 <= i < j < |conns| :: conns[i] != conns[j] && q[conns[i]].time <= q[conns[j]].time)
    && (forall i, c | 0 <= i < |conns| && c in rest :: q[conns[i]].time <= q[c].time)
  }

  lemma PopOne(q: map<Conn, Entry>, rest: map<Conn, Entry>, rest': map<Conn, Entry>, conns: seq<Conn>, conn: Conn, cutoff: nat)
    requires Popped(q, rest, conns, cutoff) && conn in rest && rest[conn].time < cutoff && rest' == rest - {conn}
    requires forall c | c in rest :: rest[conn].time <= rest[c].time
    ensures Popped(q, rest', conns + [conn], cutoff)
    ensures |rest'| < |rest|
  {
  }

  lemma PoppedAll(q: map<Conn, Entry>, rest: map<Conn, Entry>, conns: seq<Conn>, cutoff: nat)
    requires Popped(q, rest, conns, cutoff) && forall c | c in rest :: rest[c].time >= cutoff
    ensures rest == map c | c in q && q[c].time >= cutoff :: q[c]
  {
  }

  /** A level counts as many as it has places exactly when it is wholly before the cutoff. */
  lemma LevelCounted(t: seq<nat>, start: nat, i: nat, max: nat, cutoff: nat)
    requires start <= i <= max && i == if max < |t| then max else |t|
    ensures CountBelow(t[start..i], cutoff) <= max - start
    ensures CountBelow(t[start..i], cutoff) == max - start && start < max <==> WhollyBelow(t, start, max, cutoff) && start < max
  {
    var part := t[start..i];
    CountBounds(part, cutoff);
    if CountBelow(part, cutoff) == max - start {
      forall k | start <= k < max
        ensures t[k] < cutoff
      {
        assert t[k] == part[k - start];
      }
    }
  }

  lemma RootCounted(t: seq<nat>, total: nat, i: nat, max: nat, cutoff: nat)
    requires Heap(t) && max > 0 && i == (if max < |t| then max else |t|) && total == CountBelow(t[..i], cutoff)
    ensures total == CountBelow(Upto(t, max), cutoff) <= CountBelow(t, cutoff)
    ensures total == 0 <==> CountBelow(t, cutoff) == 0
  {
    CountPart(t, max, cutoff);
    if total == 0 {
      CountBounds(Upto(t, max), cutoff);
      assert t != [] ==> Upto(t, max)[0] == t[0];
      NoneBefore(t, cutoff);
    }
  }
}
