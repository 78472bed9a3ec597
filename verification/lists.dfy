/**
 Insertion after a given link in glib's singly (GSList) and doubly (GList)
 linked lists.

 The nodes live in a heap: a map from node addresses to node contents. A
 list is described by the sequence of its cells, in order from the head; a
 NULL link is `None`. Allocation of the new node is a parameter: the
 caller passes an address not yet in the heap.
 */
module GmLists {
  import opened Options

  type Ptr = nat

  datatype SNode<D> = SNode(data: D, next: Option<Ptr>)

  datatype DNode<D> = DNode(data: D, prev: Option<Ptr>, next: Option<Ptr>)

  /** The head pointer of a list with these cells. */
  function HeadOf(cells: seq<Ptr>): Option<Ptr> {
    if |cells| == 0 then None else Some(cells[0])
  }

  /** The successor of cell i, NULL for the last. */
  function NextOf(cells: seq<Ptr>, i: nat): Option<Ptr>
    requires i < |cells|
  {
    if i + 1 < |cells| then Some(cells[i + 1]) else None
  }

  /** The predecessor of cell i, NULL for the first. */
  function PrevOf(cells: seq<Ptr>, i: nat): Option<Ptr>
    requires i < |cells|
  {
    if i > 0 then Some(cells[i - 1]) else None
  }

  predicate Distinct(cells: seq<Ptr>) {
    forall i, j :: 0 <= i < j < |cells| ==> cells[i] != cells[j]
  }

  /** `head` starts a NULL-terminated singly linked list through `cells`. */
  predicate IsSList<D>(heap: map<Ptr, SNode<D>>, head: Option<Ptr>, cells: seq<Ptr>) {
    && head == HeadOf(cells)
    && Distinct(cells)
    && (forall i :: 0 <= i < |cells| ==> cells[i] in heap && heap[cells[i]].next == NextOf(cells, i))
  }

  /** `head` starts a doubly linked list through `cells` whose back links agree. */
  predicate IsDList<D>(heap: map<Ptr, DNode<D>>, head: Option<Ptr>, cells: seq<Ptr>) {
    && head == HeadOf(cells)
    && Distinct(cells)
    && (forall i :: 0 <= i < |cells| ==> cells[i] in heap && heap[cells[i]].next == NextOf(cells, i))
    && (forall i :: 0 <= i < |cells| ==> heap[cells[i]].prev == PrevOf(cells, i))
  }

  /** The item a node of either kind holds. */
  function SData<D>(n: SNode<D>): D {
    n.data
  }

  function DData<D>(n: DNode<D>): D {
    n.data
  }

  /** The data items of a list, in order, read from its nodes with `dataOf`. */
  function Items<N, D>(heap: map<Ptr, N>, cells: seq<Ptr>, dataOf: N -> D): (items: seq<D>)
    requires forall i :: 0 <= i < |cells| ==> cells[i] in heap
    ensures |items| == |cells|
  {
    seq(|cells|, i requires 0 <= i < |cells| => dataOf(heap[cells[i]]))
  }

  /** `x` inserted at position k. */
  function InsertAt<T>(s: seq<T>, k: nat, x: T): (r: seq<T>)
    requires k <= |s|
    ensures |r| == |s| + 1
    ensures r[k] == x
    ensures forall i :: 0 <= i < k ==> r[i] == s[i]
    ensures forall i :: k < i < |r| ==> r[i] == s[i - 1]
  {
    s[..k] + [x] + s[k..]
  }

  /** g_slist_prepend: a new node at `newCell` in front of `list`. */
  function SListPrepend<D>(heap: map<Ptr, SNode<D>>, list: Option<Ptr>, data: D, newCell: Ptr)
    : (res: (map<Ptr, SNode<D>>, Option<Ptr>))
    requires newCell !in heap
  {
    (heap[newCell := SNode(data, list)], Some(newCell))
  }

  /**
   gm_slist_insert_after: with `lnk` NULL the item is prepended; otherwise
   the new node takes over `lnk`'s successor and becomes it. Returns the
   new heap and the new head.
   */
  function SListInsertAfter<D>(heap: map<Ptr, SNode<D>>, list: Option<Ptr>, lnk: Option<Ptr>, data: D, newCell: Ptr)
    : (res: (map<Ptr, SNode<D>>, Option<Ptr>))
    requires newCell !in heap
    requires list.None? ==> lnk.None?
    requires lnk.Some? ==> lnk.value in heap
    ensures res.0.Keys == heap.Keys + {newCell}
    ensures res.1 == if lnk.None? then Some(newCell) else list
    ensures forall p :: p in heap && Some(p) != lnk ==> res.0[p] == heap[p]
    ensures forall p :: p in heap ==> res.0[p].data == heap[p].data
    ensures res.0[newCell].data == data
  {
    match lnk
    case None => SListPrepend(heap, list, data, newCell)
    case Some(l) =>
      var added := heap[newCell := SNode(data, heap[l].next)];
      (added[l := heap[l].(next := Some(newCell))], list)
  }

  /**
   g_list_prepend applied to a list head: a new first node at `newCell`,
   and the old head points back to it. glib copies the old node's back link
   into the new node and relinks its predecessor; for a head that link is
   NULL, so the new node's back link is NULL here. Every list the lemmas
   below consider satisfies IsDList, whose first cell has no predecessor.
   */
  function DListPrepend<D>(heap: map<Ptr, DNode<D>>, list: Option<Ptr>, data: D, newCell: Ptr)
    : (res: (map<Ptr, DNode<D>>, Option<Ptr>))
    requires newCell !in heap
    requires list.Some? ==> list.value in heap
  {
    var added := heap[newCell := DNode(data, None, list)];
    match list
    case None => (added, Some(newCell))
    case Some(l) => (added[l := heap[l].(prev := Some(newCell))], Some(newCell))
  }

  /**
   gm_list_insert_after: as for singly linked lists, and the successor of
   `lnk`, when there is one, now points back to the new node.
   */
  function DListInsertAfter<D>(heap: map<Ptr, DNode<D>>, list: Option<Ptr>, lnk: Option<Ptr>, data: D, newCell: Ptr)
    : (res: (map<Ptr, DNode<D>>, Option<Ptr>))
    requires newCell !in heap
    requires list.None? ==> lnk.None?
    requires list.Some? ==> list.value in heap
    requires lnk.Some? ==> lnk.value in heap && (heap[lnk.value].next.Some? ==> heap[lnk.value].next.value in heap)
    ensures res.0.Keys == heap.Keys + {newCell}
    ensures res.1 == if lnk.None? then Some(newCell) else list
    ensures forall p :: p in heap ==> res.0[p].data == heap[p].data
    ensures res.0[newCell].data == data
  {
    match lnk
    case None => DListPrepend(heap, list, data, newCell)
    case Some(l) =>
      var next := heap[l].next;
      var added := heap[newCell := DNode(data, Some(l), next)];
      var relinked := if next.Some? then added[next.value := added[next.value].(prev := Some(newCell))] else added;
      (relinked[l := relinked[l].(next := Some(newCell))], list)
  }


  /** A new cell inserted into a list of distinct cells keeps them distinct. */
  lemma InsertAtDistinct(cells: seq<Ptr>, k: nat, x: Ptr)
    requires Distinct(cells) && x !in cells && k <= |cells|
    ensures Distinct(InsertAt(cells, k, x))
  {
    var cs := InsertAt(cells, k, x);
    forall i, j | 0 <= i < j < |cs|
      ensures cs[i] != cs[j]
    {
      if i != k && j != k {
        assert cs[i] == cells[if i < k then i else i - 1];
        assert cs[j] == cells[if j < k then j else j - 1];
      }
    }
  }

  /**
   When insertion keeps the data of every old node and gives the new node
   `d`, the items are the old items with `d` inserted at the same place.
   */
  lemma ItemsInsert<N, D>(heap: map<Ptr, N>, after: map<Ptr, N>, cells: seq<Ptr>, k: nat, x: Ptr, d: D, dataOf: N -> D)
    requires k <= |cells|
    requires forall i :: 0 <= i < |cells| ==> cells[i] in heap && cells[i] in after
    requires forall i :: 0 <= i < |cells| ==> dataOf(after[cells[i]]) == dataOf(heap[cells[i]])
    requires x in after && dataOf(after[x]) == d
    ensures Items(after, InsertAt(cells, k, x), dataOf) == InsertAt(Items(heap, cells, dataOf), k, d)
  {
  }

  /** Prepending to a list gives a list one longer with the item first. */
  lemma SListPrependCorrect<D>(heap: map<Ptr, SNode<D>>, list: Option<Ptr>, cells: seq<Ptr>, data: D, newCell: Ptr)
    requires IsSList(heap, list, cells) && newCell !in heap
    ensures var res := SListInsertAfter(heap, list, None, data, newCell);
      && IsSList(res.0, res.1, [newCell] + cells)
      && Items(res.0, [newCell] + cells, SData) == [data] + Items(heap, cells, SData)
  {
    var res := SListInsertAfter(heap, list, None, data, newCell);
    var cs := InsertAt(cells, 0, newCell);
    assert cs == [newCell] + cells;
    InsertAtDistinct(cells, 0, newCell);
    SPrependLinks(heap, list, cells, data, newCell);
    ItemsInsert(heap, res.0, cells, 0, newCell, data, SData);
  }

  lemma SPrependLinks<D>(heap: map<Ptr, SNode<D>>, list: Option<Ptr>, cells: seq<Ptr>, data: D, newCell: Ptr)
    requires IsSList(heap, list, cells) && newCell !in heap
    ensures var res := SListInsertAfter(heap, list, None, data, newCell);
      var cs := InsertAt(cells, 0, newCell);
      forall i :: 0 <= i < |cs| ==> cs[i] in res.0 && res.0[cs[i]].next == NextOf(cs, i)
  {
    var res := SListInsertAfter(heap, list, None, data, newCell);
    var cs := InsertAt(cells, 0, newCell);
    forall i | 0 <= i < |cs|
      ensures cs[i] in res.0 && res.0[cs[i]].next == NextOf(cs, i)
    {
      if i > 0 {
        assert cs[i] == cells[i - 1];
      }
    }
  }

  /**
   Inserting after the cell at position k: the new item sits right after
   it, the head and every other item keep their place and order, and the
   list grows by one.
   */
  lemma SListInsertAfterCorrect<D>(heap: map<Ptr, SNode<D>>, list: Option<Ptr>, cells: seq<Ptr>, k: nat,
                                   data: D, newCell: Ptr)
    requires IsSList(heap, list, cells) && newCell !in heap && k < |cells|
    ensures var res := SListInsertAfter(heap, list, Some(cells[k]), data, newCell);
      var cs := InsertAt(cells, k + 1, newCell);
      && res.1 == list
      && IsSList(res.0, res.1, cs)
      && Items(res.0, cs, SData) == InsertAt(Items(heap, cells, SData), k + 1, data)
  {
    var res := SListInsertAfter(heap, list, Some(cells[k]), data, newCell);
    InsertAtDistinct(cells, k + 1, newCell);
    SInsertAfterLinks(heap, list, cells, k, data, newCell);
    ItemsInsert(heap, res.0, cells, k + 1, newCell, data, SData);
  }

  lemma SInsertAfterLinks<D>(heap: map<Ptr, SNode<D>>, list: Option<Ptr>, cells: seq<Ptr>, k: nat,
                             data: D, newCell: Ptr)
    requires IsSList(heap, list, cells) && newCell !in heap && k < |cells|
    ensures var res := SListInsertAfter(heap, list, Some(cells[k]), data, newCell);
      var cs := InsertAt(cells, k + 1, newCell);
      forall i :: 0 <= i < |cs| ==> cs[i] in res.0 && res.0[cs[i]].next == NextOf(cs, i)
  {
    var res := SListInsertAfter(heap, list, Some(cells[k]), data, newCell);
    var cs := InsertAt(cells, k + 1, newCell);
    forall i | 0 <= i < |cs|
      ensures cs[i] in res.0 && res.0[cs[i]].next == NextOf(cs, i)
    {
      if i < k {
        assert cs[i] == cells[i] != cells[k];
      } else if i == k {
        assert res.0[cs[i]].next == Some(newCell);
      } else if i == k + 1 {
        assert res.0[newCell].next == NextOf(cells, k);
      } else {
        assert cs[i] == cells[i - 1] != cells[k];
      }
    }
  }

  lemma DListPrependCorrect<D>(heap: map<Ptr, DNode<D>>, list: Option<Ptr>, cells: seq<Ptr>, data: D, newCell: Ptr)
    requires IsDList(heap, list, cells) && newCell !in heap
    ensures var res := DListInsertAfter(heap, list, None, data, newCell);
      && IsDList(res.0, res.1, [newCell] + cells)
      && Items(res.0, [newCell] + cells, DData) == [data] + Items(heap, cells, DData)
  {
    var res := DListInsertAfter(heap, list, None, data, newCell);
    assert InsertAt(cells, 0, newCell) == [newCell] + cells;
    DPrependLinks(heap, list, cells, data, newCell);
    ItemsInsert(heap, res.0, cells, 0, newCell, data, DData);
  }

  lemma DPrependLinks<D>(heap: map<Ptr, DNode<D>>, list: Option<Ptr>, cells: seq<Ptr>, data: D, newCell: Ptr)
    requires IsDList(heap, list, cells) && newCell !in heap
    ensures var res := DListInsertAfter(heap, list, None, data, newCell);
      IsDList(res.0, res.1, InsertAt(cells, 0, newCell))
  {
    var res := DListInsertAfter(heap, list, None, data, newCell);
    var cs := InsertAt(cells, 0, newCell);
    InsertAtDistinct(cells, 0, newCell);
    forall i | 0 <= i < |cs|
      ensures cs[i] in res.0 && res.0[cs[i]].next == NextOf(cs, i)
    {
      if i > 1 {
        assert cs[i] == cells[i - 1] != cells[0];
      }
    }
    forall i | 0 <= i < |cs|
      ensures res.0[cs[i]].prev == PrevOf(cs, i)
    {
      if i > 1 {
        assert cs[i] == cells[i - 1] != cells[0];
      }
    }
  }

  /**
   Inserting after the cell at position k keeps the forward and backward
   links consistent, with the new item right after position k.
   */
  lemma DListInsertAfterCorrect<D>(heap: map<Ptr, DNode<D>>, list: Option<Ptr>, cells: seq<Ptr>, k: nat,
                                   data: D, newCell: Ptr)
    requires IsDList(heap, list, cells) && newCell !in heap && k < |cells|
    ensures var res := DListInsertAfter(heap, list, Some(cells[k]), data, newCell);
      var cs := InsertAt(cells, k + 1, newCell);
      && res.1 == list
      && IsDList(res.0, res.1, cs)
      && Items(res.0, cs, DData) == InsertAt(Items(heap, cells, DData), k + 1, data)
  {
    var res := DListInsertAfter(heap, list, Some(cells[k]), data, newCell);
    InsertAtDistinct(cells, k + 1, newCell);
    DInsertAfterNext(heap, list, cells, k, data, newCell);
    DInsertAfterPrev(heap, list, cells, k, data, newCell);
    ItemsInsert(heap, res.0, cells, k + 1, newCell, data, DData);
  }

  /** The three nodes insertion touches, and every other node unchanged. */
  lemma DInsertAfterHeap<D>(heap: map<Ptr, DNode<D>>, list: Option<Ptr>, cells: seq<Ptr>, k: nat,
                            data: D, newCell: Ptr)
    requires IsDList(heap, list, cells) && newCell !in heap && k < |cells|
    ensures var res := DListInsertAfter(heap, list, Some(cells[k]), data, newCell);
      && res.0[newCell] == DNode(data, Some(cells[k]), NextOf(cells, k))
      && res.0[cells[k]] == heap[cells[k]].(next := Some(newCell))
      && (k + 1 < |cells| ==> res.0[cells[k + 1]] == heap[cells[k + 1]].(prev := Some(newCell)))
      && (forall i :: 0 <= i < |cells| && i != k && i != k + 1 ==> res.0[cells[i]] == heap[cells[i]])
  {
    var res := DListInsertAfter(heap, list, Some(cells[k]), data, newCell);
    assert heap[cells[k]].next == NextOf(cells, k);
    assert k + 1 < |cells| ==> cells[k + 1] != cells[k];
    forall i | 0 <= i < |cells| && i != k && i != k + 1
      ensures res.0[cells[i]] == heap[cells[i]]
    {
      assert cells[i] != cells[k];
      assert k + 1 < |cells| ==> cells[i] != cells[k + 1];
    }
  }

  lemma DInsertAfterNext<D>(heap: map<Ptr, DNode<D>>, list: Option<Ptr>, cells: seq<Ptr>, k: nat,
                            data: D, newCell: Ptr)
    requires IsDList(heap, list, cells) && newCell !in heap && k < |cells|
    ensures var res := DListInsertAfter(heap, list, Some(cells[k]), data, newCell);
      var cs := InsertAt(cells, k + 1, newCell);
      forall i :: 0 <= i < |cs| ==> cs[i] in res.0 && res.0[cs[i]].next == NextOf(cs, i)
  {
    var res := DListInsertAfter(heap, list, Some(cells[k]), data, newCell);
    var cs := InsertAt(cells, k + 1, newCell);
    DInsertAfterHeap(heap, list, cells, k, data, newCell);
    forall i | 0 <= i < |cs|
      ensures cs[i] in res.0 && res.0[cs[i]].next == NextOf(cs, i)
    {
      if i < k {
        assert cs[i] == cells[i];
      } else if i == k {
        assert cs[i] == cells[k];
      } else if i == k + 1 {
        assert cs[i] == newCell;
      } else {
        assert cs[i] == cells[i - 1];
      }
    }
  }

  lemma DInsertAfterPrev<D>(heap: map<Ptr, DNode<D>>, list: Option<Ptr>, cells: seq<Ptr>, k: nat,
                            data: D, newCell: Ptr)
    requires IsDList(heap, list, cells) && newCell !in heap && k < |cells|
    ensures var res := DListInsertAfter(heap, list, Some(cells[k]), data, newCell);
      var cs := InsertAt(cells, k + 1, newCell);
      forall i :: 0 <= i < |cs| ==> cs[i] in res.0 && res.0[cs[i]].prev == PrevOf(cs, i)
  {
    var res := DListInsertAfter(heap, list, Some(cells[k]), data, newCell);
    var cs := InsertAt(cells, k + 1, newCell);
    DInsertAfterHeap(heap, list, cells, k, data, newCell);
    forall i | 0 <= i < |cs|
      ensures cs[i] in res.0 && res.0[cs[i]].prev == PrevOf(cs, i)
    {
      if i < k {
        assert cs[i] == cells[i];
      } else if i == k {
        assert cs[i] == cells[k];
      } else if i == k + 1 {
        assert cs[i] == newCell;
      } else {
        assert cs[i] == cells[i - 1];
      }
    }
  }
}
