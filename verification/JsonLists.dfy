/** Editing the child list of an array or object: append, insert, detach, replace. */
module JsonLists {
  import opened JsonHeap
  import opened JsonBuild

  // ---- the list as its links spell it ----

  function NextOf(ps: seq<Ptr>, i: nat): Ptr { if i + 1 < |ps| then ps[i + 1] else NIL }

  function PrevOf(ps: seq<Ptr>, i: nat): Ptr
    requires i < |ps|
  {
    if i > 0 then ps[i - 1] else ps[|ps| - 1]
  }

  function First(ps: seq<Ptr>): Ptr { if ps == [] then NIL else ps[0] }

  /** The i-th item is live and its two links are right. */
  predicate LinkAt(n: Nodes, ps: seq<Ptr>, i: nat)
    requires i < |ps|
  {
    ps[i] in n && n[ps[i]].next == NextOf(ps, i) && n[ps[i]].prev == PrevOf(ps, i)
  }

  predicate Differ(ps: seq<Ptr>, i: nat, j: nat)
    requires i < j < |ps|
  {
    ps[i] != ps[j]
  }

  /**
   * The children of `parent` are `ps`, in order: inner links are mutual, the last `next` is NULL,
   * and the first `prev` is the last item.
   */
  ghost predicate Linked(n: Nodes, parent: Ptr, ps: seq<Ptr>) {
    && NIL !in n && parent in n && parent !in ps && n[parent].child == First(ps)
    && (forall i :: 0 <= i < |ps| ==> LinkAt(n, ps, i))
    && (forall i, j :: 0 <= i < j < |ps| ==> Differ(ps, i, j))
  }

  /** Only these fields changed: `next` of the items in `nx`, `prev` of those in `pv`, `child` of the parent. */
  ghost predicate OnlyLinks(n: Nodes, n': Nodes, parent: Ptr, nx: set<Ptr>, pv: set<Ptr>) {
    && n'.Keys == n.Keys
    && forall q :: q in n ==> LinksDiffer(n[q], n'[q], q in nx, q in pv, q == parent)
  }

  predicate LinksDiffer(x: Node, y: Node, next: bool, prev: bool, child: bool) {
    && y == x.(next := y.next, prev := y.prev, child := y.child)
    && (next || y.next == x.next) && (prev || y.prev == x.prev) && (child || y.child == x.child)
  }

  lemma NothingChanged(n: Nodes, parent: Ptr, nx: set<Ptr>, pv: set<Ptr>)
    ensures OnlyLinks(n, n, parent, nx, pv)
  {
  }

  // ---- `p->next = q`, `p->prev = q`, `p->child = q` ----

  method SetNext(heap: Heap, p: Ptr, q: Ptr, ghost n: Nodes, ghost parent: Ptr, ghost nx: set<Ptr>, ghost pv: set<Ptr>)
    requires p in heap.nodes && OnlyLinks(n, heap.nodes, parent, nx, pv) && p in nx
    modifies heap`nodes
    ensures heap.nodes == old(heap.nodes)[p := old(heap.nodes[p]).(next := q)]
    ensures OnlyLinks(n, heap.nodes, parent, nx, pv)
  {
    heap.nodes := heap.nodes[p := heap.nodes[p].(next := q)];
  }

  method SetPrev(heap: Heap, p: Ptr, q: Ptr, ghost n: Nodes, ghost parent: Ptr, ghost nx: set<Ptr>, ghost pv: set<Ptr>)
    requires p in heap.nodes && OnlyLinks(n, heap.nodes, parent, nx, pv) && p in pv
    modifies heap`nodes
    ensures heap.nodes == old(heap.nodes)[p := old(heap.nodes[p]).(prev := q)]
    ensures OnlyLinks(n, heap.nodes, parent, nx, pv)
  {
    heap.nodes := heap.nodes[p := heap.nodes[p].(prev := q)];
  }

  method SetChild(heap: Heap, p: Ptr, q: Ptr, ghost n: Nodes, ghost nx: set<Ptr>, ghost pv: set<Ptr>)
    requires p in heap.nodes && OnlyLinks(n, heap.nodes, p, nx, pv)
    modifies heap`nodes
    ensures heap.nodes == old(heap.nodes)[p := old(heap.nodes[p]).(child := q)]
    ensures OnlyLinks(n, heap.nodes, p, nx, pv)
  {
    heap.nodes := heap.nodes[p := heap.nodes[p].(child := q)];
  }

  /** The item points nowhere any more. */
  method Isolate(heap: Heap, p: Ptr, ghost n: Nodes, ghost parent: Ptr, ghost nx: set<Ptr>, ghost pv: set<Ptr>)
    requires p in heap.nodes && OnlyLinks(n, heap.nodes, parent, nx, pv) && p in nx && p in pv
    modifies heap`nodes
    ensures heap.nodes == old(heap.nodes)[p := old(heap.nodes[p]).(next := NIL, prev := NIL)]
    ensures OnlyLinks(n, heap.nodes, parent, nx, pv)
  {
    SetNext(heap, p, NIL, n, parent, nx, pv);
    SetPrev(heap, p, NIL, n, parent, nx, pv);
  }

  // ---- reading the links ----

  lemma ItemAt(n: Nodes, parent: Ptr, ps: seq<Ptr>, k: nat)
    requires Linked(n, parent, ps) && k < |ps|
    ensures ps[k] in n && ps[k] != NIL && ps[k] != parent && n[ps[k]].next == NextOf(ps, k) &&
      n[ps[k]].prev == PrevOf(ps, k)
  {
    assert LinkAt(n, ps, k) && ps[k] in ps;
  }

  lemma Distinct(n: Nodes, parent: Ptr, ps: seq<Ptr>, i: nat, j: nat)
    requires Linked(n, parent, ps) && i < |ps| && j < |ps|
    ensures ps[i] == ps[j] ==> i == j
  {
    if i < j { assert Differ(ps, i, j); } else if j < i { assert Differ(ps, j, i); }
  }

  /** The parent, the k-th item and the items next to it. */
  lemma Around(n: Nodes, parent: Ptr, ps: seq<Ptr>, k: nat)
    requires Linked(n, parent, ps) && k < |ps|
    ensures NIL !in n && parent in n && n[parent].child == ps[0] && ps[k] in n && ps[k] != NIL && ps[k] != parent
    ensures ps[0] in n && ps[0] != NIL && ps[0] != parent && (k > 0 ==> ps[0] != ps[k])
    ensures n[ps[k]].next == NextOf(ps, k) && n[ps[k]].prev == PrevOf(ps, k)
    ensures PrevOf(ps, k) in n && PrevOf(ps, k) != NIL && PrevOf(ps, k) != parent &&
      (|ps| > 1 ==> PrevOf(ps, k) != ps[k])
    ensures n[PrevOf(ps, k)].next == (if k > 0 then ps[k] else NIL)
    ensures k + 1 < |ps| ==>
      ps[k + 1] in n && ps[k + 1] != NIL && ps[k + 1] != parent && ps[k + 1] != ps[k] && ps[k + 1] != ps[0]
    ensures k > 0 && k + 1 < |ps| ==> ps[k + 1] != ps[k - 1]
  {
    ItemAt(n, parent, ps, 0);
    ItemAt(n, parent, ps, k);
    ItemAt(n, parent, ps, if k > 0 then k - 1 else |ps| - 1);
    Distinct(n, parent, ps, 0, k);
    Distinct(n, parent, ps, if k > 0 then k - 1 else |ps| - 1, k);
    if k + 1 < |ps| {
      ItemAt(n, parent, ps, k + 1);
      Distinct(n, parent, ps, k + 1, k);
      Distinct(n, parent, ps, k + 1, 0);
      if k > 0 { Distinct(n, parent, ps, k + 1, k - 1); }
    }
  }

  lemma EmptyParent(n: Nodes, parent: Ptr, ps: seq<Ptr>)
    requires Linked(n, parent, ps)
    ensures NIL !in n && parent in n && (n[parent].child == NIL <==> ps == [])
  {
    if ps != [] { ItemAt(n, parent, ps, 0); }
  }

  /** `get_array_item`. */
  method GetArrayItem(heap: Heap, parent: Ptr, index: nat, ghost ps: seq<Ptr>) returns (item: Ptr)
    requires parent != NIL ==> Linked(heap.nodes, parent, ps)
    ensures item == (if parent != NIL && index < |ps| then ps[index] else NIL)
    ensures item != NIL ==> index < |ps|
  {
    if parent == NIL { return NIL; }
    item := heap.nodes[parent].child;
    var left := index;
    ghost var i := 0;
    while item != NIL && left > 0
      invariant 0 <= i <= |ps| && item == (if i < |ps| then ps[i] else NIL) && i + left == index
      decreases left
    {
      ItemAt(heap.nodes, parent, ps, i);
      left := left - 1;
      item := heap.nodes[item].next;
      i := i + 1;
    }
    if i < |ps| { ItemAt(heap.nodes, parent, ps, i); }
  }

  // ---- append ----

  /** `add_item_to_array`: append, in constant time through the first child's `prev`. */
  method AddItemToArray(heap: Heap, parent: Ptr, item: Ptr, ghost ps: seq<Ptr>) returns (ok: bool)
    requires parent != NIL && item != NIL && item != parent ==>
      Linked(heap.nodes, parent, ps) && item in heap.nodes && item !in ps && heap.nodes[item].next == NIL
    modifies heap`nodes
    ensures ok == (parent != NIL && item != NIL && item != parent)
    ensures !ok ==> heap.nodes == old(heap.nodes)
    ensures ok ==> Linked(heap.nodes, parent, ps + [item])
    ensures ok ==> OnlyLinks(old(heap.nodes), heap.nodes, parent, Set(ps + [item]), Set(ps + [item]))
  {
    hide Linked, OnlyLinks;
    if item == NIL || parent == NIL || parent == item { return false; }
    ghost var n := heap.nodes;
    ghost var last0 := if ps == [] then item else ps[|ps| - 1];
    ghost var first0 := if ps == [] then item else ps[0];
    ghost var nx, pv := {last0, item}, {first0, item};
    NothingChanged(n, parent, nx, pv);
    EmptyParent(n, parent, ps);
    if ps != [] { Around(n, parent, ps, 0); }
    assert ps != [] ==> ps[0] in ps && ps[|ps| - 1] in ps;
    var child := heap.nodes[parent].child;
    if child == NIL {
      SetChild(heap, parent, item, n, nx, pv);
      SetPrev(heap, item, item, n, parent, nx, pv);
      SetNext(heap, item, NIL, n, parent, nx, pv);
    } else {
      var last := heap.nodes[child].prev;
      if last != NIL {
        SetNext(heap, last, item, n, parent, nx, pv);
        SetPrev(heap, item, last, n, parent, nx, pv);
        SetPrev(heap, child, item, n, parent, nx, pv);
      }
    }
    AppendSpells(n, heap.nodes, parent, ps, item);
    OnlyLinksWiden(n, heap.nodes, parent, nx, pv, Set(ps + [item]));
    ok := true;
  }

  function Set(ps: seq<Ptr>): set<Ptr> { set q | q in ps }

  lemma OnlyLinksWiden(n: Nodes, n': Nodes, parent: Ptr, nx: set<Ptr>, pv: set<Ptr>, all: set<Ptr>)
    requires OnlyLinks(n, n', parent, nx, pv) && nx <= all && pv <= all
    ensures OnlyLinks(n, n', parent, all, all)
  {
  }

  lemma AppendSpells(n: Nodes, n': Nodes, parent: Ptr, ps: seq<Ptr>, item: Ptr)
    requires Linked(n, parent, ps) && item in n && item !in ps && item != parent
    requires OnlyLinks(n, n', parent, {if ps == [] then item else ps[|ps| - 1], item},
      {if ps == [] then item else ps[0], item})
    requires parent in n' && n'[parent].child == (if ps == [] then item else ps[0])
    requires item in n' && n'[item].next == NIL && n'[item].prev == (if ps == [] then item else ps[|ps| - 1])
    requires ps != [] ==> ps[0] in n' && n'[ps[0]].prev == item && ps[|ps| - 1] in n' && n'[ps[|ps| - 1]].next == item
    ensures Linked(n', parent, ps + [item])
  {
    var all := ps + [item];
    forall i | 0 <= i < |all| ensures LinkAt(n', all, i) {
      if i < |ps| {
        ItemAt(n, parent, ps, i);
        Distinct(n, parent, ps, i, 0);
        Distinct(n, parent, ps, i, |ps| - 1);
        assert ps[i] in ps;
      }
    }
    forall i, j | 0 <= i < j < |all| ensures Differ(all, i, j) {
      if j < |ps| { assert Differ(ps, i, j); }
    }
  }

  // ---- insert ----

  /** `cJSON_InsertItemInArray`: in front of the item at `which`, or behind the last one. */
  method InsertItemInArray(heap: Heap, parent: Ptr, which: int, item: Ptr, ghost ps: seq<Ptr>) returns (ok: bool)
    requires parent != NIL ==> Linked(heap.nodes, parent, ps) && item != parent
    requires parent != NIL && item != NIL ==> item in heap.nodes && item !in ps && heap.nodes[item].next == NIL
    modifies heap`nodes
    ensures ok == (which >= 0 && item != NIL && parent != NIL)
    ensures !ok ==> heap.nodes == old(heap.nodes)
    ensures ok ==> var k := if which < |ps| then which else |ps|;
      && Linked(heap.nodes, parent, ps[..k] + [item] + ps[k..])
      && OnlyLinks(old(heap.nodes), heap.nodes, parent, Set(ps + [item]), Set(ps + [item]))
  {
    hide OnlyLinks, Linked;
    if which < 0 || item == NIL { return false; }
    var after := GetArrayItem(heap, parent, which, ps);
    if after == NIL {
      if parent != NIL && which < |ps| { ItemAt(heap.nodes, parent, ps, which); }
      assert parent != NIL ==> which >= |ps| && ps[..|ps|] + [item] + ps[|ps|..] == ps + [item];
      ok := AddItemToArray(heap, parent, item, ps);
      return;
    }
    Around(heap.nodes, parent, ps, which);
    if after != heap.nodes[parent].child && heap.nodes[after].prev == NIL {
      assert false;
      return false;
    }
    InsertBefore(heap, parent, after, item, ps, which);
    ok := true;
  }

  /** The relinking of `cJSON_InsertItemInArray`. */
  method InsertBefore(heap: Heap, parent: Ptr, after: Ptr, item: Ptr, ghost ps: seq<Ptr>, ghost k: nat)
    requires Linked(heap.nodes, parent, ps) && k < |ps| && after == ps[k]
    requires item in heap.nodes && item !in ps && item != parent
    modifies heap`nodes
    ensures Linked(heap.nodes, parent, ps[..k] + [item] + ps[k..])
    ensures OnlyLinks(old(heap.nodes), heap.nodes, parent, Set(ps + [item]), Set(ps + [item]))
  {
    hide Linked, OnlyLinks;
    ghost var n := heap.nodes;
    ghost var nx, pv := {item, PrevOf(ps, k)}, {item, after};
    NothingChanged(n, parent, nx, pv);
    Around(n, parent, ps, k);
    assert ps[k] in ps && PrevOf(ps, k) in ps;
    SetNext(heap, item, after, n, parent, nx, pv);
    SetPrev(heap, item, heap.nodes[after].prev, n, parent, nx, pv);
    SetPrev(heap, after, item, n, parent, nx, pv);
    if after == heap.nodes[parent].child {
      SetChild(heap, parent, item, n, nx, pv);
    } else {
      SetNext(heap, heap.nodes[item].prev, item, n, parent, nx, pv);
    }
    InsertSpells(n, heap.nodes, parent, ps, k, item);
    OnlyLinksWiden(n, heap.nodes, parent, nx, pv, Set(ps + [item]));
  }

  lemma InsertSpells(n: Nodes, n': Nodes, parent: Ptr, ps: seq<Ptr>, k: nat, item: Ptr)
    requires Linked(n, parent, ps) && k < |ps| && item in n && item !in ps && item != parent
    requires OnlyLinks(n, n', parent, {item, PrevOf(ps, k)}, {item, ps[k]})
    requires item in n' && n'[item].next == ps[k] && n'[item].prev == PrevOf(ps, k)
    requires ps[k] in n' && n'[ps[k]].prev == item
    requires parent in n' && n'[parent].child == (if k == 0 then item else n[parent].child)
    requires PrevOf(ps, k) in n' && n'[PrevOf(ps, k)].next == (if k > 0 then item else NIL)
    ensures Linked(n', parent, ps[..k] + [item] + ps[k..])
  {
    var all := ps[..k] + [item] + ps[k..];
    forall i | 0 <= i < |all| ensures LinkAt(n', all, i) {
      if i != k {
        var j := if i < k then i else i - 1;
        assert all[i] == ps[j] && ps[j] in ps;
        ItemAt(n, parent, ps, j);
        Distinct(n, parent, ps, j, k);
        Distinct(n, parent, ps, j, if k > 0 then k - 1 else |ps| - 1);
      }
    }
    forall i, j | 0 <= i < j < |all| ensures Differ(all, i, j) {
      if i != k && j != k { assert Differ(ps, if i < k then i else i - 1, if j < k then j else j - 1); }
    }
  }

  // ---- detach ----

  /** `cJSON_DetachItemViaPointer`: unlink one item; it points nowhere afterwards. */
  method DetachItemViaPointer(heap: Heap, parent: Ptr, item: Ptr, ghost ps: seq<Ptr>, ghost k: nat) returns (r: Ptr)
    requires parent != NIL && item != NIL ==> Linked(heap.nodes, parent, ps) && k < |ps| && item == ps[k]
    modifies heap`nodes
    ensures r == (if parent != NIL then item else NIL)
    ensures r == NIL ==> heap.nodes == old(heap.nodes)
    ensures r != NIL ==> Linked(heap.nodes, parent, ps[..k] + ps[k + 1..])
    ensures r != NIL ==> OnlyLinks(old(heap.nodes), heap.nodes, parent, Set(ps), Set(ps))
    ensures r != NIL ==> r in heap.nodes && heap.nodes[r].next == NIL && heap.nodes[r].prev == NIL
  {
    hide Linked, OnlyLinks;
    if parent == NIL || item == NIL { return NIL; }
    ghost var n := heap.nodes;
    ghost var nx, pv := {item, PrevOf(ps, k)}, {item, if k + 1 < |ps| then ps[k + 1] else ps[0]};
    NothingChanged(n, parent, nx, pv);
    Around(n, parent, ps, k);
    assert ps[k] in ps && PrevOf(ps, k) in ps && ps[0] in ps && (k + 1 < |ps| ==> ps[k + 1] in ps);
    if item != heap.nodes[parent].child && heap.nodes[item].prev == NIL {
      assert false;
      return NIL;
    }
    Bypass(heap, parent, item, ps, k, nx, pv);
    if item == heap.nodes[parent].child {
      SetChild(heap, parent, heap.nodes[item].next, n, nx, pv);
    } else if heap.nodes[item].next == NIL {
      SetPrev(heap, heap.nodes[parent].child, heap.nodes[item].prev, n, parent, nx, pv);
    }
    Isolate(heap, item, n, parent, nx, pv);
    DetachSpells(n, heap.nodes, parent, ps, k);
    OnlyLinksWiden(n, heap.nodes, parent, nx, pv, Set(ps));
    r := item;
  }

  /** The neighbours of the detached item link to each other. */
  method Bypass(heap: Heap, parent: Ptr, item: Ptr, ghost ps: seq<Ptr>, ghost k: nat, ghost nx: set<Ptr>,
                ghost pv: set<Ptr>)
    requires Linked(heap.nodes, parent, ps) && k < |ps| && item == ps[k]
    requires nx == {item, PrevOf(ps, k)} && pv == {item, if k + 1 < |ps| then ps[k + 1] else ps[0]}
    modifies heap`nodes
    ensures OnlyLinks(old(heap.nodes), heap.nodes, parent, nx, pv) && heap.nodes.Keys == old(heap.nodes).Keys
    ensures parent in heap.nodes && heap.nodes[parent] == old(heap.nodes[parent])
    ensures item in heap.nodes && heap.nodes[item] == old(heap.nodes[item])
    ensures |ps| > 1 ==>
      PrevOf(ps, k) in heap.nodes && heap.nodes[PrevOf(ps, k)].next == (if k > 0 then NextOf(ps, k) else NIL)
    ensures k + 1 < |ps| ==> ps[k + 1] in heap.nodes && heap.nodes[ps[k + 1]].prev == PrevOf(ps, k)
  {
    hide Linked, OnlyLinks;
    ghost var n := heap.nodes;
    NothingChanged(n, parent, nx, pv);
    Around(n, parent, ps, k);
    if item != heap.nodes[parent].child {
      SetNext(heap, heap.nodes[item].prev, heap.nodes[item].next, n, parent, nx, pv);
    }
    if heap.nodes[item].next != NIL {
      SetPrev(heap, heap.nodes[item].next, heap.nodes[item].prev, n, parent, nx, pv);
    }
  }

  lemma DetachSpells(n: Nodes, n': Nodes, parent: Ptr, ps: seq<Ptr>, k: nat)
    requires Linked(n, parent, ps) && k < |ps|
    requires OnlyLinks(n, n', parent, {ps[k], PrevOf(ps, k)}, {ps[k], if k + 1 < |ps| then ps[k + 1] else ps[0]})
    requires parent in n' && n'[parent].child == (if k > 0 then ps[0] else NextOf(ps, 0))
    requires k > 0 ==> ps[k - 1] in n' && n'[ps[k - 1]].next == NextOf(ps, k)
    requires k == 0 && |ps| > 1 ==> ps[|ps| - 1] in n' && n'[ps[|ps| - 1]].next == NIL
    requires k + 1 < |ps| ==> ps[k + 1] in n' && n'[ps[k + 1]].prev == PrevOf(ps, k)
    requires k > 0 && k + 1 == |ps| ==> ps[0] in n' && n'[ps[0]].prev == ps[k - 1]
    ensures Linked(n', parent, ps[..k] + ps[k + 1..])
  {
    var all := ps[..k] + ps[k + 1..];
    forall i | 0 <= i < |all| ensures LinkAt(n', all, i) {
      var j := if i < k then i else i + 1;
      assert all[i] == ps[j];
      ItemAt(n, parent, ps, j);
      Distinct(n, parent, ps, j, k);
      Distinct(n, parent, ps, j, if k > 0 then k - 1 else |ps| - 1);
      Distinct(n, parent, ps, j, if k + 1 < |ps| then k + 1 else 0);
    }
    forall i, j | 0 <= i < j < |all| ensures Differ(all, i, j) {
      assert Differ(ps, if i < k then i else i + 1, if j < k then j else j + 1);
    }
    forall i | 0 <= i < |all| ensures all[i] != parent {
      ItemAt(n, parent, ps, if i < k then i else i + 1);
    }
  }

  // ---- replace ----

  /** The relinking of `cJSON_ReplaceItemViaPointer`: `replacement` takes the place of `item`. */
  method Exchange(heap: Heap, parent: Ptr, item: Ptr, replacement: Ptr, ghost ps: seq<Ptr>, ghost k: nat)
    requires Linked(heap.nodes, parent, ps) && k < |ps| && item == ps[k]
    requires replacement in heap.nodes && replacement !in ps && replacement != parent
    modifies heap`nodes
    ensures Linked(heap.nodes, parent, ps[k := replacement])
    ensures OnlyLinks(old(heap.nodes), heap.nodes, parent, Set(ps + [replacement]), Set(ps + [replacement]))
    ensures item in heap.nodes && heap.nodes[item].next == NIL && heap.nodes[item].prev == NIL
  {
    hide Linked, OnlyLinks;
    ghost var n := heap.nodes;
    ghost var nx, pv := {item, replacement, PrevOf(ps, k)},
      {item, replacement, if k + 1 < |ps| then ps[k + 1] else ps[0]};
    NothingChanged(n, parent, nx, pv);
    Around(n, parent, ps, k);
    assert ps[k] in ps && PrevOf(ps, k) in ps && ps[0] in ps && (k + 1 < |ps| ==> ps[k + 1] in ps);
    TakeLinks(heap, parent, item, replacement, ps, k, nx, pv);
    if heap.nodes[parent].child == item {
      if heap.nodes[item].prev == item {
        SetPrev(heap, replacement, replacement, n, parent, nx, pv);
      }
      SetChild(heap, parent, replacement, n, nx, pv);
    } else {
      if heap.nodes[replacement].prev != NIL {
        SetNext(heap, heap.nodes[replacement].prev, replacement, n, parent, nx, pv);
      }
      if heap.nodes[replacement].next == NIL {
        SetPrev(heap, heap.nodes[parent].child, replacement, n, parent, nx, pv);
      }
    }
    Isolate(heap, item, n, parent, nx, pv);
    ExchangeSpells(n, heap.nodes, parent, ps, k, replacement);
    OnlyLinksWiden(n, heap.nodes, parent, nx, pv, Set(ps + [replacement]));
  }

  /** The replacement takes over both links, and the next item points back at it. */
  method TakeLinks(heap: Heap, parent: Ptr, item: Ptr, replacement: Ptr, ghost ps: seq<Ptr>, ghost k: nat,
                   ghost nx: set<Ptr>, ghost pv: set<Ptr>)
    requires Linked(heap.nodes, parent, ps) && k < |ps| && item == ps[k]
    requires replacement in heap.nodes && replacement !in ps && replacement != parent
    requires replacement in nx && replacement in pv && (if k + 1 < |ps| then ps[k + 1] else ps[0]) in pv
    modifies heap`nodes
    ensures OnlyLinks(old(heap.nodes), heap.nodes, parent, nx, pv) && heap.nodes.Keys == old(heap.nodes).Keys
    ensures replacement in heap.nodes
    ensures heap.nodes[replacement].next == NextOf(ps, k) && heap.nodes[replacement].prev == PrevOf(ps, k)
    ensures parent in heap.nodes && heap.nodes[parent] == old(heap.nodes[parent])
    ensures item in heap.nodes && heap.nodes[item] == old(heap.nodes[item])
    ensures PrevOf(ps, k) in heap.nodes && heap.nodes[PrevOf(ps, k)].next == (if k > 0 then item else NIL)
    ensures k + 1 < |ps| ==> ps[k + 1] in heap.nodes && heap.nodes[ps[k + 1]].prev == replacement
  {
    hide Linked, OnlyLinks;
    ghost var n := heap.nodes;
    NothingChanged(n, parent, nx, pv);
    Around(n, parent, ps, k);
    assert ps[k] in ps && PrevOf(ps, k) in ps && (k + 1 < |ps| ==> ps[k + 1] in ps);
    SetNext(heap, replacement, heap.nodes[item].next, n, parent, nx, pv);
    SetPrev(heap, replacement, heap.nodes[item].prev, n, parent, nx, pv);
    if heap.nodes[replacement].next != NIL {
      SetPrev(heap, heap.nodes[replacement].next, replacement, n, parent, nx, pv);
    }
  }

  lemma ExchangeSpells(n: Nodes, n': Nodes, parent: Ptr, ps: seq<Ptr>, k: nat, item: Ptr)
    requires Linked(n, parent, ps) && k < |ps| && item in n && item !in ps && item != parent
    requires OnlyLinks(n, n', parent, {ps[k], item, PrevOf(ps, k)},
      {ps[k], item, if k + 1 < |ps| then ps[k + 1] else ps[0]})
    requires parent in n' && n'[parent].child == (if k > 0 then ps[0] else item)
    requires item in n' && n'[item].next == NextOf(ps, k)
    requires n'[item].prev == (if |ps| == 1 then item else PrevOf(ps, k))
    requires k > 0 ==> ps[k - 1] in n' && n'[ps[k - 1]].next == item
    requires k == 0 && |ps| > 1 ==> ps[|ps| - 1] in n' && n'[ps[|ps| - 1]].next == NIL
    requires k + 1 < |ps| ==> ps[k + 1] in n' && n'[ps[k + 1]].prev == item
    requires k > 0 && k + 1 == |ps| ==> ps[0] in n' && n'[ps[0]].prev == item
    ensures Linked(n', parent, ps[k := item])
  {
    var all := ps[k := item];
    forall i | 0 <= i < |all| ensures LinkAt(n', all, i) {
      if i != k {
        assert ps[i] in ps;
        ItemAt(n, parent, ps, i);
        Distinct(n, parent, ps, i, k);
        Distinct(n, parent, ps, i, if k > 0 then k - 1 else |ps| - 1);
        Distinct(n, parent, ps, i, if k + 1 < |ps| then k + 1 else 0);
      }
    }
    forall i, j | 0 <= i < j < |all| ensures Differ(all, i, j) {
      if i != k && j != k { assert Differ(ps, i, j); }
      assert ps[i] in ps && ps[j] in ps;
    }
    forall i | 0 <= i < |all| ensures all[i] != parent {
      ItemAt(n, parent, ps, i);
    }
  }

  // ---- what the children own ----

  function Ptrs(kids: seq<Shape>): seq<Ptr> { seq(|kids|, i requires 0 <= i < |kids| => kids[i].p) }

  lemma ForeignPtr(kids: seq<Shape>, i: nat, q: Ptr)
    requires Disjoint(kids) && i < |kids| && q in Fp(kids[i]) && q != kids[i].p
    ensures q !in Ptrs(kids)
  {
    hide Fp;
    forall j | 0 <= j < |kids| ensures Ptrs(kids)[j] != q {
      if j != i { NotAmongOthers(kids, j, i); }
    }
  }

  lemma OwnedAfter(n: Nodes, b: Blocks, n': Nodes, parent: Ptr, kids: seq<Shape>, near: set<Ptr>, i: nat)
    requires Disjunct(n, b) && i < |kids| && Owns(n, b, kids[i]) && Disjoint(kids) && parent !in FpList(kids)
    requires OnlyLinks(n, n', parent, near, near)
    requires forall q :: q in near ==> q in Ptrs(kids) || q !in FpList(kids)
    ensures Owns(n', b, kids[i]) && kids[i].p in n && kids[i].p in n' && SameBody(n'[kids[i].p], n[kids[i].p])
    ensures Kept(n, b, n', b, Fp(kids[i]) - {kids[i].p})
  {
    hide FpList, Fp;
    var k := kids[i];
    InList(kids, i, k.p);
    forall q | q in Fp(k) - {k.p} && q in n ensures q in n' && n'[q] == n[q] {
      InList(kids, i, q);
      ForeignPtr(kids, i, q);
    }
    OwnsKept(n, b, n', b, k);
  }

  /** A relinked list of owned, disjoint items is an owned list and a ring: deleting and printing it work as before. */
  lemma RelinkedIsOwned(n: Nodes, b: Blocks, n': Nodes, parent: Ptr, kids: seq<Shape>, near: set<Ptr>)
    requires Disjunct(n, b) && (forall i :: 0 <= i < |kids| ==> Owns(n, b, kids[i])) && Disjoint(kids)
    requires parent !in FpList(kids) && OnlyLinks(n, n', parent, near, near) && Linked(n', parent, Ptrs(kids))
    requires forall q :: q in near ==> q in Ptrs(kids) || q !in FpList(kids)
    ensures OwnsList(n', b, kids) && Ring(n', kids) && KidsKept(n, b, n', b, kids) && Disjunct(n', b)
    ensures n'[parent].child == Head(kids)
  {
    hide Owns, Fp, FpList, OnlyLinks, Linked, Kept, Ptrs;
    KeysSame(n, n', parent, near);
    forall i | 0 <= i < |kids|
      ensures Owns(n', b, kids[i]) && kids[i].p in n && kids[i].p in n' && kids[i].p != NIL
      ensures SameBody(n'[kids[i].p], n[kids[i].p]) && Kept(n, b, n', b, Fp(kids[i]) - {kids[i].p})
      ensures n'[kids[i].p].next == After(kids, i) && n'[kids[i].p].prev == Before(kids, i)
    {
      assert Owns(n, b, kids[i]);
      OwnedAfter(n, b, n', parent, kids, near, i);
      KidLinks(n', parent, kids, i);
    }
    FirstKid(n', parent, kids);
  }

  lemma KidLinks(n: Nodes, parent: Ptr, kids: seq<Shape>, i: nat)
    requires Linked(n, parent, Ptrs(kids)) && i < |kids|
    ensures kids[i].p in n && kids[i].p != NIL && n[kids[i].p].next == After(kids, i) &&
      n[kids[i].p].prev == Before(kids, i)
  {
    ItemAt(n, parent, Ptrs(kids), i);
  }

  lemma FirstKid(n: Nodes, parent: Ptr, kids: seq<Shape>)
    requires Linked(n, parent, Ptrs(kids))
    ensures parent in n && n[parent].child == Head(kids)
  {
    if kids == [] { assert Ptrs(kids) == []; }
  }

  lemma KeysSame(n: Nodes, n': Nodes, parent: Ptr, near: set<Ptr>)
    requires OnlyLinks(n, n', parent, near, near)
    ensures n'.Keys == n.Keys
  {
  }

  /**
   * `cJSON_ReplaceItemViaPointer`: the replacement takes the item's place, and exactly the item and
   * what it owned are freed.
   */
  method ReplaceItemViaPointer(heap: Heap, parent: Ptr, item: Ptr, replacement: Ptr, ghost ps: seq<Ptr>, ghost k: nat,
                               ghost s: Shape)
    returns (ok: bool)
    requires heap.Valid()
    requires parent != NIL ==> Linked(heap.nodes, parent, ps)
    requires parent != NIL && item != NIL ==>
      k < |ps| && item == ps[k] && s.p == item && Owns(heap.nodes, heap.blocks, s)
    requires parent != NIL && item != NIL ==> Fp(s) !! Set(ps) - {item} && parent !in Fp(s)
    requires parent != NIL && item != NIL && replacement != NIL && replacement != item ==>
      replacement in heap.nodes && replacement !in ps && replacement != parent && replacement !in Fp(s)
    modifies heap`nodes, heap`blocks
    ensures heap.Valid()
    ensures ok == (parent != NIL && replacement != NIL && item != NIL)
    ensures !ok || replacement == item ==> heap.nodes == old(heap.nodes) && heap.blocks == old(heap.blocks)
    ensures ok && replacement != item ==> Linked(heap.nodes, parent, ps[k := replacement])
    ensures ok && replacement != item ==>
      Moved(old(heap.nodes), old(heap.blocks), heap.nodes, heap.blocks, parent, Set(ps + [replacement]), Fp(s))
  {
    hide Owns, Fp, OnlyLinks, Moved;
    if parent == NIL || heap.nodes[parent].child == NIL || replacement == NIL || item == NIL {
      if parent != NIL && item != NIL { ItemAt(heap.nodes, parent, ps, 0); }
      return false;
    }
    if replacement == item { return true; }
    ghost var n := heap.nodes;
    ReplacedApart(n, parent, ps, k, replacement, Fp(s));
    Exchange(heap, parent, item, replacement, ps, k);
    KeysSame(n, heap.nodes, parent, Set(ps + [replacement]));
    LoneOwned(n, heap.blocks, heap.nodes, parent, ps, replacement, s);
    ghost var n1 := heap.nodes;
    heap.Delete(item, [s]);
    StillLinked(n1, heap.nodes, parent, ps[k := replacement], Fp(s));
    RelinkMoves(n, old(heap.blocks), n1, heap.nodes, heap.blocks, parent, Set(ps + [replacement]), Fp(s));
    ok := true;
  }

  /** Only the links of `near` and the parent's `child` changed, and exactly `gone` was freed. */
  ghost predicate Moved(n: Nodes, b: Blocks, n': Nodes, b': Blocks, parent: Ptr, near: set<Ptr>, gone: set<Ptr>) {
    && n'.Keys == n.Keys - gone && b' == b - gone
    && forall q :: q in n' ==> LinksDiffer(n[q], n'[q], q in near, q in near, q == parent)
  }

  lemma RelinkMoves(n: Nodes, b: Blocks, n1: Nodes, n': Nodes, b': Blocks, parent: Ptr, near: set<Ptr>, gone: set<Ptr>)
    requires OnlyLinks(n, n1, parent, near, near) && n' == n1 - gone && b' == b - gone
    ensures Moved(n, b, n', b', parent, near, gone)
  {
  }

  lemma ReplacedApart(n: Nodes, parent: Ptr, ps: seq<Ptr>, k: nat, replacement: Ptr, fp: set<Ptr>)
    requires Linked(n, parent, ps) && k < |ps| && fp !! Set(ps) - {ps[k]} && replacement !in fp
    ensures var all := ps[k := replacement]; forall i :: 0 <= i < |all| ==> all[i] !in fp
  {
    var all := ps[k := replacement];
    forall i | 0 <= i < |ps| ensures all[i] !in fp {
      if i != k {
        Distinct(n, parent, ps, i, k);
        assert ps[i] in Set(ps) - {ps[k]};
      }
    }
  }

  lemma LoneOwned(n: Nodes, b: Blocks, n': Nodes, parent: Ptr, ps: seq<Ptr>, replacement: Ptr, s: Shape)
    requires Disjunct(n, b) && Owns(n, b, s) && Fp(s) !! Set(ps) - {s.p} && parent !in Fp(s) && replacement !in Fp(s)
    requires OnlyLinks(n, n', parent, Set(ps + [replacement]), Set(ps + [replacement]))
    requires s.p in n' && n'[s.p].next == NIL
    ensures OwnsList(n', b, [s]) && FpList([s]) == Fp(s) && Disjunct(n', b)
  {
    hide Owns, FpList, OwnsList;
    assert s.p in Fp(s);
    hide Fp;
    OwnsKept(n, b, n', b, s);
    AloneOwned(n', b, s);
  }

  lemma StillLinked(n: Nodes, n': Nodes, parent: Ptr, ps: seq<Ptr>, gone: set<Ptr>)
    requires Linked(n, parent, ps) && n' == n - gone && parent !in gone &&
      (forall i :: 0 <= i < |ps| ==> ps[i] !in gone)
    ensures Linked(n', parent, ps)
  {
    forall i | 0 <= i < |ps| ensures LinkAt(n', ps, i) { assert LinkAt(n, ps, i); }
    forall i, j | 0 <= i < j < |ps| ensures Differ(ps, i, j) { assert Differ(ps, i, j); }
  }
}
