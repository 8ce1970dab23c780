/** Editing sessions: any sequence of list edits through the C functions, with everything owned accounted for. */
module JsonSession {
  import opened JsonText
  import opened JsonHeap
  import opened JsonBuild
  import opened JsonLists

  /** Edits bring in items that stand alone; what they own is part of the edit. */
  datatype Edit = Append(s: Shape) | Insert(which: nat, s: Shape) | Detach(which: nat) | Replace(which: nat, s: Shape)

  /** The same edit on a plain sequence; an index past the end appends, or does nothing. */
  function Apply(kids: seq<Shape>, e: Edit): seq<Shape> {
    match e
    case Append(s) => kids + [s]
    case Insert(k, s) => if k < |kids| then kids[..k] + [s] + kids[k..] else kids + [s]
    case Detach(k) => if k < |kids| then kids[..k] + kids[k + 1..] else kids
    case Replace(k, s) => if k < |kids| then kids[k := s] else kids
  }

  /** The items that stand alone after the edit: what it brings in no longer does, what it detaches does. */
  function Loose(kids: seq<Shape>, loose: set<Shape>, e: Edit): set<Shape> {
    match e
    case Append(s) => loose - {s}
    case Insert(_, s) => loose - {s}
    case Detach(k) => if k < |kids| then loose + {kids[k]} else loose
    case Replace(k, s) => if k < |kids| then loose - {s} else loose
  }

  /** What the edit frees: a replaced item with all it owns. */
  function Freed(kids: seq<Shape>, e: Edit): seq<Shape> {
    if e.Replace? && e.which < |kids| then [kids[e.which]] else []
  }

  function ApplyAll(kids: seq<Shape>, es: seq<Edit>): seq<Shape> {
    if es == [] then kids else Apply(ApplyAll(kids, es[..|es| - 1]), es[|es| - 1])
  }

  function LooseAll(kids: seq<Shape>, loose: set<Shape>, es: seq<Edit>): set<Shape> {
    if es == [] then loose else
    var front := es[..|es| - 1];
    Loose(ApplyAll(kids, front), LooseAll(kids, loose, front), es[|es| - 1])
  }

  function FreedAll(kids: seq<Shape>, es: seq<Edit>): seq<Shape> {
    if es == [] then [] else
    var front := es[..|es| - 1];
    FreedAll(kids, front) + Freed(ApplyAll(kids, front), es[|es| - 1])
  }

  /** Whatever an edit brings in stands alone at that time; it may have been detached earlier. */
  predicate MayEdit(loose: set<Shape>, e: Edit) { e.Detach? || e.s in loose }

  predicate Legal(kids: seq<Shape>, loose: set<Shape>, es: seq<Edit>) {
    forall i :: 0 <= i < |es| ==> MayEdit(LooseAll(kids, loose, es[..i]), es[i])
  }

  // ---- what holds between edits ----

  function All(kids: seq<Shape>, loose: set<Shape>): set<Shape> { (set s | s in kids) + loose }

  /** No two items share anything. */
  ghost predicate Apart(all: set<Shape>) { forall s, t :: s in all && t in all && s != t ==> Fp(s) !! Fp(t) }

  ghost predicate Stands(n: Nodes, b: Blocks, parent: Ptr, s: Shape) { Owns(n, b, s) && parent !in Fp(s) }

  predicate Alone(n: Nodes, s: Shape) { s.p in n && n[s.p].next == NIL }

  /** The children are linked, everything is owned and apart, and the loose items stand alone. */
  ghost predicate Whole(n: Nodes, b: Blocks, parent: Ptr, kids: seq<Shape>, loose: set<Shape>) {
    && Disjunct(n, b)
    && Linked(n, parent, Ptrs(kids))
    && (forall s :: s in All(kids, loose) ==> Stands(n, b, parent, s))
    && Apart(All(kids, loose))
    && (forall s :: s in loose ==> s !in kids && Alone(n, s))
  }

  /** The items are the same as before, but for their own sibling links. */
  ghost predicate Same(n: Nodes, b: Blocks, n': Nodes, b': Blocks, all: set<Shape>) {
    forall s :: s in all ==> Unchanged(n, b, n', b', s)
  }

  ghost predicate Unchanged(n: Nodes, b: Blocks, n': Nodes, b': Blocks, s: Shape) {
    && s.p in n && s.p in n' && SameBody(n'[s.p], n[s.p]) && Kept(n, b, n', b', Fp(s) - {s.p})
  }

  // ---- one edit ----

  /** The addresses of the items themselves. */
  function Tops(all: set<Shape>): set<Ptr> { set s | s in all :: s.p }

  lemma TopsApart(all: set<Shape>, s: Shape, q: Ptr)
    requires Apart(all) && s in all && q in Fp(s) && q != s.p
    ensures q !in Tops(all)
  {
    hide Fp;
    forall t | t in all ensures t.p != q {
      assert t.p in Fp(t);
    }
  }

  lemma StandsAfter(n: Nodes, b: Blocks, n': Nodes, b': Blocks, parent: Ptr, all: set<Shape>, s: Shape, near: set<Ptr>,
                    gone: set<Ptr>)
    requires Apart(all) && s in all && Stands(n, b, parent, s) && Disjunct(n, b)
    requires near <= Tops(all) && gone !! Fp(s) && Moved(n, b, n', b', parent, near, gone)
    ensures Stands(n', b', parent, s) && Unchanged(n, b, n', b', s)
  {
    hide Owns, Fp, Apart;
    OwnedAddress(n, b, s);
    assert s.p in Fp(s);
    forall q | q in Fp(s) - {s.p} && q in n ensures q in n' && n'[q] == n[q] {
      TopsApart(all, s, q);
    }
    OwnsKept(n, b, n', b', s);
  }

  /** What an edit must show to keep the whole. */
  lemma EditKeeps(n: Nodes, b: Blocks, n': Nodes, b': Blocks, parent: Ptr, kids: seq<Shape>, loose: set<Shape>,
                  kids': seq<Shape>, loose': set<Shape>, near: set<Ptr>, gone: set<Ptr>)
    requires Whole(n, b, parent, kids, loose) && All(kids', loose') <= All(kids, loose)
    requires near <= Tops(All(kids, loose)) && Moved(n, b, n', b', parent, near, gone)
    requires forall s :: s in All(kids', loose') ==> gone !! Fp(s)
    requires Linked(n', parent, Ptrs(kids'))
    requires forall s :: s in loose' ==> s !in kids' && Alone(n', s)
    ensures Whole(n', b', parent, kids', loose') && Same(n, b, n', b', All(kids', loose'))
  {
    hide Stands, Fp, Unchanged, Tops, Moved, Linked;
    MovedDisjunct(n, b, n', b', parent, near, gone);
    forall s | s in All(kids', loose') ensures Stands(n', b', parent, s) && Unchanged(n, b, n', b', s) {
      StandsAfter(n, b, n', b', parent, All(kids, loose), s, near, gone);
    }
  }

  lemma MovedDisjunct(n: Nodes, b: Blocks, n': Nodes, b': Blocks, parent: Ptr, near: set<Ptr>, gone: set<Ptr>)
    requires Disjunct(n, b) && Moved(n, b, n', b', parent, near, gone)
    ensures Disjunct(n', b')
  {
  }

  /** A loose item is none of the children and not the parent, and shares no address with them. */
  lemma LooseApart(n: Nodes, b: Blocks, parent: Ptr, kids: seq<Shape>, loose: set<Shape>, s: Shape)
    requires Whole(n, b, parent, kids, loose) && s in loose
    ensures s.p in n && s.p != NIL && s.p != parent && s.p !in Ptrs(kids) && n[s.p].next == NIL
    ensures s.p in Tops(All(kids, loose))
  {
    hide Owns, Linked;
    assert Stands(n, b, parent, s) && Alone(n, s);
    OwnedAddress(n, b, s);
    assert s.p in Fp(s);
    forall i | 0 <= i < |kids| ensures Ptrs(kids)[i] != s.p {
      assert kids[i] in All(kids, loose) && kids[i].p in Fp(kids[i]);
    }
  }

  lemma KidTops(kids: seq<Shape>, loose: set<Shape>)
    ensures Set(Ptrs(kids)) <= Tops(All(kids, loose))
  {
    forall q | q in Set(Ptrs(kids)) ensures q in Tops(All(kids, loose)) {
      var i :| 0 <= i < |kids| && Ptrs(kids)[i] == q;
      assert kids[i] in All(kids, loose);
    }
  }

  /** Loose items other than the one an edit brings in keep standing alone. */
  lemma StillAlone(n: Nodes, b: Blocks, n': Nodes, b': Blocks, parent: Ptr, kids: seq<Shape>, loose: set<Shape>,
                   s: Shape, near: set<Ptr>, gone: set<Ptr>)
    requires Whole(n, b, parent, kids, loose) && s in loose && s.p !in near && s.p !in gone
    requires Moved(n, b, n', b', parent, near, gone)
    ensures Alone(n', s)
  {
    assert Alone(n, s);
  }

  lemma LooseNotNear(n: Nodes, b: Blocks, parent: Ptr, kids: seq<Shape>, loose: set<Shape>, s: Shape, t: Shape)
    requires Whole(n, b, parent, kids, loose) && s in loose && t in loose && t != s
    ensures t.p !in Set(Ptrs(kids) + [s.p])
  {
    LooseApart(n, b, parent, kids, loose, t);
    hide Owns, Linked;
    assert s.p in Fp(s) && t.p in Fp(t);
    assert s in All(kids, loose) && t in All(kids, loose);
  }

  lemma NearIsTops(n: Nodes, b: Blocks, parent: Ptr, kids: seq<Shape>, loose: set<Shape>, s: Shape)
    requires Whole(n, b, parent, kids, loose) && s in loose
    ensures Set(Ptrs(kids) + [s.p]) <= Tops(All(kids, loose))
  {
    hide Whole, Tops, All;
    LooseApart(n, b, parent, kids, loose, s);
    KidTops(kids, loose);
  }

  /** Hanging a loose item in, wherever. */
  lemma HungIn(n: Nodes, b: Blocks, n': Nodes, parent: Ptr, kids: seq<Shape>, loose: set<Shape>, kids': seq<Shape>,
               s: Shape)
    requires Whole(n, b, parent, kids, loose) && s in loose
    requires forall t :: t in kids' <==> t in kids || t == s
    requires Linked(n', parent, Ptrs(kids'))
    requires OnlyLinks(n, n', parent, Set(Ptrs(kids) + [s.p]), Set(Ptrs(kids) + [s.p]))
    ensures Whole(n', b, parent, kids', loose - {s}) && Same(n, b, n', b, All(kids', loose - {s}))
    ensures Moved(n, b, n', b, parent, Set(Ptrs(kids) + [s.p]), {})
  {
    var near := Set(Ptrs(kids) + [s.p]);
    NearIsTops(n, b, parent, kids, loose, s);
    RelinkMoves(n, b, n', n', b, parent, near, {});
    forall t | t in loose - {s} ensures t !in kids' && Alone(n', t) {
      LooseNotNear(n, b, parent, kids, loose, s, t);
      StillAlone(n, b, n', b, parent, kids, loose, t, near, {});
    }
    EditKeeps(n, b, n', b, parent, kids, loose, kids', loose - {s}, near, {});
  }

  /** Of the parent only `child` may change. */
  predicate ParentKept(n: Nodes, n': Nodes, parent: Ptr) {
    parent in n && parent in n' && n'[parent] == n[parent].(child := n'[parent].child)
  }

  /** Everything an edit does to the heap. */
  ghost predicate Edited(n: Nodes, b: Blocks, n': Nodes, b': Blocks, parent: Ptr, kids: seq<Shape>, loose: set<Shape>,
                         e: Edit) {
    && Whole(n', b', parent, Apply(kids, e), Loose(kids, loose, e))
    && Same(n, b, n', b', All(Apply(kids, e), Loose(kids, loose, e)))
    && n'.Keys == n.Keys - FpList(Freed(kids, e)) && b' == b - FpList(Freed(kids, e))
    && ParentKept(n, n', parent)
  }

  lemma EditDone(n: Nodes, b: Blocks, n': Nodes, b': Blocks, parent: Ptr, kids: seq<Shape>, loose: set<Shape>, e: Edit,
                 near: set<Ptr>)
    requires Whole(n, b, parent, kids, loose) && near <= Tops(All(kids, loose))
    requires Moved(n, b, n', b', parent, near, FpList(Freed(kids, e)))
    requires Whole(n', b', parent, Apply(kids, e), Loose(kids, loose, e))
    requires Same(n, b, n', b', All(Apply(kids, e), Loose(kids, loose, e)))
    ensures Edited(n, b, n', b', parent, kids, loose, e)
  {
    hide Same, Apply, Loose, Freed;
    ParentNotNear(n, b, parent, kids, loose);
  }

  lemma ParentNotNear(n: Nodes, b: Blocks, parent: Ptr, kids: seq<Shape>, loose: set<Shape>)
    requires Whole(n, b, parent, kids, loose)
    ensures parent !in Tops(All(kids, loose))
  {
    forall s | s in All(kids, loose) ensures s.p != parent {
      assert Stands(n, b, parent, s) && s.p in Fp(s);
    }
  }

  lemma WholeIsLinked(n: Nodes, b: Blocks, parent: Ptr, kids: seq<Shape>, loose: set<Shape>)
    requires Whole(n, b, parent, kids, loose)
    ensures Linked(n, parent, Ptrs(kids)) && Disjunct(n, b)
  {
  }

  lemma NothingFreed()
    ensures FpList([]) == {}
  {
  }

  /** An edit that hangs in a loose item. */
  lemma HangingDone(n: Nodes, b: Blocks, n': Nodes, parent: Ptr, kids: seq<Shape>, loose: set<Shape>, e: Edit)
    requires Whole(n, b, parent, kids, loose) && (e.Append? || e.Insert?) && e.s in loose
    requires Linked(n', parent, Ptrs(Apply(kids, e)))
    requires OnlyLinks(n, n', parent, Set(Ptrs(kids) + [e.s.p]), Set(Ptrs(kids) + [e.s.p]))
    ensures Edited(n, b, n', b, parent, kids, loose, e)
  {
    hide Whole, Same, Moved, Linked, OnlyLinks, Edited, FpList;
    NothingFreed();
    assert forall t :: t in Apply(kids, e) <==> t in kids || t == e.s by {
      if e.Insert? && e.which < |kids| { assert kids == kids[..e.which] + kids[e.which..]; }
    }
    HungIn(n, b, n', parent, kids, loose, Apply(kids, e), e.s);
    NearIsTops(n, b, parent, kids, loose, e.s);
    EditDone(n, b, n', b, parent, kids, loose, e, Set(Ptrs(kids) + [e.s.p]));
  }

  method DoAppend(heap: Heap, parent: Ptr, item: Ptr, ghost kids: seq<Shape>, ghost loose: set<Shape>, ghost s: Shape)
    requires parent != NIL && Whole(heap.nodes, heap.blocks, parent, kids, loose) && s in loose && item == s.p
    modifies heap`nodes
    ensures Edited(old(heap.nodes), heap.blocks, heap.nodes, heap.blocks, parent, kids, loose, Append(s))
  {
    hide Whole, Edited, Linked, OnlyLinks;
    LooseApart(heap.nodes, heap.blocks, parent, kids, loose, s);
    WholeIsLinked(heap.nodes, heap.blocks, parent, kids, loose);
    var ok := AddItemToArray(heap, parent, item, Ptrs(kids));
    assert Ptrs(kids + [s]) == Ptrs(kids) + [s.p];
    HangingDone(old(heap.nodes), heap.blocks, heap.nodes, parent, kids, loose, Append(s));
  }

  method DoInsert(heap: Heap, parent: Ptr, which: nat, item: Ptr, ghost kids: seq<Shape>, ghost loose: set<Shape>,
                  ghost s: Shape)
    requires parent != NIL && Whole(heap.nodes, heap.blocks, parent, kids, loose) && s in loose && item == s.p
    modifies heap`nodes
    ensures Edited(old(heap.nodes), heap.blocks, heap.nodes, heap.blocks, parent, kids, loose, Insert(which, s))
  {
    hide Whole, Edited, Linked, OnlyLinks;
    LooseApart(heap.nodes, heap.blocks, parent, kids, loose, s);
    WholeIsLinked(heap.nodes, heap.blocks, parent, kids, loose);
    var ok := InsertItemInArray(heap, parent, which, item, Ptrs(kids));
    InsertedPtrs(kids, which, s);
    HangingDone(old(heap.nodes), heap.blocks, heap.nodes, parent, kids, loose, Insert(which, s));
  }

  lemma InsertedPtrs(kids: seq<Shape>, which: nat, s: Shape)
    ensures var ps, k := Ptrs(kids), if which < |kids| then which else |kids|;
      Ptrs(Apply(kids, Insert(which, s))) == ps[..k] + [s.p] + ps[k..]
  {
  }

  // ---- detach and replace ----

  /** The k-th child is no other child. */
  lemma OnlyOnce(n: Nodes, b: Blocks, parent: Ptr, kids: seq<Shape>, loose: set<Shape>, k: nat)
    requires Whole(n, b, parent, kids, loose) && k < |kids|
    ensures forall i :: 0 <= i < |kids| && i != k ==> kids[i] != kids[k]
  {
    hide Stands, Apart;
    forall i | 0 <= i < |kids| && i != k ensures kids[i] != kids[k] {
      Distinct(n, parent, Ptrs(kids), i, k);
    }
  }

  lemma KidApart(n: Nodes, b: Blocks, parent: Ptr, kids: seq<Shape>, loose: set<Shape>, k: nat)
    requires Whole(n, b, parent, kids, loose) && k < |kids|
    ensures Owns(n, b, kids[k]) && parent !in Fp(kids[k]) && kids[k].p != NIL
    ensures Fp(kids[k]) !! Set(Ptrs(kids)) - {kids[k].p}
    ensures forall t :: t in All(kids, loose) && t != kids[k] ==> Fp(kids[k]) !! Fp(t)
  {
    assert kids[k] in All(kids, loose);
    assert Stands(n, b, parent, kids[k]);
    OwnedAddress(n, b, kids[k]);
    hide Owns, Linked;
    forall q | q in Set(Ptrs(kids)) - {kids[k].p} ensures q !in Fp(kids[k]) {
      var i :| 0 <= i < |kids| && Ptrs(kids)[i] == q;
      assert kids[i] in All(kids, loose) && kids[i].p in Fp(kids[i]);
    }
  }

  lemma Detached(n: Nodes, b: Blocks, n': Nodes, parent: Ptr, kids: seq<Shape>, loose: set<Shape>, k: nat)
    requires Whole(n, b, parent, kids, loose) && k < |kids|
    requires Linked(n', parent, Ptrs(Apply(kids, Detach(k)))) && Alone(n', kids[k])
    requires OnlyLinks(n, n', parent, Set(Ptrs(kids)), Set(Ptrs(kids)))
    ensures Edited(n, b, n', b, parent, kids, loose, Detach(k))
  {
    hide Whole, Same, Moved, Linked, OnlyLinks, Edited, FpList;
    var near, kids', loose' := Set(Ptrs(kids)), Apply(kids, Detach(k)), loose + {kids[k]};
    NothingFreed();
    KidTops(kids, loose);
    RelinkMoves(n, b, n', n', b, parent, near, {});
    OnlyOnce(n, b, parent, kids, loose, k);
    assert forall t :: t in kids' ==> t in kids;
    forall t | t in loose' ensures t !in kids' && Alone(n', t) {
      if t in loose {
        NotAKid(n, b, parent, kids, loose, t);
        StillAlone(n, b, n', b, parent, kids, loose, t, near, {});
      }
    }
    EditKeeps(n, b, n', b, parent, kids, loose, kids', loose', near, {});
    EditDone(n, b, n', b, parent, kids, loose, Detach(k), near);
  }

  lemma NotAKid(n: Nodes, b: Blocks, parent: Ptr, kids: seq<Shape>, loose: set<Shape>, t: Shape)
    requires Whole(n, b, parent, kids, loose) && t in loose
    ensures t !in kids && t.p !in Set(Ptrs(kids))
  {
    LooseApart(n, b, parent, kids, loose, t);
  }

  method DoDetach(heap: Heap, parent: Ptr, which: nat, ghost kids: seq<Shape>, ghost loose: set<Shape>)
    requires parent != NIL && Whole(heap.nodes, heap.blocks, parent, kids, loose)
    modifies heap`nodes
    ensures Edited(old(heap.nodes), heap.blocks, heap.nodes, heap.blocks, parent, kids, loose, Detach(which))
  {
    hide Whole, Edited, Linked, OnlyLinks;
    WholeIsLinked(heap.nodes, heap.blocks, parent, kids, loose);
    var item := GetArrayItem(heap, parent, which, Ptrs(kids));
    if which < |kids| { KidApart(heap.nodes, heap.blocks, parent, kids, loose, which); }
    var r := DetachItemViaPointer(heap, parent, item, Ptrs(kids), which);
    if which < |kids| {
      DetachedPtrs(kids, which);
      Detached(old(heap.nodes), heap.blocks, heap.nodes, parent, kids, loose, which);
    } else {
      NoEdit(heap.nodes, heap.blocks, parent, kids, loose, Detach(which));
    }
  }

  lemma DetachedPtrs(kids: seq<Shape>, k: nat)
    requires k < |kids|
    ensures Ptrs(Apply(kids, Detach(k))) == Ptrs(kids)[..k] + Ptrs(kids)[k + 1..]
  {
  }

  /** An index past the end changes nothing. */
  lemma NoEdit(n: Nodes, b: Blocks, parent: Ptr, kids: seq<Shape>, loose: set<Shape>, e: Edit)
    requires Whole(n, b, parent, kids, loose) && (e.Detach? || e.Replace?) && e.which >= |kids|
    ensures Edited(n, b, n, b, parent, kids, loose, e)
  {
    hide FpList, Linked;
    NothingFreed();
    assert parent in n by { Linking(n, parent, Ptrs(kids)); }
    forall s | s in All(kids, loose) ensures Unchanged(n, b, n, b, s) {
      assert Stands(n, b, parent, s);
    }
  }

  lemma Linking(n: Nodes, parent: Ptr, ps: seq<Ptr>)
    requires Linked(n, parent, ps)
    ensures parent in n
  {
  }

  lemma Replaced(n: Nodes, b: Blocks, n': Nodes, b': Blocks, parent: Ptr, kids: seq<Shape>, loose: set<Shape>, k: nat,
                 s: Shape)
    requires Whole(n, b, parent, kids, loose) && k < |kids| && s in loose
    requires Linked(n', parent, Ptrs(kids[k := s]))
    requires Moved(n, b, n', b', parent, Set(Ptrs(kids) + [s.p]), Fp(kids[k]))
    ensures Edited(n, b, n', b', parent, kids, loose, Replace(k, s))
  {
    hide Whole, Same, Moved, Linked, Edited, Fp, FpList;
    var near, gone, kids', loose' := Set(Ptrs(kids) + [s.p]), Fp(kids[k]), kids[k := s], loose - {s};
    FpAlone(kids[k]);
    NearIsTops(n, b, parent, kids, loose, s);
    OnlyOnce(n, b, parent, kids, loose, k);
    KidApart(n, b, parent, kids, loose, k);
    NotAKid(n, b, parent, kids, loose, s);
    assert forall t :: t in kids' ==> t == s || (t in kids && t != kids[k]);
    forall t | t in loose' ensures t !in kids' && Alone(n', t) && t != kids[k] {
      NotAKid(n, b, parent, kids, loose, t);
      LooseNotNear(n, b, parent, kids, loose, s, t);
      assert t in All(kids, loose) && t.p in Fp(t);
      StillAlone(n, b, n', b', parent, kids, loose, t, near, gone);
    }
    EditKeeps(n, b, n', b', parent, kids, loose, kids', loose', near, gone);
    EditDone(n, b, n', b', parent, kids, loose, Replace(k, s), near);
  }

  method DoReplace(heap: Heap, parent: Ptr, which: nat, item: Ptr, ghost kids: seq<Shape>, ghost loose: set<Shape>,
                   ghost s: Shape)
    requires parent != NIL && Whole(heap.nodes, heap.blocks, parent, kids, loose) && s in loose && item == s.p
    modifies heap`nodes, heap`blocks
    ensures Edited(old(heap.nodes), old(heap.blocks), heap.nodes, heap.blocks, parent, kids, loose, Replace(which, s))
  {
    hide Whole, Edited, Linked, Moved, Owns, Fp;
    WholeIsLinked(heap.nodes, heap.blocks, parent, kids, loose);
    var replaced := GetArrayItem(heap, parent, which, Ptrs(kids));
    ghost var victim := Shape(NIL, NIL, NIL, []);
    if which < |kids| {
      victim := kids[which];
      KidApart(heap.nodes, heap.blocks, parent, kids, loose, which);
      LooseApart(heap.nodes, heap.blocks, parent, kids, loose, s);
      ReplacementApart(heap.nodes, heap.blocks, parent, kids, loose, which, s);
    }
    var ok := ReplaceItemViaPointer(heap, parent, replaced, item, Ptrs(kids), which, victim);
    if which < |kids| {
      assert Ptrs(kids[which := s]) == Ptrs(kids)[which := s.p];
      Replaced(old(heap.nodes), old(heap.blocks), heap.nodes, heap.blocks, parent, kids, loose, which, s);
    } else {
      NoEdit(heap.nodes, heap.blocks, parent, kids, loose, Replace(which, s));
    }
  }

  lemma ReplacementApart(n: Nodes, b: Blocks, parent: Ptr, kids: seq<Shape>, loose: set<Shape>, k: nat, s: Shape)
    requires Whole(n, b, parent, kids, loose) && k < |kids| && s in loose
    ensures s.p !in Fp(kids[k]) && s.p != kids[k].p
  {
    hide Linked, Stands;
    assert kids[k] in All(kids, loose) && s in All(kids, loose) && s.p in Fp(s) && kids[k].p in Fp(kids[k]);
  }

  // ---- sessions ----

  /** The address an edit passes to the C function. */
  function ItemOf(e: Edit): Ptr { if e.Detach? then NIL else e.s.p }

  /** One edit through `cJSON_AddItemToArray` and its siblings; a replaced item is deleted with all it owns. */
  method Perform(heap: Heap, parent: Ptr, e: Edit, ghost kids: seq<Shape>, ghost loose: set<Shape>)
    requires parent != NIL && Whole(heap.nodes, heap.blocks, parent, kids, loose) && MayEdit(loose, e)
    modifies heap`nodes, heap`blocks
    ensures Edited(old(heap.nodes), old(heap.blocks), heap.nodes, heap.blocks, parent, kids, loose, e)
  {
    hide Whole, Edited;
    match e
    case Append(s) => DoAppend(heap, parent, ItemOf(e), kids, loose, s);
    case Insert(k, s) => DoInsert(heap, parent, k, ItemOf(e), kids, loose, s);
    case Detach(k) => DoDetach(heap, parent, k, kids, loose);
    case Replace(k, s) => DoReplace(heap, parent, k, ItemOf(e), kids, loose, s);
  }

  /** Everything a whole session does to the heap. */
  ghost predicate Finished(n: Nodes, b: Blocks, n': Nodes, b': Blocks, parent: Ptr, kids: seq<Shape>, loose: set<Shape>,
                           es: seq<Edit>) {
    && Whole(n', b', parent, ApplyAll(kids, es), LooseAll(kids, loose, es))
    && Same(n, b, n', b', All(ApplyAll(kids, es), LooseAll(kids, loose, es)))
    && n'.Keys == n.Keys - FpList(FreedAll(kids, es)) && b' == b - FpList(FreedAll(kids, es))
    && ParentKept(n, n', parent)
  }

  /**
   * Any legal sequence of edits leaves the children a plain sequence would be, linked and owned; every surviving item
   * is as it was, and exactly the replaced items were freed, with all they owned.
   */
  method Session(heap: Heap, parent: Ptr, es: seq<Edit>, ghost kids: seq<Shape>, ghost loose: set<Shape>)
    requires parent != NIL && Whole(heap.nodes, heap.blocks, parent, kids, loose) && Legal(kids, loose, es)
    modifies heap`nodes, heap`blocks
    ensures Finished(old(heap.nodes), old(heap.blocks), heap.nodes, heap.blocks, parent, kids, loose, es)
  {
    hide Whole, Edited, Finished, MayEdit, ApplyAll, LooseAll;
    ghost var n, b := heap.nodes, heap.blocks;
    NothingDone(n, b, parent, kids, loose);
    assert es[..0] == [];
    for k := 0 to |es|
      invariant Finished(n, b, heap.nodes, heap.blocks, parent, kids, loose, es[..k])
    {
      ghost var now, free := ApplyAll(kids, es[..k]), LooseAll(kids, loose, es[..k]);
      ghost var n1, b1 := heap.nodes, heap.blocks;
      FinishedIsWhole(n, b, n1, b1, parent, kids, loose, es[..k]);
      Perform(heap, parent, es[k], now, free);
      assert es[..k + 1] == es[..k] + [es[k]];
      OneMore(n, b, n1, b1, heap.nodes, heap.blocks, parent, kids, loose, es[..k], es[k]);
    }
    assert es[..|es|] == es;
  }

  lemma FinishedIsWhole(n: Nodes, b: Blocks, n': Nodes, b': Blocks, parent: Ptr, kids: seq<Shape>, loose: set<Shape>,
                        es: seq<Edit>)
    requires Finished(n, b, n', b', parent, kids, loose, es)
    ensures Whole(n', b', parent, ApplyAll(kids, es), LooseAll(kids, loose, es))
  {
  }

  lemma NothingDone(n: Nodes, b: Blocks, parent: Ptr, kids: seq<Shape>, loose: set<Shape>)
    requires Whole(n, b, parent, kids, loose)
    ensures Finished(n, b, n, b, parent, kids, loose, [])
  {
    hide Whole, Same, FpList;
    NoEdit(n, b, parent, kids, loose, Detach(|kids|));
  }

  lemma UnchangedTwice(n: Nodes, b: Blocks, n1: Nodes, b1: Blocks, n2: Nodes, b2: Blocks, s: Shape)
    requires Unchanged(n, b, n1, b1, s) && Unchanged(n1, b1, n2, b2, s)
    ensures Unchanged(n, b, n2, b2, s)
  {
    hide Fp;
  }

  lemma StepAll(kids: seq<Shape>, loose: set<Shape>, es: seq<Edit>, e: Edit)
    ensures ApplyAll(kids, es + [e]) == Apply(ApplyAll(kids, es), e)
    ensures LooseAll(kids, loose, es + [e]) == Loose(ApplyAll(kids, es), LooseAll(kids, loose, es), e)
    ensures FreedAll(kids, es + [e]) == FreedAll(kids, es) + Freed(ApplyAll(kids, es), e)
  {
    assert (es + [e])[..|es|] == es;
  }

  /** Edits never bring in what was not there: what survives one edit was there before it. */
  lemma Survivors(kids: seq<Shape>, loose: set<Shape>, e: Edit)
    requires MayEdit(loose, e)
    ensures All(Apply(kids, e), Loose(kids, loose, e)) <= All(kids, loose)
  {
  }

  lemma FreedMore(done: seq<Shape>, freed: seq<Shape>)
    requires |freed| <= 1
    ensures FpList(done + freed) == FpList(done) + FpList(freed)
  {
    hide FpList;
    NothingFreed();
    if freed == [] {
      assert done + freed == done;
    } else {
      FpListLast(done, freed[0]);
      FpAlone(freed[0]);
      assert freed == [freed[0]];
    }
  }

  lemma OneMore(n: Nodes, b: Blocks, n1: Nodes, b1: Blocks, n2: Nodes, b2: Blocks, parent: Ptr, kids: seq<Shape>,
                loose: set<Shape>, es: seq<Edit>, e: Edit)
    requires Finished(n, b, n1, b1, parent, kids, loose, es)
    requires MayEdit(LooseAll(kids, loose, es), e)
    requires Edited(n1, b1, n2, b2, parent, ApplyAll(kids, es), LooseAll(kids, loose, es), e)
    ensures Finished(n, b, n2, b2, parent, kids, loose, es + [e])
  {
    hide Whole, Unchanged, FpList, ApplyAll, LooseAll, FreedAll, MayEdit, Apply, Loose;
    var now, free := ApplyAll(kids, es), LooseAll(kids, loose, es);
    StepAll(kids, loose, es, e);
    Survivors(now, free, e);
    FreedMore(FreedAll(kids, es), Freed(now, e));
    forall s | s in All(Apply(now, e), Loose(now, free, e)) ensures Unchanged(n, b, n2, b2, s) {
      assert s in All(now, free);
      UnchangedTwice(n, b, n1, b1, n2, b2, s);
    }
  }

  // ---- what the parent is after a session ----

  lemma WholeIsOwned(n: Nodes, b: Blocks, parent: Ptr, kids: seq<Shape>, loose: set<Shape>)
    requires Whole(n, b, parent, kids, loose)
    ensures OwnsList(n, b, kids) && Ring(n, kids) && parent in n && n[parent].child == Head(kids)
  {
    hide Owns, Fp, Linked, Ptrs;
    FirstKid(n, parent, kids);
    forall i | 0 <= i < |kids|
      ensures Owns(n, b, kids[i])
      ensures kids[i].p in n && kids[i].p != NIL && n[kids[i].p].next == After(kids, i) &&
        n[kids[i].p].prev == Before(kids, i)
    {
      assert kids[i] in All(kids, loose) && Stands(n, b, parent, kids[i]);
      KidLinks(n, parent, kids, i);
    }
    KidsDisjoint(n, b, parent, kids, loose);
  }

  lemma KidsDisjoint(n: Nodes, b: Blocks, parent: Ptr, kids: seq<Shape>, loose: set<Shape>)
    requires Whole(n, b, parent, kids, loose)
    ensures Disjoint(kids)
  {
    hide Fp, Stands, Linked;
    forall i, j | 0 <= i < j < |kids| ensures Fp(kids[i]) !! Fp(kids[j]) {
      OnlyOnce(n, b, parent, kids, loose, i);
      assert kids[i] in All(kids, loose) && kids[j] in All(kids, loose);
    }
  }

  /** The parent's own addresses are shared with no item. */
  ghost predicate ParentApart(p: Shape, all: set<Shape>) { forall s :: s in all ==> Own(p) !! Fp(s) }

  lemma {:induction false} OnlyThoseThere(kids: seq<Shape>, loose: set<Shape>, es: seq<Edit>)
    requires Legal(kids, loose, es)
    ensures All(ApplyAll(kids, es), LooseAll(kids, loose, es)) <= All(kids, loose)
    ensures forall s :: s in FreedAll(kids, es) ==> s in All(kids, loose)
    decreases |es|
  {
    hide MayEdit, Apply, Loose, All;
    if es != [] {
      var front, e := es[..|es| - 1], es[|es| - 1];
      assert forall i :: 0 <= i < |front| ==> front[..i] == es[..i];
      OnlyThoseThere(kids, loose, front);
      Survivors(ApplyAll(kids, front), LooseAll(kids, loose, front), e);
      FreedWasKid(ApplyAll(kids, front), LooseAll(kids, loose, front), e);
    }
  }

  lemma FreedWasKid(kids: seq<Shape>, loose: set<Shape>, e: Edit)
    ensures forall s :: s in Freed(kids, e) ==> s in All(kids, loose)
  {
  }

  lemma ApartFromFreed(p: Shape, all: set<Shape>, freed: seq<Shape>)
    requires ParentApart(p, all) && forall s :: s in freed ==> s in all
    ensures Own(p) !! FpList(freed)
  {
    hide Fp;
    forall q | q in FpList(freed) ensures q !in Own(p) {
      var i :| 0 <= i < |freed| && q in Fp(freed[i]);
      assert freed[i] in all;
    }
  }

  /** After a session the parent owns what it should: it can be printed, and deleted, as before. */
  lemma ParentOwns(n: Nodes, b: Blocks, n': Nodes, b': Blocks, p: Shape, loose: set<Shape>, es: seq<Edit>)
    requires Owns(n, b, p) && ParentApart(p, All(p.kids, loose)) && Legal(p.kids, loose, es)
    requires Finished(n, b, n', b', p.p, p.kids, loose, es)
    ensures Owns(n', b', p.(kids := ApplyAll(p.kids, es)))
  {
    hide FpList, OwnsList, Whole, Same, Legal, ParentApart, Fp;
    var kids', loose' := ApplyAll(p.kids, es), LooseAll(p.kids, loose, es);
    WholeIsOwned(n', b', p.p, kids', loose');
    OnlyThoseThere(p.kids, loose, es);
    ApartFromFreed(p, All(p.kids, loose), FreedAll(p.kids, es));
    assert forall s :: s in kids' ==> s in All(kids', loose');
    ApartFromFreed(p, All(p.kids, loose), kids');
    ParentBody(n, b, n', b', p, FpList(FreedAll(p.kids, es)));
  }

  lemma ParentBody(n: Nodes, b: Blocks, n': Nodes, b': Blocks, p: Shape, gone: set<Ptr>)
    requires Owns(n, b, p) && ParentKept(n, n', p.p) && b' == b - gone && Own(p) !! gone
    ensures p.p in n' && p.p !in b' && n'[p.p].vs == p.vs && n'[p.p].name == p.name
    ensures (p.vs != NIL ==> p.vs in b') && (p.name != NIL ==> p.name in b')
  {
    hide OwnsList, FpList;
  }

  // ---- and how it reads ----

  /** The item reads as this value and, where keys matter, under this key. */
  ghost predicate Holds(n: Nodes, b: Blocks, s: Shape, m: Member, keyed: bool) {
    Reads(n, b, s, m.value) && s.p in n && (keyed ==> StringAt(b, n[s.p].name, m.key))
  }

  lemma StillHolds(n: Nodes, b: Blocks, n': Nodes, b': Blocks, s: Shape, m: Member, keyed: bool)
    requires Owns(n, b, s) && Holds(n, b, s, m, keyed) && Unchanged(n, b, n', b', s)
    requires Disjunct(n, b) && Disjunct(n', b')
    ensures Holds(n', b', s, m, keyed)
  {
    hide Reads, OwnsList, FpList;
    ReadsKept(n, b, n', b', s, m.value);
    if s.name != NIL { assert s.name in Fp(s) - {s.p}; }
  }

  ghost predicate AllHold(n: Nodes, b: Blocks, all: set<Shape>, values: map<Shape, Member>, keyed: bool) {
    forall s :: s in all ==> s in values && Holds(n, b, s, values[s], keyed)
  }

  predicate Valued(kids: seq<Shape>, values: map<Shape, Member>) { forall s :: s in kids ==> s in values }

  /** The values of a child list, item by item. */
  function Contents(kids: seq<Shape>, values: map<Shape, Member>): (r: seq<Member>)
    requires Valued(kids, values)
    ensures |r| == |kids|
  {
    seq(|kids|, i requires 0 <= i < |kids| => values[kids[i]])
  }

  function ValuesOf(members: seq<Member>): (r: seq<Json>)
    ensures |r| == |members|
  {
    seq(|members|, i requires 0 <= i < |members| => members[i].value)
  }

  lemma ItemsHold(n: Nodes, b: Blocks, n': Nodes, b': Blocks, parent: Ptr, kids: seq<Shape>, loose: set<Shape>,
                  es: seq<Edit>, values: map<Shape, Member>, keyed: bool)
    requires Whole(n, b, parent, kids, loose) && Legal(kids, loose, es)
    requires AllHold(n, b, All(kids, loose), values, keyed)
    requires Finished(n, b, n', b', parent, kids, loose, es)
    ensures forall s :: s in ApplyAll(kids, es) ==> s in values && Holds(n', b', s, values[s], keyed)
  {
    hide Owns, Holds, Unchanged, Linked, Apart, Legal;
    OnlyThoseThere(kids, loose, es);
    forall s | s in ApplyAll(kids, es) ensures s in values && Holds(n', b', s, values[s], keyed) {
      assert s in All(ApplyAll(kids, es), LooseAll(kids, loose, es));
      assert Stands(n, b, parent, s);
      StillHolds(n, b, n', b', s, values[s], keyed);
    }
  }

  /**
   * An array, or an object, on which a session of edits was performed reads as the array, or object, of the values
   * that the same edits leave in a plain sequence.
   */
  lemma SessionReads(n: Nodes, b: Blocks, n': Nodes, b': Blocks, p: Shape, loose: set<Shape>, es: seq<Edit>,
                     values: map<Shape, Member>)
    requires Whole(n, b, p.p, p.kids, loose) && Legal(p.kids, loose, es) && p.p in n
    requires AllHold(n, b, All(p.kids, loose), values, n[p.p].kind == KObject)
    requires Finished(n, b, n', b', p.p, p.kids, loose, es)
    ensures forall s :: s in ApplyAll(p.kids, es) ==> s in values
    ensures var p', members := p.(kids := ApplyAll(p.kids, es)), Contents(ApplyAll(p.kids, es), values);
      && (n[p.p].kind == KArray ==> Reads(n', b', p', Array(ValuesOf(members))))
      && (n[p.p].kind == KObject ==> Reads(n', b', p', Object(members)))
  {
    hide Whole, Legal, AllHold, Same, OwnsList, FpList, ApplyAll, Reads, Ring, Holds;
    ItemsHold(n, b, n', b', p.p, p.kids, loose, es, values, n[p.p].kind == KObject);
    WholeIsOwned(n', b', p.p, ApplyAll(p.kids, es), LooseAll(p.kids, loose, es));
    KidsRead(n', b', p.(kids := ApplyAll(p.kids, es)), values);
  }

  lemma KidsRead(n: Nodes, b: Blocks, p: Shape, values: map<Shape, Member>)
    requires p.p in n && Ring(n, p.kids)
    requires forall s :: s in p.kids ==> s in values && Holds(n, b, s, values[s], n[p.p].kind == KObject)
    ensures var members := Contents(p.kids, values);
      && (n[p.p].kind == KArray ==> Reads(n, b, p, Array(ValuesOf(members))))
      && (n[p.p].kind == KObject ==> Reads(n, b, p, Object(members)))
  {
    hide Reads, Ring, Holds;
    var members := Contents(p.kids, values);
    forall i | 0 <= i < |p.kids| ensures Holds(n, b, p.kids[i], members[i], n[p.p].kind == KObject) {
      assert p.kids[i] in p.kids;
    }
    ArrayReads(n, b, p, members);
    ObjectReads(n, b, p, members);
  }

  lemma ArrayReads(n: Nodes, b: Blocks, p: Shape, members: seq<Member>)
    requires p.p in n && Ring(n, p.kids) && |members| == |p.kids|
    requires forall i :: 0 <= i < |p.kids| ==> Holds(n, b, p.kids[i], members[i], n[p.p].kind == KObject)
    ensures n[p.p].kind == KArray ==> Reads(n, b, p, Array(ValuesOf(members)))
  {
    hide Ring;
    assert forall i :: 0 <= i < |p.kids| ==>
      Holds(n, b, p.kids[i], members[i], n[p.p].kind == KObject) && ValuesOf(members)[i] == members[i].value;
  }

  lemma ObjectReads(n: Nodes, b: Blocks, p: Shape, members: seq<Member>)
    requires p.p in n && Ring(n, p.kids) && |members| == |p.kids|
    requires forall i :: 0 <= i < |p.kids| ==> Holds(n, b, p.kids[i], members[i], n[p.p].kind == KObject)
    ensures n[p.p].kind == KObject ==> Reads(n, b, p, Object(members))
  {
    hide Ring;
    assert forall i :: 0 <= i < |p.kids| ==> Holds(n, b, p.kids[i], members[i], n[p.p].kind == KObject);
  }

  // ---- a tree that is about to be edited ----

  /** Items that stand alone, share nothing and have nothing to do with `p`. */
  ghost predicate Aside(n: Nodes, b: Blocks, p: set<Ptr>, loose: set<Shape>) {
    Apart(loose) && forall s :: s in loose ==> Owns(n, b, s) && Alone(n, s) && Fp(s) !! p
  }

  /** An owned tree, fresh from the parser say, and any items aside are a whole to begin a session with. */
  lemma OwnedIsWhole(n: Nodes, b: Blocks, p: Shape, loose: set<Shape>)
    requires Disjunct(n, b) && Owns(n, b, p) && Ring(n, p.kids) && Aside(n, b, Fp(p), loose)
    ensures Whole(n, b, p.p, p.kids, loose) && ParentApart(p, All(p.kids, loose))
  {
    hide Owns, Ring;
    OwnedParts(n, b, p);
    OwnedIsLinked(n, b, p);
    forall s | s in All(p.kids, loose) ensures Stands(n, b, p.p, s) && Own(p) !! Fp(s) {
      if s in p.kids { assert Fp(s) <= FpList(p.kids); }
    }
    forall s, t | s in All(p.kids, loose) && t in All(p.kids, loose) && s != t ensures Fp(s) !! Fp(t) {
      assert s in p.kids ==> Fp(s) <= Fp(p);
      assert t in p.kids ==> Fp(t) <= Fp(p);
    }
    forall s | s in loose ensures s !in p.kids { assert s.p in Fp(s); }
  }

  lemma OwnedParts(n: Nodes, b: Blocks, p: Shape)
    requires Owns(n, b, p)
    ensures Disjoint(p.kids) && Own(p) !! FpList(p.kids) && Fp(p) == Own(p) + FpList(p.kids) && p.p in Own(p)
    ensures forall s :: s in p.kids ==> Owns(n, b, s) && Fp(s) <= FpList(p.kids)
    ensures forall s, t :: s in p.kids && t in p.kids && s != t ==> Fp(s) !! Fp(t)
  {
    forall s | s in p.kids ensures Owns(n, b, s) && Fp(s) <= FpList(p.kids) {
      var i :| 0 <= i < |p.kids| && p.kids[i] == s;
    }
    KidsApart(p.kids);
  }

  lemma KidsApart(kids: seq<Shape>)
    requires Disjoint(kids)
    ensures forall s, t :: s in kids && t in kids && s != t ==> Fp(s) !! Fp(t)
  {
    hide Fp;
    forall s, t | s in kids && t in kids && s != t ensures Fp(s) !! Fp(t) {
      var i :| 0 <= i < |kids| && kids[i] == s;
      var j :| 0 <= j < |kids| && kids[j] == t;
      assert i < j ==> Fp(kids[i]) !! Fp(kids[j]);
      assert j < i ==> Fp(kids[j]) !! Fp(kids[i]);
    }
  }

  lemma OwnedIsLinked(n: Nodes, b: Blocks, p: Shape)
    requires Disjunct(n, b) && Owns(n, b, p) && Ring(n, p.kids)
    ensures Linked(n, p.p, Ptrs(p.kids))
  {
    hide Owns, Fp, Ring;
    var ps := Ptrs(p.kids);
    OwnedParts(n, b, p);
    OwnedLinks(n, b, p);
    forall i | 0 <= i < |ps| ensures LinkAt(n, ps, i) && ps[i] != p.p {
      OneLink(n, p.kids, i);
      assert p.kids[i] in p.kids && p.kids[i].p in Fp(p.kids[i]);
    }
    forall i, j | 0 <= i < j < |ps| ensures Differ(ps, i, j) {
      assert Fp(p.kids[i]) !! Fp(p.kids[j]);
      assert p.kids[i].p in Fp(p.kids[i]) && p.kids[j].p in Fp(p.kids[j]);
    }
  }

  lemma OwnedLinks(n: Nodes, b: Blocks, p: Shape)
    requires Owns(n, b, p)
    ensures p.p in n && n[p.p].child == First(Ptrs(p.kids)) && Chained(n, p.kids)
  {
    hide Fp, FpList;
  }

  lemma OneLink(n: Nodes, kids: seq<Shape>, i: nat)
    requires Chained(n, kids) && Ring(n, kids) && i < |kids|
    ensures LinkAt(n, Ptrs(kids), i)
  {
  }
}
