/** What parsing does to the heap, step by step: items filled in, attached, grown and closed into a ring. */
module JsonBuild {
  import opened JsonText
  import opened JsonHeap

  // ---- what a call may do to the heap ----

  /** `n1`, `b1` are `n0`, `b0` plus new blocks, which are those of `fp`. */
  ghost predicate Extends(n0: Nodes, b0: Blocks, n1: Nodes, b1: Blocks, fp: set<Ptr>) {
    && (forall q :: q in n0 ==> q in n1 && n1[q] == n0[q])
    && (forall q :: q in b0 ==> q in b1 && b1[q] == b0[q])
    && Live(n1, b1) == Live(n0, b0) + fp
    && fp !! Live(n0, b0)
  }

  /** The item at `item`, vacant before, now reads as `t`; its links and key are untouched. */
  ghost predicate Filled(n0: Nodes, b0: Blocks, n1: Nodes, b1: Blocks, item: Ptr, s: Shape, t: Json) {
    && item in n0 && s.p == item && s.name == n0[item].name
    && Owns(n1, b1, s) && Reads(n1, b1, s, t)
    && n1[item].next == n0[item].next && n1[item].prev == n0[item].prev
    && (forall q :: q in n0 && q != item ==> q in n1 && n1[q] == n0[q])
    && (forall q :: q in b0 ==> q in b1 && b1[q] == b0[q])
    && Live(n1, b1) == Live(n0, b0) + Fp(s)
    && Fp(s) - {item, s.name} !! Live(n0, b0)
  }

  predicate Vacant(n: Nodes, b: Blocks, item: Ptr) {
    && item in n && n[item].child == NIL && n[item].vs == NIL
    && (n[item].name != NIL ==> n[item].name in b)
  }

  lemma FilledLeaf(n0: Nodes, b0: Blocks, item: Ptr, node: Node, b1: Blocks, t: Json)
    requires Disjunct(n0, b0) && Vacant(n0, b0, item)
    requires node == n0[item].(kind := node.kind, vs := node.vs, i := node.i, d := node.d)
    requires node.vs == NIL ==> b1 == b0
    requires node.vs != NIL ==> node.vs !in n0 && node.vs !in b0 && node.vs in b1 && b1 == b0[node.vs := b1[node.vs]]
    requires match t
             case Null => node.kind == KNull
             case False => node.kind == KFalse
             case True => node.kind == KTrue
             case Number(d) => node.kind == KNumber && node.d == d && node.i == Saturate(d)
             case String(v) => node.kind == KString && StringAt(b1, node.vs, v)
             case _ => false
    ensures Filled(n0, b0, n0[item := node], b1, item, Shape(item, node.vs, node.name, []), t)
  {
    var s := Shape(item, node.vs, node.name, []);
    var n1 := n0[item := node];
    assert FpList([]) == {};
    assert n1.Keys == n0.Keys;
    assert Owns(n1, b1, s);
    assert Reads(n1, b1, s, t);
    assert Live(n1, b1) == Live(n0, b0) + Fp(s);
    assert Fp(s) - {item, s.name} !! Live(n0, b0);
  }

  /** Taking the new blocks away again restores the heap. */
  lemma Restored(n0: Nodes, b0: Blocks, n1: Nodes, b1: Blocks, fp: set<Ptr>)
    requires Disjunct(n0, b0) && Disjunct(n1, b1) && Extends(n0, b0, n1, b1, fp)
    ensures n1 - fp == n0 && b1 - fp == b0
  {
    forall q ensures q in n1 - fp <==> q in n0 {
      assert q in n1 ==> q in Live(n1, b1);
      assert q in n0 ==> q in Live(n0, b0);
    }
    forall q ensures q in b1 - fp <==> q in b0 {
      assert q in b1 ==> q in Live(n1, b1);
      assert q in b0 ==> q in Live(n0, b0);
    }
  }

  // ---- a child list under construction ----

  ghost predicate OpenRing(n: Nodes, kids: seq<Shape>) {
    forall i :: 0 <= i < |kids| ==>
      kids[i].p in n && n[kids[i].p].prev == (if i > 0 then Before(kids, i) else NIL)
  }

  function Last(kids: seq<Shape>): Ptr {
    if kids == [] then NIL else kids[|kids| - 1].p
  }

  /** The children parsed so far hang together, and they are all that was added to the heap. */
  ghost predicate Building(n0: Nodes, b0: Blocks, n1: Nodes, b1: Blocks, kids: seq<Shape>) {
    && OwnsList(n1, b1, kids) && OpenRing(n1, kids)
    && Extends(n0, b0, n1, b1, FpList(kids))
  }

  /** `new_item` attached behind the last child. */
  function Attached(n: Nodes, kids: seq<Shape>, item: Ptr): Nodes
    requires kids != [] ==> Last(kids) in n
  {
    if kids == [] then n[item := BLANK]
    else n[item := BLANK.(prev := Last(kids))][Last(kids) := n[Last(kids)].(next := item)]
  }

  lemma LastOwned(n: Nodes, b: Blocks, kids: seq<Shape>)
    requires OwnsList(n, b, kids) && kids != []
    ensures Last(kids) in n && Last(kids) != NIL && Last(kids) in FpList(kids)
  {
    assert Owns(n, b, kids[|kids| - 1]);
    assert Last(kids) in Fp(kids[|kids| - 1]);
  }

  /** Siblings other than the i-th do not own the i-th item. */
  lemma NotAmongOthers(list: seq<Shape>, i: nat, j: nat)
    requires Disjoint(list) && i < |list| && j < |list| && i != j
    ensures list[i].p !in Fp(list[j])
  {
    assert list[i].p in Fp(list[i]);
  }

  lemma AttachOwns(n1: Nodes, b1: Blocks, kids: seq<Shape>, item: Ptr, k: nat)
    requires Disjunct(n1, b1) && OwnsList(n1, b1, kids)
    requires item != NIL && item !in Live(n1, b1) && k < |kids|
    requires Last(kids) in n1
    ensures var n2 := Attached(n1, kids, item);
      && Owns(n2, b1, kids[k]) && kids[k].p in n1 && kids[k].p in n2
      && SameBody(n2[kids[k].p], n1[kids[k].p]) && Kept(n1, b1, n2, b1, Fp(kids[k]) - {kids[k].p})
      && n2[kids[k].p].prev == n1[kids[k].p].prev
      && (k + 1 < |kids| ==> n2[kids[k].p].next == n1[kids[k].p].next)
      && (k + 1 == |kids| ==> n2[kids[k].p].next == item)
  {
    hide OwnsList, Owns, FpList, Fp;
    var n2 := Attached(n1, kids, item);
    KidFacts(n1, b1, kids, item, k);
    assert n2.Keys == n1.Keys + {item};
    OwnsKept(n1, b1, n2, b1, kids[k]);
  }

  lemma KidFacts(n1: Nodes, b1: Blocks, kids: seq<Shape>, item: Ptr, k: nat)
    requires OwnsList(n1, b1, kids) && item !in Live(n1, b1) && k < |kids|
    ensures Owns(n1, b1, kids[k]) && kids[k].p in n1 && kids[k].p in Fp(kids[k]) && item !in Fp(kids[k])
    ensures Last(kids) in n1 && (k + 1 < |kids| ==> Last(kids) !in Fp(kids[k]))
  {
    hide FpList, Fp;
    var z := |kids| - 1;
    OwnedIsLive(n1, b1, kids[k]);
    assert Owns(n1, b1, kids[k]) && Owns(n1, b1, kids[z]);
    if k != z { NotAmongOthers(kids, z, k); }
  }

  lemma AttachBuilds(n0: Nodes, b0: Blocks, n1: Nodes, b1: Blocks, kids: seq<Shape>, item: Ptr)
    requires Disjunct(n0, b0) && Disjunct(n1, b1) && Building(n0, b0, n1, b1, kids)
    requires item != NIL && item !in Live(n1, b1)
    requires kids != [] ==> Last(kids) in n1
    ensures Building(n0, b0, Attached(n1, kids, item), b1, kids + [Shape(item, NIL, NIL, [])])
    ensures Disjunct(Attached(n1, kids, item), b1)
  {
    hide Owns, FpList, Fp, OwnsList, OpenRing, Extends, Attached;
    FpListLast(kids, Shape(item, NIL, NIL, []));
    FpOfBlank(item);
    if kids != [] { LastOwned(n1, b1, kids); }
    AttachOwnsList(n1, b1, kids, item);
    AttachRing(n1, b1, kids, item);
    AttachExtends(n0, b0, n1, b1, kids, item);
    AttachDisjunct(n1, b1, kids, item);
  }

  lemma FpOfBlank(item: Ptr)
    ensures Fp(Shape(item, NIL, NIL, [])) == {item}
  {
    assert FpList([]) == {};
  }

  lemma AttachDisjunct(n1: Nodes, b1: Blocks, kids: seq<Shape>, item: Ptr)
    requires Disjunct(n1, b1) && item != NIL && item !in Live(n1, b1)
    requires kids != [] ==> Last(kids) in n1
    ensures Disjunct(Attached(n1, kids, item), b1)
  {
    assert Attached(n1, kids, item).Keys == n1.Keys + {item};
  }

  lemma BlankOwned(n1: Nodes, b1: Blocks, kids: seq<Shape>, item: Ptr)
    requires OwnsList(n1, b1, kids) && item != NIL && item !in Live(n1, b1)
    requires kids != [] ==> Last(kids) in n1
    ensures var n2 := Attached(n1, kids, item);
      Owns(n2, b1, Shape(item, NIL, NIL, [])) && item in n2 && n2[item].next == NIL
  {
    hide OwnsList;
    assert FpList([]) == {};
    assert OwnsList(Attached(n1, kids, item), b1, []) by { NothingOwned(Attached(n1, kids, item), b1); }
  }

  lemma NothingOwned(n: Nodes, b: Blocks)
    ensures OwnsList(n, b, [])
  {
  }

  lemma AttachOwnsList(n1: Nodes, b1: Blocks, kids: seq<Shape>, item: Ptr)
    requires Disjunct(n1, b1) && OwnsList(n1, b1, kids)
    requires item != NIL && item !in Live(n1, b1)
    requires kids != [] ==> Last(kids) in n1
    ensures OwnsList(Attached(n1, kids, item), b1, kids + [Shape(item, NIL, NIL, [])])
  {
    hide Owns, FpList, Fp, Attached, Disjoint, Live;
    var n2 := Attached(n1, kids, item);
    var s := Shape(item, NIL, NIL, []);
    var all := kids + [s];
    FpOfBlank(item);
    BlankOwned(n1, b1, kids, item);
    OwnedListIsLive(n1, b1, kids);
    forall i | 0 <= i < |all|
      ensures Owns(n2, b1, all[i]) && all[i].p in n2 && all[i].p != NIL && n2[all[i].p].next == After(all, i)
    {
      if i < |kids| {
        AttachOwns(n1, b1, kids, item, i);
        assert n1[kids[i].p].next == After(kids, i);
      }
    }
    AttachDisjoint(kids, s);
  }

  lemma AttachRing(n1: Nodes, b1: Blocks, kids: seq<Shape>, item: Ptr)
    requires Disjunct(n1, b1) && OwnsList(n1, b1, kids) && OpenRing(n1, kids)
    requires item != NIL && item !in Live(n1, b1)
    requires kids != [] ==> Last(kids) in n1
    ensures OpenRing(Attached(n1, kids, item), kids + [Shape(item, NIL, NIL, [])])
  {
    hide OwnsList;
    var n2 := Attached(n1, kids, item);
    var all := kids + [Shape(item, NIL, NIL, [])];
    forall i | 0 <= i < |all|
      ensures all[i].p in n2 && n2[all[i].p].prev == (if i > 0 then Before(all, i) else NIL)
    {
      if i < |kids| {
        AttachOwns(n1, b1, kids, item, i);
        assert n1[kids[i].p].prev == (if i > 0 then Before(kids, i) else NIL);
      }
    }
  }

  lemma AttachDisjoint(kids: seq<Shape>, s: Shape)
    requires Disjoint(kids) && Fp(s) !! FpList(kids)
    ensures Disjoint(kids + [s])
  {
    hide Fp;
    var all := kids + [s];
    forall i, j | 0 <= i < j < |all| ensures Fp(all[i]) !! Fp(all[j]) {
      if j == |kids| {
        assert forall q :: q in Fp(kids[i]) ==> q in FpList(kids);
      }
    }
  }

  lemma AttachExtends(n0: Nodes, b0: Blocks, n1: Nodes, b1: Blocks, kids: seq<Shape>, item: Ptr)
    requires Extends(n0, b0, n1, b1, FpList(kids)) && item !in Live(n1, b1)
    requires kids != [] ==> Last(kids) in n1 && Last(kids) in FpList(kids)
    ensures Extends(n0, b0, Attached(n1, kids, item), b1, FpList(kids) + {item})
  {
    hide FpList;
    var n2 := Attached(n1, kids, item);
    assert Live(n2, b1) == Live(n1, b1) + {item};
  }

  /** The last child took on more blocks; the list as a whole is as sound as before. */
  lemma GrowLast(n0: Nodes, b0: Blocks, n1: Nodes, b1: Blocks, n2: Nodes, b2: Blocks, kids: seq<Shape>, s0: Shape,
                 s1: Shape)
    requires Disjunct(n1, b1) && Disjunct(n2, b2) && Building(n0, b0, n1, b1, kids + [s0])
    requires Grown(n1, b1, n2, b2, s0, s1)
    ensures Building(n0, b0, n2, b2, kids + [s1])
    ensures KidsKept(n1, b1, n2, b2, kids)
  {
    hide FpList, Fp, OwnsList, OpenRing, Extends, Owns, Grown;
    GrowOwns(n1, b1, n2, b2, kids, s0, s1);
    GrowRing(n1, b1, n2, b2, kids, s0, s1);
    FpListLast(kids, s0);
    FpListLast(kids, s1);
    GrowExtends(n0, b0, n1, b1, n2, b2, FpList(kids), s0, s1);
  }

  ghost predicate Grown(n1: Nodes, b1: Blocks, n2: Nodes, b2: Blocks, s0: Shape, s1: Shape) {
    && s1.p == s0.p && s1.p in n1 && s1.p in n2 && Owns(n2, b2, s1)
    && n2[s1.p].next == n1[s1.p].next && n2[s1.p].prev == n1[s1.p].prev
    && (forall q :: q in n1 && q != s1.p ==> q in n2 && n2[q] == n1[q])
    && (forall q :: q in b1 ==> q in b2 && b2[q] == b1[q])
    && Live(n2, b2) == Live(n1, b1) + Fp(s1)
    && Fp(s0) <= Fp(s1) && Fp(s1) - Fp(s0) !! Live(n1, b1)
  }

  /** Earlier children kept their bodies and everything below them. */
  ghost predicate KidsKept(n: Nodes, b: Blocks, n': Nodes, b': Blocks, kids: seq<Shape>) {
    forall i :: 0 <= i < |kids| ==>
      && kids[i].p in n && kids[i].p in n' && SameBody(n'[kids[i].p], n[kids[i].p])
      && Kept(n, b, n', b', Fp(kids[i]) - {kids[i].p})
  }

  lemma PrefixOwned(n: Nodes, b: Blocks, kids: seq<Shape>, s: Shape, i: nat)
    requires OwnsList(n, b, kids + [s]) && i < |kids|
    ensures Owns(n, b, kids[i]) && kids[i].p in n && kids[i].p != NIL
    ensures Fp(kids[i]) !! Fp(s) && s.p !in Fp(kids[i]) && Fp(kids[i]) <= Live(n, b)
    ensures n[kids[i].p].next == After(kids + [s], i)
  {
    var all := kids + [s];
    assert all[i] == kids[i] && all[|kids|] == s;
    OwnedIsLive(n, b, all[i]);
  }

  lemma GrowOwns(n1: Nodes, b1: Blocks, n2: Nodes, b2: Blocks, kids: seq<Shape>, s0: Shape, s1: Shape)
    requires Disjunct(n1, b1) && Disjunct(n2, b2) && OwnsList(n1, b1, kids + [s0]) && Grown(n1, b1, n2, b2, s0, s1)
    ensures OwnsList(n2, b2, kids + [s1]) && KidsKept(n1, b1, n2, b2, kids)
  {
    hide Fp, Owns, Disjoint;
    var old0, all := kids + [s0], kids + [s1];
    assert n1[s0.p].next == NIL && s0.p != NIL by { assert old0[|kids|] == s0 && After(old0, |kids|) == NIL; }
    forall i | 0 <= i < |kids|
      ensures Owns(n2, b2, kids[i]) && kids[i].p in n1 && kids[i].p in n2 && kids[i].p != NIL
      ensures n2[kids[i].p] == n1[kids[i].p] && n1[kids[i].p].next == After(old0, i)
      ensures Kept(n1, b1, n2, b2, Fp(kids[i]) - {kids[i].p}) && Fp(kids[i]) !! Fp(s1)
    {
      PrefixOwned(n1, b1, kids, s0, i);
      assert kids[i].p in Fp(kids[i]);
      OwnsKept(n1, b1, n2, b2, kids[i]);
    }
    forall i | 0 <= i < |all| ensures Owns(n2, b2, all[i]) && all[i].p in n2 && all[i].p != NIL
      ensures n2[all[i].p].next == After(all, i)
    {
      if i < |kids| { assert After(all, i) == After(old0, i); }
    }
    LastReplaced(kids, s0, s1);
  }

  lemma LastReplaced(kids: seq<Shape>, s0: Shape, s1: Shape)
    requires Disjoint(kids + [s0]) && forall i :: 0 <= i < |kids| ==> Fp(kids[i]) !! Fp(s1)
    ensures Disjoint(kids + [s1])
  {
    hide Fp;
    var old0, all := kids + [s0], kids + [s1];
    forall i, j | 0 <= i < j < |all| ensures Fp(all[i]) !! Fp(all[j]) {
      if j < |kids| { assert all[i] == old0[i] && all[j] == old0[j]; }
    }
  }

  lemma GrowRing(n1: Nodes, b1: Blocks, n2: Nodes, b2: Blocks, kids: seq<Shape>, s0: Shape, s1: Shape)
    requires OwnsList(n1, b1, kids + [s0]) && OpenRing(n1, kids + [s0]) && Grown(n1, b1, n2, b2, s0, s1)
    ensures OpenRing(n2, kids + [s1])
  {
    hide Fp, Owns, OwnsList;
    var old0, all := kids + [s0], kids + [s1];
    forall i | 0 <= i < |all|
      ensures all[i].p in n2 && n2[all[i].p].prev == (if i > 0 then Before(all, i) else NIL)
    {
      assert all[i].p == old0[i].p;
      assert n1[old0[i].p].prev == (if i > 0 then Before(old0, i) else NIL);
      if i > 0 { assert Before(all, i) == Before(old0, i); }
      if i < |kids| { PrefixOwned(n1, b1, kids, s0, i); }
    }
  }

  lemma GrowExtends(n0: Nodes, b0: Blocks, n1: Nodes, b1: Blocks, n2: Nodes, b2: Blocks, fp: set<Ptr>, s0: Shape,
                    s1: Shape)
    requires Extends(n0, b0, n1, b1, fp + Fp(s0)) && Grown(n1, b1, n2, b2, s0, s1)
    ensures Extends(n0, b0, n2, b2, fp + Fp(s1))
  {
    hide Fp, Owns;
    assert s1.p in Fp(s0);
  }

  // ---- earlier children still read as they did ----

  lemma AttachKeepsKids(n1: Nodes, b1: Blocks, kids: seq<Shape>, item: Ptr)
    requires Disjunct(n1, b1) && OwnsList(n1, b1, kids)
    requires item != NIL && item !in Live(n1, b1)
    requires kids != [] ==> Last(kids) in n1
    ensures KidsKept(n1, b1, Attached(n1, kids, item), b1, kids)
  {
    hide Fp, Owns, OwnsList, Attached;
    forall i | 0 <= i < |kids|
      ensures var n2 := Attached(n1, kids, item);
        && kids[i].p in n1 && kids[i].p in n2 && SameBody(n2[kids[i].p], n1[kids[i].p])
        && Kept(n1, b1, n2, b1, Fp(kids[i]) - {kids[i].p})
    {
      AttachOwns(n1, b1, kids, item, i);
    }
  }

  lemma ItemsStillRead(n: Nodes, b: Blocks, n': Nodes, b': Blocks, kids: seq<Shape>, items: seq<Json>)
    requires Disjunct(n, b) && Disjunct(n', b')
    requires (forall i :: 0 <= i < |kids| ==> Owns(n, b, kids[i])) && KidsKept(n, b, n', b', kids)
    requires ReadsItems(n, b, kids, items)
    ensures ReadsItems(n', b', kids, items)
  {
    hide Fp, Owns, Reads;
    forall i | 0 <= i < |kids| ensures Reads(n', b', kids[i], items[i]) {
      assert Owns(n, b, kids[i]);
      ReadsKept(n, b, n', b', kids[i], items[i]);
    }
  }

  lemma MembersStillRead(n: Nodes, b: Blocks, n': Nodes, b': Blocks, kids: seq<Shape>, members: seq<Member>)
    requires Disjunct(n, b) && Disjunct(n', b')
    requires (forall i :: 0 <= i < |kids| ==> Owns(n, b, kids[i])) && KidsKept(n, b, n', b', kids)
    requires ReadsMembers(n, b, kids, members)
    ensures ReadsMembers(n', b', kids, members)
  {
    hide Fp, Owns, Reads;
    forall i | 0 <= i < |kids|
      ensures Reads(n', b', kids[i], members[i].value)
      ensures kids[i].p in n' && StringAt(b', n'[kids[i].p].name, members[i].key)
    {
      assert Owns(n, b, kids[i]);
      ReadsKept(n, b, n', b', kids[i], members[i].value);
      KeyKept(n, b, n', b', kids[i]);
    }
  }

  lemma KeyKept(n: Nodes, b: Blocks, n': Nodes, b': Blocks, s: Shape)
    requires Disjunct(n, b) && Disjunct(n', b') && Owns(n, b, s)
    requires s.p in n' && SameBody(n'[s.p], n[s.p]) && Kept(n, b, n', b', Fp(s) - {s.p})
    ensures forall v :: StringAt(b, n[s.p].name, v) ==> StringAt(b', n'[s.p].name, v)
  {
    if s.name != NIL { assert s.name in Fp(s); }
  }

  lemma FpAlone(s: Shape)
    ensures FpList([s]) == Fp(s)
  {
    hide Fp;
    assert FpList([]) == {};
    FpListLast([], s);
    assert [] + [s] == [s];
  }

  lemma OwnedAddress(n: Nodes, b: Blocks, s: Shape)
    requires Owns(n, b, s)
    ensures s.p in n && s.p != NIL
  {
  }

  lemma AloneOwned(n: Nodes, b: Blocks, s: Shape)
    requires Owns(n, b, s) && n[s.p].next == NIL
    ensures OwnsList(n, b, [s]) && FpList([s]) == Fp(s)
  {
    hide Owns, Fp, FpList;
    OwnedAddress(n, b, s);
    FpAlone(s);
    assert After([s], 0) == NIL;
  }

  // ---- closing the list ----

  /** What `success:` writes: the first child's `prev`, then the parent. */
  function Closed(n: Nodes, kids: seq<Shape>, item: Ptr, kind: Kind): Nodes
    requires item in n && (kids != [] ==> kids[0].p in n)
  {
    var n' := if kids == [] then n else n[kids[0].p := n[kids[0].p].(prev := Last(kids))];
    n'[item := n'[item].(kind := kind, child := Head(kids))]
  }

  lemma CloseKid(n1: Nodes, b1: Blocks, kids: seq<Shape>, item: Ptr, kind: Kind, i: nat)
    requires Disjunct(n1, b1) && OwnsList(n1, b1, kids) && OpenRing(n1, kids) && i < |kids|
    requires item in n1 && item !in FpList(kids) && kids[0].p in n1
    ensures var n2, k := Closed(n1, kids, item, kind), kids[i];
      && Owns(n1, b1, k) && Owns(n2, b1, k)
      && k.p in n1 && k.p in n2 && k.p != NIL && SameBody(n2[k.p], n1[k.p])
      && n2[k.p].next == After(kids, i) && n2[k.p].prev == Before(kids, i)
      && Kept(n1, b1, n2, b1, Fp(k) - {k.p})
  {
    hide Owns, FpList, Fp, Disjoint;
    var n2, k := Closed(n1, kids, item, kind), kids[i];
    assert n2.Keys == n1.Keys;
    InList(kids, i, item);
    assert Owns(n1, b1, k);
    assert n1[k.p].next == After(kids, i);
    assert n1[k.p].prev == (if i > 0 then Before(kids, i) else NIL);
    if i > 0 { NotAmongOthers(kids, 0, i); }
    OwnsKept(n1, b1, n2, b1, k);
  }

  lemma InList(kids: seq<Shape>, i: nat, q: Ptr)
    requires i < |kids|
    ensures kids[i].p in FpList(kids)
    ensures q in Fp(kids[i]) ==> q in FpList(kids)
  {
    hide Fp;
    assert kids[i].p in Fp(kids[i]);
  }

  lemma CloseReads(n1: Nodes, b1: Blocks, kids: seq<Shape>, item: Ptr, kind: Kind)
    requires Disjunct(n1, b1) && OwnsList(n1, b1, kids) && OpenRing(n1, kids)
    requires item in n1 && item !in FpList(kids) && (kids != [] ==> kids[0].p in n1)
    ensures var n2 := Closed(n1, kids, item, kind);
      && OwnsList(n2, b1, kids) && Ring(n2, kids) && KidsKept(n1, b1, n2, b1, kids)
      && (forall i :: 0 <= i < |kids| ==> Owns(n1, b1, kids[i]))
  {
    hide Fp, Owns, FpList, Closed;
    var n2 := Closed(n1, kids, item, kind);
    forall i | 0 <= i < |kids|
      ensures Owns(n1, b1, kids[i]) && Owns(n2, b1, kids[i])
      ensures kids[i].p in n1 && kids[i].p in n2 && kids[i].p != NIL && SameBody(n2[kids[i].p], n1[kids[i].p])
      ensures n2[kids[i].p].next == After(kids, i) && n2[kids[i].p].prev == Before(kids, i)
      ensures Kept(n1, b1, n2, b1, Fp(kids[i]) - {kids[i].p})
    {
      CloseKid(n1, b1, kids, item, kind, i);
    }
  }

  lemma ItemNotAmongKids(n0: Nodes, b0: Blocks, n1: Nodes, b1: Blocks, kids: seq<Shape>, item: Ptr, kind: Kind)
    requires Disjunct(n1, b1) && Extends(n0, b0, n1, b1, FpList(kids)) && item in n0
    requires kids != [] ==> kids[0].p in n1
    ensures item in n1 && n1[item] == n0[item] && item !in FpList(kids)
    ensures Disjunct(Closed(n1, kids, item, kind), b1)
    ensures item in Closed(n1, kids, item, kind)
    ensures Closed(n1, kids, item, kind)[item] == n0[item].(kind := kind, child := Head(kids))
  {
    hide FpList;
    assert item in Live(n0, b0);
    if kids != [] { InList(kids, 0, item); }
    assert Closed(n1, kids, item, kind).Keys == n1.Keys;
  }

  ghost predicate KidsRead(n: Nodes, b: Blocks, kids: seq<Shape>, kind: Kind, t: Json) {
    || (kind == KArray && t.Array? && ReadsItems(n, b, kids, t.items))
    || (kind == KObject && t.Object? && ReadsMembers(n, b, kids, t.members))
  }

  lemma CloseFills(n0: Nodes, b0: Blocks, n1: Nodes, b1: Blocks, kids: seq<Shape>, item: Ptr, t: Json, kind: Kind)
    requires Disjunct(n0, b0) && Disjunct(n1, b1) && Building(n0, b0, n1, b1, kids) && Vacant(n0, b0, item)
    requires kids != [] ==> kids[0].p in n1
    requires KidsRead(n1, b1, kids, kind, t)
    ensures Filled(n0, b0, Closed(n1, kids, item, kind), b1, item, Shape(item, NIL, n0[item].name, kids), t)
    ensures Disjunct(Closed(n1, kids, item, kind), b1)
  {
    hide OwnsList, OpenRing, Extends, FpList, Fp, Owns, Reads, Closed, Ring, ReadsItems, ReadsMembers, KidsKept;
    ItemNotAmongKids(n0, b0, n1, b1, kids, item, kind);
    var n2 := Closed(n1, kids, item, kind);
    CloseReads(n1, b1, kids, item, kind);
    if kind == KArray {
      ItemsStillRead(n1, b1, n2, b1, kids, t.items);
    } else {
      MembersStillRead(n1, b1, n2, b1, kids, t.members);
    }
    CloseOwns(n0, b0, n1, b1, n2, kids, item, t, kind);
    CloseLive(n0, b0, n1, b1, kids, item, kind);
  }

  lemma CloseOwns(n0: Nodes, b0: Blocks, n1: Nodes, b1: Blocks, n2: Nodes, kids: seq<Shape>, item: Ptr, t: Json,
                  kind: Kind)
    requires Disjunct(n0, b0) && Vacant(n0, b0, item) && Extends(n0, b0, n1, b1, FpList(kids)) && Disjunct(n2, b1)
    requires item in n2 && n2[item] == n0[item].(kind := kind, child := Head(kids))
    requires OwnsList(n2, b1, kids) && Ring(n2, kids) && KidsRead(n2, b1, kids, kind, t) && item !in FpList(kids)
    ensures Owns(n2, b1, Shape(item, NIL, n0[item].name, kids))
    ensures Reads(n2, b1, Shape(item, NIL, n0[item].name, kids), t)
  {
    hide OwnsList, FpList, Ring, ReadsItems, ReadsMembers;
  }

  lemma CloseLive(n0: Nodes, b0: Blocks, n1: Nodes, b1: Blocks, kids: seq<Shape>, item: Ptr, kind: Kind)
    requires Disjunct(n0, b0) && Disjunct(n1, b1) && Building(n0, b0, n1, b1, kids) && Vacant(n0, b0, item)
    requires kids != [] ==> kids[0].p in n1
    ensures var n2, s := Closed(n1, kids, item, kind), Shape(item, NIL, n0[item].name, kids);
      && Live(n2, b1) == Live(n0, b0) + Fp(s) && Fp(s) - {item, s.name} !! Live(n0, b0)
      && (forall q :: q in n0 && q != item ==> q in n2 && n2[q] == n0[q])
      && (forall q :: q in b0 ==> q in b1 && b1[q] == b0[q])
  {
    hide OwnsList, OpenRing, FpList, Live, Closed, Fp;
    ItemNotAmongKids(n0, b0, n1, b1, kids, item, kind);
    ClosedKeeps(n0, b0, n1, b1, kids, item, kind);
    FpOfParent(n0, b0, kids, item);
  }

  lemma ClosedKeeps(n0: Nodes, b0: Blocks, n1: Nodes, b1: Blocks, kids: seq<Shape>, item: Ptr, kind: Kind)
    requires Extends(n0, b0, n1, b1, FpList(kids)) && item in n1 && (kids != [] ==> kids[0].p in n1)
    ensures var n2 := Closed(n1, kids, item, kind);
      && Live(n2, b1) == Live(n1, b1) && (forall q :: q in n0 && q != item ==> q in n2 && n2[q] == n0[q])
  {
    hide FpList;
    assert Closed(n1, kids, item, kind).Keys == n1.Keys;
    if kids != [] {
      InList(kids, 0, item);
      assert kids[0].p !in Live(n0, b0);
    }
  }

  lemma FpOfParent(n: Nodes, b: Blocks, kids: seq<Shape>, item: Ptr)
    requires Vacant(n, b, item)
    ensures var s := Shape(item, NIL, n[item].name, kids);
      && Live(n, b) + Fp(s) == Live(n, b) + FpList(kids) && Fp(s) - {item, s.name} <= FpList(kids)
  {
    hide FpList;
  }
}
