/**
 * cJSON items in memory. An address is live when it is a key of one of the two maps, so every
 * dereference below is also a check that the block has been allocated and not freed, and every
 * `free` a check that it is not freed twice.
 */
module JsonHeap {
  import opened Bytes
  import opened JsonText

  type Ptr = nat

  const NIL: Ptr := 0

  datatype Kind = KInvalid | KNull | KFalse | KTrue | KNumber | KString | KArray | KObject

  datatype Node = Node(next: Ptr, prev: Ptr, child: Ptr, kind: Kind, vs: Ptr, i: int, d: real, name: Ptr)

  const BLANK := Node(NIL, NIL, NIL, KInvalid, NIL, 0, 0.0, NIL)

  type Nodes = map<Ptr, Node>
  type Blocks = map<Ptr, bytes>

  function Live(n: Nodes, b: Blocks): set<Ptr> { n.Keys + b.Keys }

  /** No address is both an item and a byte block, and neither is NULL. */
  predicate Disjunct(n: Nodes, b: Blocks) {
    NIL !in n && NIL !in b && n.Keys !! b.Keys
  }

  // ---- who owns what ----

  /** The addresses one item owns: itself, its value string, its key, its children. */
  datatype Shape = Shape(p: Ptr, vs: Ptr, name: Ptr, kids: seq<Shape>)

  ghost function Own(s: Shape): set<Ptr> {
    {s.p} + (if s.vs == NIL then {} else {s.vs}) + (if s.name == NIL then {} else {s.name})
  }

  ghost function Fp(s: Shape): set<Ptr>
    ensures s.p in Fp(s)
    decreases s, 1
  {
    Own(s) + FpList(s.kids)
  }

  ghost function FpList(list: seq<Shape>): set<Ptr>
    decreases list, 0
  {
    set i, q | 0 <= i < |list| && q in Fp(list[i]) :: q
  }

  function Head(list: seq<Shape>): Ptr { if list == [] then NIL else list[0].p }

  ghost predicate Disjoint(list: seq<Shape>) {
    forall i, j :: 0 <= i < j < |list| ==> Fp(list[i]) !! Fp(list[j])
  }

  /** Where the `next` of the i-th sibling leads. */
  function After(list: seq<Shape>, i: nat): Ptr {
    if i + 1 < |list| then list[i + 1].p else NIL
  }

  /** Where the `prev` of the i-th sibling leads: the first one points at the last. */
  function Before(list: seq<Shape>, i: nat): Ptr
    requires i < |list|
  {
    if i > 0 then list[i - 1].p else list[|list| - 1].p
  }

  ghost predicate Chained(n: Nodes, list: seq<Shape>) {
    forall i :: 0 <= i < |list| ==>
      && list[i].p in n && list[i].p != NIL
      && n[list[i].p].next == After(list, i)
  }

  /** `s` describes the item at `s.p` and everything below it, with nothing shared. */
  ghost predicate Owns(n: Nodes, b: Blocks, s: Shape)
    decreases s, 1
  {
    && s.p in n && s.p !in b && s.p != NIL
    && n[s.p].child == Head(s.kids) && n[s.p].vs == s.vs && n[s.p].name == s.name
    && (s.vs != NIL ==> s.vs in b && s.vs != s.name)
    && (s.name != NIL ==> s.name in b)
    && Own(s) !! FpList(s.kids)
    && OwnsList(n, b, s.kids)
  }

  ghost predicate OwnsList(n: Nodes, b: Blocks, list: seq<Shape>)
    decreases list, 0
  {
    && (forall i :: 0 <= i < |list| ==> Owns(n, b, list[i]))
    && Chained(n, list)
    && Disjoint(list)
  }

  // ---- what an item stands for ----

  /** The NUL-terminated string at `p` is `v`; NULL stands for the empty string. */
  predicate StringAt(b: Blocks, p: Ptr, v: bytes) {
    if p == NIL then v == [] else p in b && CStr(b[p]) == v && |v| < |b[p]|
  }

  /** The sibling ring: `prev` walks back, and the first item's `prev` is the last item. */
  ghost predicate Ring(n: Nodes, list: seq<Shape>) {
    forall i :: 0 <= i < |list| ==>
      && list[i].p in n
      && n[list[i].p].prev == Before(list, i)
  }

  /** The item at `s.p` reads as the tree `t`, with every child list a proper ring. */
  ghost predicate Reads(n: Nodes, b: Blocks, s: Shape, t: Json)
    decreases t, 1
  {
    && s.p in n
    && match t
       case Null => n[s.p].kind == KNull && s.kids == []
       case False => n[s.p].kind == KFalse && s.kids == []
       case True => n[s.p].kind == KTrue && s.kids == []
       case Number(d) => n[s.p].kind == KNumber && n[s.p].d == d && n[s.p].i == Saturate(d) && s.kids == []
       case String(v) => n[s.p].kind == KString && StringAt(b, n[s.p].vs, v) && s.kids == []
       case Array(items) => n[s.p].kind == KArray && ReadsItems(n, b, s.kids, items) && Ring(n, s.kids)
       case Object(members) => n[s.p].kind == KObject && ReadsMembers(n, b, s.kids, members) && Ring(n, s.kids)
  }

  ghost predicate ReadsItems(n: Nodes, b: Blocks, list: seq<Shape>, items: seq<Json>)
    decreases items, 0
  {
    |list| == |items| && forall i :: 0 <= i < |list| ==> Reads(n, b, list[i], items[i])
  }

  ghost predicate ReadsMembers(n: Nodes, b: Blocks, list: seq<Shape>, members: seq<Member>)
    decreases members, 0
  {
    |list| == |members| && forall i :: 0 <= i < |list| ==>
      && Reads(n, b, list[i], members[i].value)
      && list[i].p in n && StringAt(b, n[list[i].p].name, members[i].key)
  }

  // ---- framing ----

  predicate SameBody(x: Node, y: Node) { x == y.(next := x.next, prev := x.prev) }

  /** Everything in `fp` that was live still is, unchanged. */
  ghost predicate Kept(n: Nodes, b: Blocks, n': Nodes, b': Blocks, fp: set<Ptr>) {
    && (forall q :: q in fp && q in n ==> q in n' && n'[q] == n[q])
    && (forall q :: q in fp && q in b ==> q in b' && b'[q] == b[q])
  }

  /** An item owns what it did as long as only its own sibling links changed. */
  lemma {:induction false} OwnsKept(n: Nodes, b: Blocks, n': Nodes, b': Blocks, s: Shape)
    requires Owns(n, b, s)
    requires s.p in n' && SameBody(n'[s.p], n[s.p]) && Kept(n, b, n', b', Fp(s) - {s.p})
    requires n'.Keys !! b'.Keys
    ensures Owns(n', b', s)
    decreases s, 1
  {
    OwnsListKept(n, b, n', b', s.kids);
  }

  lemma {:induction false} OwnsListKept(n: Nodes, b: Blocks, n': Nodes, b': Blocks, list: seq<Shape>)
    requires OwnsList(n, b, list) && Kept(n, b, n', b', FpList(list)) && n'.Keys !! b'.Keys
    ensures OwnsList(n', b', list)
    decreases list, 0
  {
    forall i | 0 <= i < |list| ensures Owns(n', b', list[i]) && n'[list[i].p] == n[list[i].p] {
      assert Owns(n, b, list[i]) && list[i].p in Fp(list[i]);
      OwnsKept(n, b, n', b', list[i]);
    }
  }

  lemma {:induction false} ReadsKept(n: Nodes, b: Blocks, n': Nodes, b': Blocks, s: Shape, t: Json)
    requires Owns(n, b, s) && Reads(n, b, s, t)
    requires s.p in n' && SameBody(n'[s.p], n[s.p]) && Kept(n, b, n', b', Fp(s) - {s.p})
    requires NIL !in b && NIL !in b'
    ensures Reads(n', b', s, t)
    decreases t, 1
  {
    hide Owns, Fp;
    match t
    case Array(items) =>
      forall i | 0 <= i < |s.kids| ensures Reads(n', b', s.kids[i], items[i]) && n'[s.kids[i].p] == n[s.kids[i].p] {
        KidKept(n, b, n', b', s, i);
        ReadsKept(n, b, n', b', s.kids[i], items[i]);
      }
    case Object(members) =>
      forall i | 0 <= i < |s.kids|
        ensures Reads(n', b', s.kids[i], members[i].value) && n'[s.kids[i].p] == n[s.kids[i].p]
        ensures StringAt(b', n'[s.kids[i].p].name, members[i].key)
      {
        KidKept(n, b, n', b', s, i);
        ReadsKept(n, b, n', b', s.kids[i], members[i].value);
      }
    case _ => OwnStringKept(n, b, n', b', s);
  }

  lemma OwnStringKept(n: Nodes, b: Blocks, n': Nodes, b': Blocks, s: Shape)
    requires Owns(n, b, s) && Kept(n, b, n', b', Fp(s) - {s.p})
    ensures s.p in n && n[s.p].vs == s.vs && n[s.p].name == s.name
    ensures s.vs != NIL ==> s.vs in b && s.vs in b' && b'[s.vs] == b[s.vs]
    ensures s.name != NIL ==> s.name in b && s.name in b' && b'[s.name] == b[s.name]
  {
    hide OwnsList, FpList;
    assert s.vs != NIL ==> s.vs in Fp(s);
    assert s.name != NIL ==> s.name in Fp(s);
  }

  lemma KidKept(n: Nodes, b: Blocks, n': Nodes, b': Blocks, s: Shape, i: nat)
    requires Owns(n, b, s) && i < |s.kids| && Kept(n, b, n', b', Fp(s) - {s.p})
    ensures var k := s.kids[i];
      && Owns(n, b, k) && k.p in n && k.p in n' && n'[k.p] == n[k.p]
      && Kept(n, b, n', b', Fp(k) - {k.p}) && Fp(k) <= Fp(s)
      && n[k.p].name == k.name
      && (k.name != NIL ==> k.name in b && k.name in b' && b'[k.name] == b[k.name])
  {
    var k := s.kids[i];
    assert Owns(n, b, k);
    assert forall q :: q in Fp(k) ==> q in FpList(s.kids);
    assert s.p !in Fp(k);
    OwnStringKept(n, b, n', b', k);
  }

  /** What is owned is live. */
  lemma {:induction false} OwnedIsLive(n: Nodes, b: Blocks, s: Shape)
    requires Owns(n, b, s)
    ensures Fp(s) <= Live(n, b)
    decreases s, 1
  {
    OwnedListIsLive(n, b, s.kids);
  }

  lemma {:induction false} OwnedListIsLive(n: Nodes, b: Blocks, list: seq<Shape>)
    requires OwnsList(n, b, list)
    ensures FpList(list) <= Live(n, b)
    decreases list, 0
  {
    forall i | 0 <= i < |list| ensures Fp(list[i]) <= Live(n, b) { OwnedIsLive(n, b, list[i]); }
  }

  lemma FpListFirst(list: seq<Shape>)
    requires list != []
    ensures FpList(list) == Fp(list[0]) + FpList(list[1..])
    ensures Disjoint(list) ==> Fp(list[0]) !! FpList(list[1..])
  {
    hide Fp;
    var rest := list[1..];
    forall q | q in FpList(list) ensures q in Fp(list[0]) + FpList(rest) {
      var i :| 0 <= i < |list| && q in Fp(list[i]);
      if i > 0 { assert list[i] == rest[i - 1]; }
    }
    forall q | q in FpList(rest) ensures q in FpList(list) {
      var i :| 0 <= i < |rest| && q in Fp(rest[i]);
      assert list[i + 1] == rest[i];
    }
    if Disjoint(list) {
      forall q | q in FpList(rest) ensures q !in Fp(list[0]) {
        var i :| 0 <= i < |rest| && q in Fp(rest[i]);
        assert list[i + 1] == rest[i];
      }
    }
  }

  lemma FpListLast(list: seq<Shape>, s: Shape)
    ensures FpList(list + [s]) == FpList(list) + Fp(s)
  {
    hide Fp;
    var all := list + [s];
    forall q | q in FpList(all) ensures q in FpList(list) + Fp(s) {
      var i :| 0 <= i < |all| && q in Fp(all[i]);
      if i < |list| { assert list[i] == all[i]; }
    }
    forall q | q in FpList(list) ensures q in FpList(all) {
      var i :| 0 <= i < |list| && q in Fp(list[i]);
      assert all[i] == list[i];
    }
    assert all[|list|] == s;
  }

  /** The memory the parser allocates from; the k-th request succeeds iff `grants(k)`. */
  class Heap {
    var nodes: Nodes
    var blocks: Blocks
    const grants: nat -> bool
    var calls: nat
    /** Requests refused so far. */
    var refused: nat

    constructor (grants: nat -> bool)
      ensures nodes == map[] && blocks == map[] && calls == 0 && refused == 0 && this.grants == grants && Valid()
    {
      nodes, blocks, calls, refused := map[], map[], 0, 0;
      this.grants := grants;
    }

    ghost predicate Valid()
      reads this
    {
      Disjunct(nodes, blocks)
    }

    /** Any address that is not in use. */
    ghost function Largest(s: set<Ptr>): (m: Ptr)
      ensures forall q :: q in s ==> q <= m
    {
      if s == {} then 0
      else
        var x :| x in s;
        var m := Largest(s - {x});
        assert forall q :: q in s ==> q == x || q in s - {x};
        if x > m then x else m
    }

    method FreeAddress() returns (p: Ptr)
      ensures p != NIL && p !in nodes && p !in blocks
    {
      ghost var m := Largest(nodes.Keys + blocks.Keys);
      assert m + 1 !in nodes && m + 1 !in blocks;
      p :| p != NIL && p !in nodes && p !in blocks;
    }

    /** `cJSON_New_Item`: a zeroed item, or NULL. */
    method NewItem() returns (p: Ptr)
      requires Valid()
      modifies this
      ensures Valid() && calls == old(calls) + 1
      ensures (p != NIL) == old(grants(calls))
      ensures refused == old(refused) + (if p == NIL then 1 else 0)
      ensures blocks == old(blocks)
      ensures p == NIL ==> nodes == old(nodes)
      ensures p != NIL ==> p !in old(nodes) && p !in old(blocks) && nodes == old(nodes)[p := BLANK]
    {
      if grants(calls) {
        p := FreeAddress();
        nodes := nodes[p := BLANK];
      } else {
        p := NIL;
        refused := refused + 1;
      }
      calls := calls + 1;
    }

    /** `allocate(size)` for bytes, with unspecified contents. */
    method NewBlock(size: nat) returns (p: Ptr)
      requires Valid()
      modifies this
      ensures Valid() && calls == old(calls) + 1
      ensures (p != NIL) == old(grants(calls))
      ensures refused == old(refused) + (if p == NIL then 1 else 0)
      ensures nodes == old(nodes)
      ensures p == NIL ==> blocks == old(blocks)
      ensures p != NIL ==> p !in old(nodes) && p !in old(blocks)
      ensures p != NIL ==> p in blocks && |blocks[p]| == size && blocks == old(blocks)[p := blocks[p]]
    {
      if grants(calls) {
        p := FreeAddress();
        blocks := blocks[p := seq(size, _ => 0)];
      } else {
        p := NIL;
        refused := refused + 1;
      }
      calls := calls + 1;
    }

    method FreeBlock(p: Ptr)
      requires Valid() && p in blocks
      modifies this`blocks
      ensures Valid() && blocks == old(blocks) - {p}
    {
      blocks := blocks - {p};
    }

    method FreeItem(p: Ptr)
      requires Valid() && p in nodes
      modifies this`nodes
      ensures Valid() && nodes == old(nodes) - {p}
    {
      nodes := nodes - {p};
    }

    /** `cJSON_Delete`: frees the item, its younger siblings and everything below, each block once. */
    method Delete(first: Ptr, ghost list: seq<Shape>)
      requires Valid() && OwnsList(nodes, blocks, list) && first == Head(list)
      modifies this`nodes, this`blocks
      ensures Valid()
      ensures nodes == old(nodes) - FpList(list) && blocks == old(blocks) - FpList(list)
      decreases list
    {
      hide OwnsList, FpList, Owns, Fp;
      var item := first;
      ghost var rest := list;
      ghost var freed: set<Ptr> := {};
      while item != NIL
        invariant Valid() && OwnsList(nodes, blocks, rest) && item == Head(rest)
        invariant freed !! FpList(rest) && freed + FpList(rest) == FpList(list)
        invariant nodes == old(nodes) - freed && blocks == old(blocks) - freed
        invariant |rest| <= |list| && rest == list[|list| - |rest|..]
        decreases |rest|
      {
        ghost var s := rest[0];
        ghost var n0, b0 := nodes, blocks;
        FirstOwned(nodes, blocks, rest);
        var next := nodes[item].next;
        DeleteBelow(item, s);
        OwnsListKept(n0, b0, nodes, blocks, rest[1..]);
        freed := freed + Fp(s);
        item := next;
        rest := rest[1..];
      }
      EmptyList(nodes, blocks, rest);
    }

    /** One round of that loop: the children, the two strings, the item. */
    method DeleteBelow(item: Ptr, ghost s: Shape)
      requires Valid() && Owns(nodes, blocks, s) && item == s.p
      modifies this`nodes, this`blocks
      ensures Valid()
      ensures nodes == old(nodes) - Fp(s) && blocks == old(blocks) - Fp(s)
      decreases s
    {
      hide OwnsList, FpList, Owns, Own, Head;
      ItemOwned(nodes, blocks, s);
      if nodes[item].child != NIL {
        Delete(nodes[item].child, s.kids);
      } else {
        NoKids(nodes, blocks, s);
      }
      FreeOwn(item, s);
    }

    /** The end of that round: the two strings and the item itself. */
    method FreeOwn(item: Ptr, ghost s: Shape)
      requires Valid() && item == s.p && item in nodes && nodes[item].vs == s.vs && nodes[item].name == s.name
      requires s.vs != NIL ==> s.vs in blocks && s.vs != s.name
      requires s.name != NIL ==> s.name in blocks
      modifies this`nodes, this`blocks
      ensures Valid()
      ensures nodes == old(nodes) - Own(s) && blocks == old(blocks) - Own(s)
    {
      if nodes[item].vs != NIL {
        FreeBlock(nodes[item].vs);
        nodes := nodes[item := nodes[item].(vs := NIL)];
      }
      if nodes[item].name != NIL {
        FreeBlock(nodes[item].name);
        nodes := nodes[item := nodes[item].(name := NIL)];
      }
      FreeItem(item);
    }
  }

  lemma ItemOwned(n: Nodes, b: Blocks, s: Shape)
    requires Owns(n, b, s)
    ensures s.p in n && n[s.p].child == Head(s.kids) && n[s.p].vs == s.vs && n[s.p].name == s.name
    ensures s.vs != NIL ==> s.vs in b && s.vs != s.name
    ensures s.name != NIL ==> s.name in b
    ensures OwnsList(n, b, s.kids) && Own(s) !! FpList(s.kids)
    ensures s.p in Own(s) && (s.vs != NIL ==> s.vs in Own(s)) && (s.name != NIL ==> s.name in Own(s))
  {
    hide OwnsList, FpList;
  }

  lemma EmptyList(n: Nodes, b: Blocks, list: seq<Shape>)
    requires OwnsList(n, b, list) && Head(list) == NIL
    ensures list == [] && FpList(list) == {}
  {
  }

  lemma NoKids(n: Nodes, b: Blocks, s: Shape)
    requires Owns(n, b, s) && n[s.p].child == NIL
    ensures s.kids == [] && FpList(s.kids) == {}
  {
  }

  lemma FirstOwned(n: Nodes, b: Blocks, list: seq<Shape>)
    requires OwnsList(n, b, list) && list != []
    ensures Owns(n, b, list[0]) && OwnsList(n, b, list[1..])
    ensures list[0].p in n && n[list[0].p].next == Head(list[1..])
    ensures FpList(list) == Fp(list[0]) + FpList(list[1..]) && Fp(list[0]) !! FpList(list[1..])
  {
    hide Owns, Fp, FpList;
    OwnsTail(n, b, list);
    FpListFirst(list);
  }

  lemma OwnsTail(n: Nodes, b: Blocks, list: seq<Shape>)
    requires OwnsList(n, b, list) && list != []
    ensures OwnsList(n, b, list[1..]) && n[list[0].p].next == Head(list[1..])
  {
    hide Owns, Fp;
    var rest := list[1..];
    assert n[list[0].p].next == After(list, 0);
    forall i | 0 <= i < |rest|
      ensures Owns(n, b, rest[i]) && rest[i].p in n && rest[i].p != NIL
      ensures n[rest[i].p].next == After(rest, i)
    {
      assert rest[i] == list[i + 1];
      assert After(rest, i) == After(list, i + 1);
    }
    forall i, j | 0 <= i < j < |rest| ensures Fp(rest[i]) !! Fp(rest[j]) {
      assert rest[i] == list[i + 1] && rest[j] == list[j + 1];
    }
  }
}
