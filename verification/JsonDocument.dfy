/** Whole documents through memory: printed and parsed back, or parsed, edited and printed. */
module JsonDocument {
  import opened Bytes
  import opened JsonText
  import opened JsonHeap
  import opened JsonBuild
  import opened JsonPrinter
  import opened JsonParser
  import opened JsonRoundTrip
  import opened JsonSession
  import opened JsonEdits

  /**
   * Print a tree in either layout and parse the block that came out: a second tree that reads the
   * same, in blocks of its own. It fails exactly when the nesting or the text is too large or an
   * allocation was refused, and then both heaps are as they were.
   */
  method PrintThenParse(heap: Heap, arena: Arena, item: Ptr, ghost s: Shape, ghost t: Json, format: bool)
    returns (root: Ptr, ghost copy: Shape)
    requires heap.Valid() && Plain(t) && Owns(heap.nodes, heap.blocks, s) && Reads(heap.nodes, heap.blocks, s, t) &&
      item == s.p
    modifies heap, arena
    ensures heap.Valid() && arena.buffers == old(arena.buffers)
    ensures (root != NIL) == (Nesting(t) <= NESTING_LIMIT && |Text(t, format, 0)| + 2 <= INT_MAX &&
                              heap.refused == old(heap.refused) && arena.refused == old(arena.refused))
    ensures root != NIL ==>
      copy.p == root && Owns(heap.nodes, heap.blocks, copy) && Reads(heap.nodes, heap.blocks, copy, t)
    ensures root != NIL ==> Extends(old(heap.nodes), old(heap.blocks), heap.nodes, heap.blocks, Fp(copy))
    ensures root == NIL ==> heap.nodes == old(heap.nodes) && heap.blocks == old(heap.blocks)
  {
    hide Text, Reads, Owns, Plain, Nesting, Fp, Extends, G.ParseBuffer;
    root, copy := NIL, Shape(NIL, NIL, NIL, []);
    var printed := Print(heap.nodes, heap.blocks, item, s, t, format, arena);
    if printed == null { return; }
    RoundTrip(t, format, true);
    var end;
    root, end, copy := ParseWithLengthOpts(printed[..], true, heap);
    arena.Free(printed);
  }

  /**
   * Parse an array or object, edit it by any session that brings in items kept aside, and print it: what comes out is
   * the text of the document after the same edits on its plain sequence of members.
   */
  method EditDocument(content: bytes, es: seq<Edit>, heap: Heap, arena: Arena, format: bool, ghost loose: set<Shape>,
                      ghost values: map<Shape, Member>) returns (root: Ptr, printed: array?<byte>, ghost s: Shape)
    requires heap.Valid() && Aside(heap.nodes, heap.blocks, {}, loose) && OnceEach(es, loose)
    requires AllHold(heap.nodes, heap.blocks, loose, values, true)
    requires forall x :: x in loose ==> x in values && PlainMember(values[x])
    requires var r := G.ParseBuffer(content, true); r.Ok? ==> IsTree(r.value) && Plain(r.value)
    requires forall e :: e in es ==> Given(e, values)
    modifies heap, arena
    ensures heap.Valid()
    ensures (root != NIL) == (G.ParseBuffer(content, true).Ok? && heap.refused == old(heap.refused))
    ensures root == NIL ==> printed == null && heap.nodes == old(heap.nodes) && heap.blocks == old(heap.blocks)
    ensures root != NIL ==>
      var t := EditedTree(G.ParseBuffer(content, true).value, es, values);
      && s.p == root && Owns(heap.nodes, heap.blocks, s) && Reads(heap.nodes, heap.blocks, s, t)
      && (printed != null) == (Nesting(t) <= NESTING_LIMIT && |Text(t, format, 0)| + 2 <= INT_MAX &&
                               arena.refused == old(arena.refused))
      && (printed != null ==> printed[..] == Text(t, format, 0) + [0])
  {
    hide Text, Reads, Owns, Plain, Nesting, Fp, Extends, G.ParseBuffer, Aside, AllHold, OnceEach, Legal, Whole,
         Finished, Ring, ApplyAll, LooseAll, EditedTree, IsTree, ParentApart, Given, PlainMember, G.SkipBlank;
    printed := null;
    ghost var n0, b0 := heap.nodes, heap.blocks;
    var end;
    root, end, s := ParseWithLengthOpts(content, true, heap);
    if root == NIL { return; }
    ghost var n1, b1, parsed, doc := heap.nodes, heap.blocks, s, G.ParseBuffer(content, true).value;
    Prepared(n0, b0, n1, b1, parsed, doc, es, loose, values);
    Session(heap, root, es, parsed.kids, loose);
    s := parsed.(kids := ApplyAll(parsed.kids, es));
    Outcome(n1, b1, heap.nodes, heap.blocks, parsed, doc, es, loose, values);
    printed := Print(heap.nodes, heap.blocks, root, s, EditedTree(doc, es, values), format, arena);
  }

  /** A document just parsed, with the items aside, is ready for a session. */
  lemma Prepared(n0: Nodes, b0: Blocks, n1: Nodes, b1: Blocks, s: Shape, t: Json, es: seq<Edit>, loose: set<Shape>,
                 values: map<Shape, Member>)
    requires Disjunct(n0, b0) && Disjunct(n1, b1) && Extends(n0, b0, n1, b1, Fp(s))
    requires Owns(n1, b1, s) && Reads(n1, b1, s, t) && IsTree(t)
    requires Aside(n0, b0, {}, loose) && AllHold(n0, b0, loose, values, true) && OnceEach(es, loose)
    ensures Whole(n1, b1, s.p, s.kids, loose) && ParentApart(s, All(s.kids, loose)) && Legal(s.kids, loose, es)
    ensures Aside(n1, b1, Fp(s), loose) && AllHold(n1, b1, loose, values, true)
  {
    hide Owns, Reads, Fp, Extends, Aside, AllHold, Whole, Ring, ParentApart, Legal, All, IsTree, OnceEach;
    AsideOfNew(n0, b0, n1, b1, Fp(s), loose, values);
    TreeKids(n1, b1, s, t);
    OwnedIsWhole(n1, b1, s, loose);
    OnceEachIsLegal(s.kids, loose, es);
  }

  /** What the session leaves: the parent owns the new children and reads as the edited document. */
  lemma Outcome(n: Nodes, b: Blocks, n': Nodes, b': Blocks, p: Shape, t: Json, es: seq<Edit>, loose: set<Shape>,
                values: map<Shape, Member>)
    requires Owns(n, b, p) && Reads(n, b, p, t) && IsTree(t) && Plain(t) && Whole(n, b, p.p, p.kids, loose)
    requires Aside(n, b, Fp(p), loose) && AllHold(n, b, loose, values, true) && ParentApart(p, All(p.kids, loose))
    requires OnceEach(es, loose) && Legal(p.kids, loose, es) && Finished(n, b, n', b', p.p, p.kids, loose, es)
    requires forall x :: x in loose ==> x in values && PlainMember(values[x])
    ensures Disjunct(n', b') && forall e :: e in es ==> Given(e, values)
    ensures var p', t' := p.(kids := ApplyAll(p.kids, es)), EditedTree(t, es, values);
      Owns(n', b', p') && Reads(n', b', p', t') && Plain(t')
  {
    hide Owns, Reads, Plain, Fp, Aside, AllHold, Whole, Ring, ParentApart, Legal, All, OnceEach, Finished, Apply,
         ApplyAll, LooseAll, PlainMember, Contents, ChangedAll, MembersOf, Holds, AllValues, Valued;
    FinishedIsWhole(n, b, n', b', p.p, p.kids, loose, es);
    WholeIsDisjunct(n', b', p.p, ApplyAll(p.kids, es), LooseAll(p.kids, loose, es));
    EditsGiven(es, loose, values);
    TreeKids(n, b, p, t);
    var all := AllValues(t, p, values);
    ValuesTogether(n, b, p, t, loose, values);
    ParentOwns(n, b, n', b', p, loose, es);
    SessionReads(n, b, n', b', p, loose, es, all);
    EditsGiven(es, loose, all);
    ContentsFollowAll(p.kids, es, all);
    SameChanges(MembersOf(t), es, values, all);
    EditedIsPlain(t, es, values);
  }

  lemma WholeIsDisjunct(n: Nodes, b: Blocks, parent: Ptr, kids: seq<Shape>, loose: set<Shape>)
    requires Whole(n, b, parent, kids, loose)
    ensures Disjunct(n, b)
  {
  }

  lemma EditsGiven(es: seq<Edit>, loose: set<Shape>, values: map<Shape, Member>)
    requires OnceEach(es, loose) && forall x :: x in loose ==> x in values
    ensures forall e :: e in es ==> Given(e, values) && (!e.Detach? ==> e.s in loose)
  {
    forall e | e in es ensures Given(e, values) && (!e.Detach? ==> e.s in loose) {
      var i :| 0 <= i < |es| && es[i] == e;
      assert MayEdit(loose, es[i]);
    }
  }
}
