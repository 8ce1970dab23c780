/** What a session of edits makes of the values: the plain-sequence view of an edited array or object. */
module JsonEdits {
  import opened JsonText
  import opened JsonHeap
  import opened JsonBuild
  import opened JsonSession

  // ---- edits of values ----

  predicate Given(e: Edit, values: map<Shape, Member>) { !e.Detach? ==> e.s in values }

  /** The edit on a plain list of members. */
  function Changed(ms: seq<Member>, e: Edit, values: map<Shape, Member>): seq<Member>
    requires Given(e, values)
  {
    match e
    case Append(s) => ms + [values[s]]
    case Insert(k, s) => if k < |ms| then ms[..k] + [values[s]] + ms[k..] else ms + [values[s]]
    case Detach(k) => if k < |ms| then ms[..k] + ms[k + 1..] else ms
    case Replace(k, s) => if k < |ms| then ms[k := values[s]] else ms
  }

  function ChangedAll(ms: seq<Member>, es: seq<Edit>, values: map<Shape, Member>): seq<Member>
    requires forall e :: e in es ==> Given(e, values)
  {
    if es == [] then ms else Changed(ChangedAll(ms, es[..|es| - 1], values), es[|es| - 1], values)
  }

  lemma ContentsJoin(a: seq<Shape>, b: seq<Shape>, values: map<Shape, Member>)
    requires Valued(a, values) && Valued(b, values)
    ensures Valued(a + b, values) && Contents(a + b, values) == Contents(a, values) + Contents(b, values)
  {
  }

  lemma ContentsCut(kids: seq<Shape>, k: nat, values: map<Shape, Member>)
    requires Valued(kids, values) && k <= |kids|
    ensures Valued(kids[..k], values) && Contents(kids[..k], values) == Contents(kids, values)[..k]
    ensures Valued(kids[k..], values) && Contents(kids[k..], values) == Contents(kids, values)[k..]
  {
  }

  lemma HungContents(kids: seq<Shape>, k: nat, s: Shape, values: map<Shape, Member>)
    requires Valued(kids, values) && s in values && k <= |kids|
    ensures var to, ms := kids[..k] + [s] + kids[k..], Contents(kids, values);
      Valued(to, values) && Contents(to, values) == ms[..k] + [values[s]] + ms[k..]
  {
    hide Valued, Contents;
    ContentsOfOne(s, values);
    ContentsCut(kids, k, values);
    ContentsJoin(kids[..k], [s], values);
    ContentsJoin(kids[..k] + [s], kids[k..], values);
  }

  lemma DetachedContents(kids: seq<Shape>, k: nat, values: map<Shape, Member>)
    requires Valued(kids, values) && k < |kids|
    ensures var to, ms := kids[..k] + kids[k + 1..], Contents(kids, values);
      Valued(to, values) && Contents(to, values) == ms[..k] + ms[k + 1..]
  {
    hide Valued, Contents;
    ContentsCut(kids, k, values);
    ContentsCut(kids, k + 1, values);
    ContentsJoin(kids[..k], kids[k + 1..], values);
  }

  lemma ReplacedContents(kids: seq<Shape>, k: nat, s: Shape, values: map<Shape, Member>)
    requires Valued(kids, values) && s in values && k < |kids|
    ensures Valued(kids[k := s], values)
    ensures Contents(kids[k := s], values) == Contents(kids, values)[k := values[s]]
  {
  }

  lemma ContentsFollow(kids: seq<Shape>, e: Edit, values: map<Shape, Member>)
    requires Valued(kids, values) && Given(e, values)
    ensures Valued(Apply(kids, e), values)
    ensures Contents(Apply(kids, e), values) == Changed(Contents(kids, values), e, values)
  {
    hide Valued, Contents;
    match e
    case Append(s) => HungAtEnd(kids, s, values);
    case Insert(k, s) => if k < |kids| { HungContents(kids, k, s, values); } else { HungAtEnd(kids, s, values); }
    case Detach(k) => if k < |kids| { DetachedContents(kids, k, values); }
    case Replace(k, s) => if k < |kids| { ReplacedContents(kids, k, s, values); }
  }

  lemma HungAtEnd(kids: seq<Shape>, s: Shape, values: map<Shape, Member>)
    requires Valued(kids, values) && s in values
    ensures Valued(kids + [s], values) && Contents(kids + [s], values) == Contents(kids, values) + [values[s]]
  {
    hide Valued, Contents;
    ContentsOfOne(s, values);
    ContentsJoin(kids, [s], values);
  }

  lemma ContentsOfOne(s: Shape, values: map<Shape, Member>)
    requires s in values
    ensures Valued([s], values) && Contents([s], values) == [values[s]]
  {
  }

  /** The items' values follow the edits. */
  lemma {:induction false} ContentsFollowAll(kids: seq<Shape>, es: seq<Edit>, values: map<Shape, Member>)
    requires Valued(kids, values) && forall e :: e in es ==> Given(e, values)
    ensures Valued(ApplyAll(kids, es), values)
    ensures Contents(ApplyAll(kids, es), values) == ChangedAll(Contents(kids, values), es, values)
    decreases |es|
  {
    hide Apply, Changed, Given, Contents, Valued;
    if es != [] {
      ContentsFollowAll(kids, es[..|es| - 1], values);
      ContentsFollow(ApplyAll(kids, es[..|es| - 1]), es[|es| - 1], values);
    }
  }

  /** Each edit that brings in an item brings in another of those given. */
  predicate OnceEach(es: seq<Edit>, loose: set<Shape>) {
    && (forall i :: 0 <= i < |es| ==> MayEdit(loose, es[i]))
    && (forall i, j :: 0 <= i < j < |es| ==> es[i].Detach? || es[j].Detach? || es[i].s != es[j].s)
  }

  lemma {:induction false} StillLoose(kids: seq<Shape>, loose: set<Shape>, es: seq<Edit>, s: Shape)
    requires s in loose && forall i :: 0 <= i < |es| ==> es[i].Detach? || es[i].s != s
    ensures s in LooseAll(kids, loose, es)
    decreases |es|
  {
    if es != [] { StillLoose(kids, loose, es[..|es| - 1], s); }
  }

  lemma OnceEachIsLegal(kids: seq<Shape>, loose: set<Shape>, es: seq<Edit>)
    requires OnceEach(es, loose)
    ensures Legal(kids, loose, es)
  {
    hide LooseAll;
    forall i | 0 <= i < |es| ensures MayEdit(LooseAll(kids, loose, es[..i]), es[i]) {
      assert MayEdit(loose, es[i]);
      if !es[i].Detach? { StillLoose(kids, loose, es[..i], es[i].s); }
    }
  }

  // ---- items and values found in a tree ----

  function IndexOf(kids: seq<Shape>, s: Shape): (i: nat)
    requires s in kids
    ensures i < |kids| && kids[i] == s
  {
    if kids[0] == s then 0 else 1 + IndexOf(kids[1..], s)
  }

  /** The members of a tree by the items they are found in. */
  function KidValues(kids: seq<Shape>, members: seq<Member>): map<Shape, Member>
    requires |kids| == |members|
  {
    map s | s in kids :: members[IndexOf(kids, s)]
  }

  lemma KidValuesAt(kids: seq<Shape>, members: seq<Member>)
    requires |kids| == |members| && Disjoint(kids)
    ensures forall i :: 0 <= i < |kids| ==> kids[i] in KidValues(kids, members)
    ensures forall i :: 0 <= i < |kids| ==> KidValues(kids, members)[kids[i]] == members[i]
  {
    hide Disjoint;
    NoTwin(kids);
    forall i | 0 <= i < |kids| ensures IndexOf(kids, kids[i]) == i {
      var j := IndexOf(kids, kids[i]);
      assert !(i < j) && !(j < i);
    }
  }

  lemma NoTwin(kids: seq<Shape>)
    requires Disjoint(kids)
    ensures forall i, j :: 0 <= i < j < |kids| ==> kids[i] != kids[j]
  {
    hide Fp;
    forall i, j | 0 <= i < j < |kids| ensures kids[i] != kids[j] { assert kids[i].p in Fp(kids[i]); }
  }

  // ---- edited documents ----

  predicate IsTree(t: Json) { t.Array? || t.Object? }

  /** The items of an array, which have no keys, or the members of an object. */
  function MembersOf(t: Json): seq<Member>
    requires IsTree(t)
  {
    match t
    case Array(items) => seq(|items|, i requires 0 <= i < |items| => Member([], items[i]))
    case Object(members) => members
  }

  function EditedTree(t: Json, es: seq<Edit>, values: map<Shape, Member>): Json
    requires IsTree(t) && forall e :: e in es ==> Given(e, values)
  {
    var ms := ChangedAll(MembersOf(t), es, values);
    if t.Array? then Array(ValuesOf(ms)) else Object(ms)
  }

  predicate PlainMember(m: Member) { 0 !in m.key && Plain(m.value) }

  predicate AllPlain(ms: seq<Member>) { forall m :: m in ms ==> PlainMember(m) }

  lemma {:induction false} PlainItemsAre(items: seq<Json>)
    ensures PlainItems(items) <==> forall i :: 0 <= i < |items| ==> Plain(items[i])
    decreases |items|
  {
    hide Plain;
    if items != [] {
      PlainItemsAre(items[1..]);
      assert forall i :: 1 <= i < |items| ==> items[i] == items[1..][i - 1];
      assert forall i :: 0 <= i < |items[1..]| ==> items[1..][i] == items[i + 1];
    }
  }

  lemma {:induction false} PlainMembersAre(members: seq<Member>)
    ensures PlainMembers(members) <==> AllPlain(members)
    decreases |members|
  {
    hide Plain;
    if members != [] {
      PlainMembersAre(members[1..]);
      assert members == [members[0]] + members[1..] && members[0] in members;
      assert forall m :: m in members[1..] ==> m in members;
    }
  }

  lemma {:induction false} ChangesArePlain(ms: seq<Member>, es: seq<Edit>, values: map<Shape, Member>)
    requires AllPlain(ms) && forall e :: e in es ==> Given(e, values) && (!e.Detach? ==> PlainMember(values[e.s]))
    ensures AllPlain(ChangedAll(ms, es, values))
    decreases |es|
  {
    hide PlainMember;
    if es != [] { ChangesArePlain(ms, es[..|es| - 1], values); }
  }

  lemma EditedIsPlain(t: Json, es: seq<Edit>, values: map<Shape, Member>)
    requires IsTree(t) && Plain(t)
    requires forall e :: e in es ==> Given(e, values) && (!e.Detach? ==> PlainMember(values[e.s]))
    ensures Plain(EditedTree(t, es, values))
  {
    hide ChangedAll, Given;
    var ms := MembersOf(t);
    var edited := ChangedAll(ms, es, values);
    match t
    case Array(items) =>
      PlainItemsAre(items);
      ChangesArePlain(ms, es, values);
      forall i | 0 <= i < |edited| ensures Plain(ValuesOf(edited)[i]) { assert PlainMember(edited[i]); }
      PlainItemsAre(ValuesOf(edited));
    case Object(members) =>
      PlainMembersAre(members);
      ChangesArePlain(ms, es, values);
      PlainMembersAre(edited);
  }

  // ---- a document just parsed ----

  /** What stood aside before more was allocated still does, apart from the new. */
  lemma AsideOfNew(n0: Nodes, b0: Blocks, n1: Nodes, b1: Blocks, fp: set<Ptr>, loose: set<Shape>,
                   values: map<Shape, Member>)
    requires Disjunct(n0, b0) && Disjunct(n1, b1) && Extends(n0, b0, n1, b1, fp)
    requires Aside(n0, b0, {}, loose) && AllHold(n0, b0, loose, values, true)
    ensures Aside(n1, b1, fp, loose) && AllHold(n1, b1, loose, values, true)
  {
    hide Owns, Fp, Reads;
    forall s | s in loose
      ensures Owns(n1, b1, s) && Alone(n1, s) && Fp(s) !! fp && Holds(n1, b1, s, values[s], true)
    {
      OwnedIsLive(n0, b0, s);
      OwnedAddress(n0, b0, s);
      OwnsKept(n0, b0, n1, b1, s);
      ReadsKept(n0, b0, n1, b1, s, values[s].value);
    }
  }

  /** The child list of a tree and what its items hold. */
  lemma TreeKids(n: Nodes, b: Blocks, s: Shape, t: Json)
    requires IsTree(t) && Owns(n, b, s) && Reads(n, b, s, t)
    ensures Ring(n, s.kids) && |s.kids| == |MembersOf(t)| && s.p in n
    ensures (n[s.p].kind == KArray <==> t.Array?) && (n[s.p].kind == KObject <==> t.Object?)
    ensures forall i :: 0 <= i < |s.kids| ==> Holds(n, b, s.kids[i], MembersOf(t)[i], t.Object?)
  {
    hide Owns, Ring;
    OwnedParts(n, b, s);
    forall i | 0 <= i < |s.kids| && |s.kids| == |MembersOf(t)|
      ensures Holds(n, b, s.kids[i], MembersOf(t)[i], t.Object?)
    {
      assert s.kids[i] in s.kids;
      OwnedAddress(n, b, s.kids[i]);
      assert t.Array? ==> Reads(n, b, s.kids[i], t.items[i]);
    }
  }

  function AllValues(t: Json, s: Shape, values: map<Shape, Member>): map<Shape, Member>
    requires IsTree(t) && |s.kids| == |MembersOf(t)|
  {
    values + KidValues(s.kids, MembersOf(t))
  }

  lemma ValuesTogether(n: Nodes, b: Blocks, s: Shape, t: Json, loose: set<Shape>, values: map<Shape, Member>)
    requires IsTree(t) && Owns(n, b, s) && Reads(n, b, s, t) && |s.kids| == |MembersOf(t)| && s.p in n
    requires Aside(n, b, Fp(s), loose) && AllHold(n, b, loose, values, true)
    ensures var all := AllValues(t, s, values);
      && AllHold(n, b, All(s.kids, loose), all, n[s.p].kind == KObject)
      && Valued(s.kids, all) && Contents(s.kids, all) == MembersOf(t)
      && forall x :: x in loose ==> x in all && all[x] == values[x]
  {
    hide Owns, Reads, Fp, Ring, Aside, Holds, AllValues, Contents, Valued, IsTree, MembersOf;
    var all, keyed := AllValues(t, s, values), n[s.p].kind == KObject;
    LooseValues(n, b, s, t, loose, values);
    TreeKids(n, b, s, t);
    KidContents(n, b, s, t, values);
    forall x | x in All(s.kids, loose) ensures x in all && Holds(n, b, x, all[x], keyed) {
      if x in loose {
        WithoutKey(n, b, x, values[x], keyed);
      } else {
        var i :| 0 <= i < |s.kids| && s.kids[i] == x;
      }
    }
  }

  lemma WithoutKey(n: Nodes, b: Blocks, s: Shape, m: Member, keyed: bool)
    requires Holds(n, b, s, m, true)
    ensures Holds(n, b, s, m, keyed)
  {
  }

  /** The items aside keep their values. */
  lemma LooseValues(n: Nodes, b: Blocks, s: Shape, t: Json, loose: set<Shape>, values: map<Shape, Member>)
    requires IsTree(t) && Owns(n, b, s) && |s.kids| == |MembersOf(t)|
    requires Aside(n, b, Fp(s), loose) && AllHold(n, b, loose, values, true)
    ensures var all := AllValues(t, s, values); forall x :: x in loose ==> x in all && all[x] == values[x]
  {
    hide Owns, Fp, FpList, Holds, IndexOf;
    OwnedParts(n, b, s);
    forall x | x in loose ensures x !in s.kids {
      assert x.p in Fp(x);
      assert x in s.kids ==> Fp(x) <= Fp(s);
    }
  }

  lemma KidContents(n: Nodes, b: Blocks, s: Shape, t: Json, values: map<Shape, Member>)
    requires IsTree(t) && Owns(n, b, s) && |s.kids| == |MembersOf(t)|
    ensures var all := AllValues(t, s, values);
      && (forall i :: 0 <= i < |s.kids| ==> s.kids[i] in all && all[s.kids[i]] == MembersOf(t)[i])
      && Valued(s.kids, all) && Contents(s.kids, all) == MembersOf(t)
  {
    hide Owns, Fp, FpList, KidValues, MembersOf;
    var all, ms := AllValues(t, s, values), MembersOf(t);
    OwnedParts(n, b, s);
    KidValuesAt(s.kids, ms);
    forall i | 0 <= i < |s.kids| ensures s.kids[i] in all && all[s.kids[i]] == ms[i] { }
    forall x | x in s.kids ensures x in all { var i :| 0 <= i < |s.kids| && s.kids[i] == x; }
    assert Contents(s.kids, all) == ms;
  }

  lemma {:induction false} SameChanges(ms: seq<Member>, es: seq<Edit>, values: map<Shape, Member>,
                                       more: map<Shape, Member>)
    requires forall e :: e in es ==> Given(e, values) && Given(e, more) && (!e.Detach? ==> more[e.s] == values[e.s])
    ensures ChangedAll(ms, es, more) == ChangedAll(ms, es, values)
    decreases |es|
  {
    if es != [] {
      SameChanges(ms, es[..|es| - 1], values, more);
      assert es[|es| - 1] in es;
    }
  }
}
