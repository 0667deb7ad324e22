/** What one undisturbed publish amounts to: when its create succeeds, what it changes, and why
    repetition and order of publishes do not matter except for a growing reference list. */
module Upsert {
  import opened Names
  import opened AddressSpace
  import opened Options
  import opened Publisher

  function Works(): nat -> Outcome {
    (k: nat) => Delivered
  }

  /** A publish whose calls all work while no other session is active. */
  function Publish(sp: Space, p: Pair, dangling: bool): Space {
    Solo(sp, p, Connecting, Works(), 0, dangling)
  }

  /** The space on which the closing create runs. */
  function BeforeCreate(sp: Space, p: Pair, dangling: bool): Space {
    if !Finds(sp, OBJECTS, p.fb, dangling) then AddFb(sp, p)
    else if Finds(sp, FbId(p), VarString(p), dangling) then DropVar(sp, p)
    else sp
  }

  /** The status of the closing create, which the publisher prints and otherwise ignores. */
  function Receipt(sp: Space, p: Pair, dangling: bool): Status {
    AddCheck(BeforeCreate(sp, p, dangling), VarId(p), FbId(p), ORGANIZES)
  }

  lemma PublishSteps(sp: Space, p: Pair, dangling: bool)
    ensures Publish(sp, p, dangling) == AddVar(BeforeCreate(sp, p, dangling), p)
  {
    SoloCases(sp, p, Works(), dangling);
  }

  // ---- Every address space: exactly when a publish works

  /** From any space at all, the closing create succeeds exactly when the searches tell the truth:
      a block that is reported is there, and a variable that is there is reported. Success leaves
      the fresh node; failure leaves the variable as it was. */
  lemma PublishWorksIff(sp: Space, p: Pair, dangling: bool)
    requires Builtins(sp)
    ensures Receipt(sp, p, dangling) == Good <==>
            if Finds(sp, OBJECTS, p.fb, dangling)
            then FbId(p) in sp && (VarId(p) in sp ==> Finds(sp, FbId(p), VarString(p), dangling))
            else VarId(p) !in sp
    ensures var sp' := Publish(sp, p, dangling);
            if Receipt(sp, p, dangling) == Good
            then VarId(p) in sp' && sp'[VarId(p)] == FreshVar(p)
                 && FbId(p) in sp' && Child(VarId(p)) in sp'[FbId(p)].refs
            else (VarId(p) in sp' <==> VarId(p) in sp) && (VarId(p) in sp ==> sp'[VarId(p)] == sp[VarId(p)])
  {
    IdFacts();
    PublishSteps(sp, p, dangling);
    var mid := BeforeCreate(sp, p, dangling);
    AddNodeEffect(sp, FbId(p), OBJECTS, ORGANIZES, FB_NODE);
    AddNodeEffect(mid, VarId(p), FbId(p), ORGANIZES, VAR_NODE);
    FindsIff(sp, OBJECTS, p.fb, dangling);
    FindsIff(sp, FbId(p), VarString(p), dangling);
  }

  /** A node of another namespace with the block's text under Objects makes every publish of that
      block a silent no-op, however often it is repeated. */
  lemma AliasBlocks(sp: Space, p: Pair, dangling: bool)
    requires Builtins(sp)
    requires Finds(sp, OBJECTS, p.fb, dangling) && FbId(p) !in sp
    ensures Publish(sp, p, dangling) == sp
  {
    PublishSteps(sp, p, dangling);
    FindsIff(sp, FbId(p), VarString(p), dangling);
  }

  /** For example an object of namespace 0 that the server's own start-up code put under Objects;
      clients cannot add nodes there. */
  lemma AliasExample() returns (sp: Space, p: Pair)
    ensures Builtins(sp) && FbId(p) !in sp && VarId(p) !in sp
    ensures Publish(sp, p, false) == sp
  {
    p := Pair("SR", "Q");
    var alias := NodeId(0, Text("SR"));
    sp := map[
      OBJECTS := Node(ObjectNode, false, None, [Child(alias)]),
      ORGANIZES := Node(ReferenceTypeNode, false, None, []),
      alias := Node(ObjectNode, false, None, [Parent(OBJECTS)])];
    assert Child(alias) in sp[OBJECTS].refs;
    FindsIff(sp, OBJECTS, p.fb, false);
    AliasBlocks(sp, p, false);
  }

  /** A variable its block does not list cannot be published again: every attempt is a silent no-op. */
  lemma UnlistedIsStranded(sp: Space, q: Pair, dangling: bool)
    requires Finds(sp, OBJECTS, q.fb, dangling)
    requires VarId(q) in sp && !Finds(sp, FbId(q), VarString(q), dangling)
    ensures Publish(sp, q, dangling) == sp
  {
    PublishSteps(sp, q, dangling);
  }

  /** If a block object is replaced by a new one, as happens to a block whose first copy can no longer
      be found, the variables it had before are stranded, although they are still there: publishing
      them again changes nothing, also after the variable of `p` has been published under the new
      block. */
  lemma SiblingsAreStranded(sp: Space, p: Pair, q: Pair)
    requires Builtins(sp) && q.fb == p.fb && q != p && VarId(q) in sp
    ensures var sp2 := AddFb(DeleteNode(DropVar(sp, p), FbId(p)), p);
            var sp3 := Publish(sp2, p, false);
            && VarId(q) in sp2 && sp2[VarId(q)] == sp[VarId(q)] && Publish(sp2, q, false) == sp2
            && VarId(p) in sp3 && sp3[VarId(p)] == FreshVar(p)
            && VarId(q) in sp3 && sp3[VarId(q)] == sp[VarId(q)] && Publish(sp3, q, false) == sp3
  {
    var bare := DeleteNode(DropVar(sp, p), FbId(p));
    var sp2 := AddFb(bare, p);
    VarStringInjective(p, q);
    VarStringIsNoName(p, p.fb);
    VarStringIsNoName(q, p.fb);
    AddFbEffect(bare, p);
    NewBlockFinds(sp2, p, [Parent(OBJECTS)], q);
    UnlistedIsStranded(sp2, q, false);
    FirstUnderNewBlock(sp2, p);
    NewBlockFinds(Publish(sp2, p, false), p, [Parent(OBJECTS), Child(VarId(p))], q);
    UnlistedIsStranded(Publish(sp2, p, false), q, false);
  }

  lemma FirstUnderNewBlock(sp: Space, p: Pair)
    requires Builtins(sp) && FbId(p) in sp && VarId(p) !in sp
    requires sp[FbId(p)].refs == [Parent(OBJECTS)] && Child(FbId(p)) in sp[OBJECTS].refs
    ensures var sp' := Publish(sp, p, false);
            && sp'.Keys == sp.Keys + {VarId(p)} && sp'[VarId(p)] == FreshVar(p)
            && sp'[FbId(p)].refs == [Parent(OBJECTS), Child(VarId(p))]
            && forall n :: n in sp && n != FbId(p) ==> sp'[n] == sp[n]
  {
    VarStringIsNoName(p, p.fb);
    NewBlockFinds(sp, p, [Parent(OBJECTS)], p);
    PublishSteps(sp, p, false);
    AddNodeEffect(sp, VarId(p), FbId(p), ORGANIZES, VAR_NODE);
    assert FreshVar(p).refs == VAR_NODE.refs + [Parent(FbId(p))];
  }

  /** What the searches find for a block with these references. */
  lemma NewBlockFinds(sp: Space, p: Pair, refs: seq<Reference>, q: Pair)
    requires Builtins(sp) && FbId(p) in sp && q.fb == p.fb
    requires sp[FbId(p)].refs == refs && Child(FbId(p)) in sp[OBJECTS].refs
    requires refs == [Parent(OBJECTS)] || (refs == [Parent(OBJECTS), Child(VarId(p))] && q != p)
    ensures Finds(sp, OBJECTS, q.fb, false) && !Finds(sp, FbId(q), VarString(q), false)
  {
    FindsIff(sp, OBJECTS, q.fb, false);
    FindsIff(sp, FbId(q), VarString(q), false);
    VarStringInjective(p, q);
    assert Reported(sp, Child(FbId(p)), false);
  }

  // ---- Well-formed spaces: the searches tell the truth

  lemma SearchFindsFb(sp: Space, p: Pair, dangling: bool, pairs: set<Pair>)
    requires WellFormed(sp, pairs) && p in pairs
    ensures Finds(sp, OBJECTS, p.fb, dangling) <==> FbId(p) in sp
  {
    IdFacts();
    FindsIff(sp, OBJECTS, p.fb, dangling);
    assert Linked(sp, p);
    if FbId(p) in sp {
      assert Reported(sp, Child(FbId(p)), dangling);
    }
    forall r | r in sp[OBJECTS].refs && Reported(sp, r, dangling) && r.target.ident == Text(p.fb)
      ensures FbId(p) in sp
    {
      assert NoAlias(sp, OBJECTS, FbId(p));
      assert r.target == FbId(p);
      assert Listed(sp, p);
    }
  }

  /** Against the bundled server the search is exact; a server that reports dangling references
      can only add false hits for a missing variable. */
  lemma SearchFindsVar(sp: Space, p: Pair, dangling: bool, pairs: set<Pair>)
    requires WellFormed(sp, pairs) && p in pairs
    ensures VarId(p) in sp ==> Finds(sp, FbId(p), VarString(p), dangling)
    ensures Finds(sp, FbId(p), VarString(p), dangling) && !dangling ==> VarId(p) in sp
  {
    FindsIff(sp, FbId(p), VarString(p), dangling);
    assert Linked(sp, p);
    if VarId(p) in sp {
      assert Reported(sp, Child(VarId(p)), dangling);
    }
    assert NoAlias(sp, FbId(p), VarId(p));
  }

  /** Both branches of the publisher are one: ensure the block, drop the variable, create it. */
  lemma PublishNormalForm(sp: Space, p: Pair, dangling: bool, pairs: set<Pair>)
    requires WellFormed(sp, pairs) && p in pairs
    ensures Publish(sp, p, dangling) == AddVar(DropVar(AddFb(sp, p), p), p)
  {
    IdFacts();
    PublishSteps(sp, p, dangling);
    SearchFindsFb(sp, p, dangling, pairs);
    SearchFindsVar(sp, p, dangling, pairs);
    assert Linked(sp, p);
    AddNodeEffect(sp, FbId(p), OBJECTS, ORGANIZES, FB_NODE);
    if VarId(p) !in sp {
      assert VarId(p) !in AddFb(sp, p);
      assert DropVar(AddFb(sp, p), p) == AddFb(sp, p);
      if FbId(p) in sp {
        assert DropVar(sp, p) == sp;
      }
    }
  }

  lemma PublishKeeps(sp: Space, p: Pair, dangling: bool, pairs: set<Pair>)
    requires WellFormed(sp, pairs) && p in pairs
    ensures WellFormed(Publish(sp, p, dangling), pairs)
  {
    PublishNormalForm(sp, p, dangling, pairs);
    AddFbKeeps(sp, p, pairs);
    DropVarKeeps(AddFb(sp, p), p, pairs);
    AddVarKeeps(DropVar(AddFb(sp, p), p), p, pairs);
  }

  /** The block of `p` afterwards, apart from its new child. */
  function EnsuredFb(sp: Space, p: Pair): Node {
    if FbId(p) in sp then sp[FbId(p)] else FreshFb()
  }

  lemma AddFbEffect(sp: Space, p: Pair)
    requires Builtins(sp)
    ensures var mid := AddFb(sp, p);
            && Builtins(mid)
            && mid.Keys == sp.Keys + {FbId(p)}
            && mid[FbId(p)] == EnsuredFb(sp, p)
            && mid[OBJECTS] == sp[OBJECTS].(refs := sp[OBJECTS].refs
                                                    + if FbId(p) in sp then [] else [Child(FbId(p))])
            && forall n :: n in sp && n != OBJECTS && n != FbId(p) ==> mid[n] == sp[n]
  {
    AddNodeEffect(sp, FbId(p), OBJECTS, ORGANIZES, FB_NODE);
    assert FreshFb().refs == FB_NODE.refs + [Parent(OBJECTS)];
    assert sp[OBJECTS].refs + [] == sp[OBJECTS].refs;
  }

  lemma RecreateVarEffect(sp: Space, p: Pair)
    requires Builtins(sp) && FbId(p) in sp
    ensures var sp' := AddVar(DropVar(sp, p), p);
            && sp'.Keys == sp.Keys + {VarId(p)}
            && sp'[VarId(p)] == FreshVar(p)
            && sp'[FbId(p)] == sp[FbId(p)].(refs := sp[FbId(p)].refs + [Child(VarId(p))])
            && forall n :: n in sp && n != FbId(p) && n != VarId(p) ==> sp'[n] == sp[n]
  {
    VarStringIsNoName(p, p.fb);
    AddNodeEffect(DropVar(sp, p), VarId(p), FbId(p), ORGANIZES, VAR_NODE);
    assert FreshVar(p).refs == VAR_NODE.refs + [Parent(FbId(p))];
  }

  /** Exactly what a publish stores: three entries change, every other node stays as it was. */
  lemma PublishEffect(sp: Space, p: Pair, dangling: bool, pairs: set<Pair>)
    requires WellFormed(sp, pairs) && p in pairs
    ensures var sp' := Publish(sp, p, dangling);
            var fb := EnsuredFb(sp, p);
            var root := sp[OBJECTS];
            && sp'.Keys == sp.Keys + {FbId(p), VarId(p)}
            && sp'[VarId(p)] == FreshVar(p)
            && sp'[FbId(p)] == fb.(refs := fb.refs + [Child(VarId(p))])
            && sp'[OBJECTS] == (if FbId(p) in sp then root else root.(refs := root.refs + [Child(FbId(p))]))
            && forall n :: n in sp && n != OBJECTS && n != FbId(p) && n != VarId(p) ==> sp'[n] == sp[n]
  {
    PublishNormalForm(sp, p, dangling, pairs);
    AddFbEffect(sp, p);
    RecreateVarEffect(AddFb(sp, p), p);
    assert sp[OBJECTS].refs + [] == sp[OBJECTS].refs;
  }

  // ---- Order and repetition

  /** A node up to order and multiplicity of its references. */
  datatype NodeView = NodeView(kind: NodeKind, isAbstract: bool, value: Option<Variant>, refs: set<Reference>)

  function ViewNode(n: Node): NodeView {
    NodeView(n.kind, n.isAbstract, n.value, set r | r in n.refs)
  }

  function View(sp: Space): map<NodeId, NodeView> {
    map id | id in sp :: ViewNode(sp[id])
  }

  ghost predicate IsVar(ps: set<Pair>, id: NodeId) {
    exists p :: p in ps && VarId(p) == id
  }

  ghost function Owner(ps: set<Pair>, id: NodeId): Pair
    requires IsVar(ps, id)
  {
    var p :| p in ps && VarId(p) == id; p
  }

  /** Each published variable hangs under its block, each block under Objects. */
  ghost function Children(ps: set<Pair>, id: NodeId): set<Reference> {
    (set p | p in ps && FbId(p) == id :: Child(VarId(p))) + (set p | p in ps && OBJECTS == id :: Child(FbId(p)))
  }

  /** A node's view after the publishes: a published variable is fresh, anything else gains children. */
  ghost function Cell(n: NodeView, ps: set<Pair>, id: NodeId): NodeView {
    if IsVar(ps, id) then ViewNode(FreshVar(Owner(ps, id))) else n.(refs := n.refs + Children(ps, id))
  }

  /** The view a publish starts from: the stored node, or a new block object. */
  function Base(v: map<NodeId, NodeView>, id: NodeId): NodeView {
    if id in v then v[id] else ViewNode(FreshFb())
  }

  /** The plain upsert of a whole set of pairs at once. */
  ghost function Upserted(v: map<NodeId, NodeView>, ps: set<Pair>): map<NodeId, NodeView> {
    map id | id in v.Keys + Ids(ps) :: Cell(Base(v, id), ps, id)
  }

  ghost function Ids(ps: set<Pair>): set<NodeId> {
    (set p | p in ps :: FbId(p)) + (set p | p in ps :: VarId(p))
  }

  lemma IdsOf(p: Pair)
    ensures Ids({}) == {} && Ids({p}) == {FbId(p), VarId(p)}
  {
  }

  lemma IdsMore(a: set<Pair>, b: set<Pair>)
    ensures Ids(a + b) == Ids(a) + Ids(b)
  {
  }

  lemma UpsertedKeys(v: map<NodeId, NodeView>, ps: set<Pair>)
    ensures Upserted(v, ps).Keys == v.Keys + Ids(ps)
  {
  }

  lemma SameMap(l: map<NodeId, NodeView>, r: map<NodeId, NodeView>)
    requires l.Keys == r.Keys && forall id :: id in l ==> l[id] == r[id]
    ensures l == r
  {
  }

  lemma UpsertedNone(v: map<NodeId, NodeView>)
    ensures Upserted(v, {}) == v
  {
    UpsertedKeys(v, {});
    assert v.Keys + Ids({}) == v.Keys;
    forall id | id in v ensures Upserted(v, {})[id] == v[id] {
      assert v[id].refs + Children({}, id) == v[id].refs;
    }
    SameMap(Upserted(v, {}), v);
  }

  lemma ChildrenOfVar(ps: set<Pair>, p: Pair)
    ensures Children(ps, VarId(p)) == {}
  {
    forall q | q in ps ensures FbId(q) != VarId(p) {
      VarStringIsNoName(p, q.fb);
    }
  }

  lemma OwnerIs(ps: set<Pair>, p: Pair)
    requires p in ps
    ensures IsVar(ps, VarId(p)) && Owner(ps, VarId(p)) == p
  {
    assert IsVar(ps, VarId(p));
    VarStringInjective(Owner(ps, VarId(p)), p);
  }

  lemma ChildrenMore(a: set<Pair>, b: set<Pair>, id: NodeId)
    ensures Children(a + b, id) == Children(a, id) + Children(b, id)
  {
  }

  lemma NoChildren(ps: set<Pair>, id: NodeId)
    requires id != OBJECTS && forall p :: p in ps ==> FbId(p) != id
    ensures Children(ps, id) == {}
  {
  }

  lemma CellMore(n: NodeView, a: set<Pair>, b: set<Pair>, id: NodeId)
    ensures Cell(Cell(n, a, id), b, id) == Cell(n, a + b, id)
  {
    if IsVar(b, id) {
      OwnerIs(a + b, Owner(b, id));
    } else if IsVar(a, id) {
      var p := Owner(a, id);
      OwnerIs(a + b, p);
      ChildrenOfVar(b, p);
      var created := ViewNode(FreshVar(p));
      assert created.refs + {} == created.refs;
    } else {
      assert !IsVar(a + b, id);
      ChildrenMore(a, b, id);
      assert n.refs + Children(a + b, id) == (n.refs + Children(a, id)) + Children(b, id);
    }
  }

  /** What the second upsert starts from is what the first one left. */
  lemma BaseAfter(v: map<NodeId, NodeView>, a: set<Pair>, id: NodeId)
    requires id in v || id != OBJECTS
    ensures Base(Upserted(v, a), id) == Cell(Base(v, id), a, id)
  {
    if id !in v && id !in Ids(a) {
      assert !IsVar(a, id);
      NoChildren(a, id);
      var n := ViewNode(FreshFb());
      assert n.refs + {} == n.refs;
    }
  }

  lemma UpsertedKeysMore(v: map<NodeId, NodeView>, a: set<Pair>, b: set<Pair>)
    ensures Upserted(Upserted(v, a), b).Keys == Upserted(v, a + b).Keys
  {
    UpsertedKeys(v, a);
    UpsertedKeys(Upserted(v, a), b);
    UpsertedKeys(v, a + b);
    IdsMore(a, b);
  }

  lemma UpsertedMoreAt(v: map<NodeId, NodeView>, a: set<Pair>, b: set<Pair>, id: NodeId)
    requires id in Upserted(v, a + b) && id in Upserted(Upserted(v, a), b)
    ensures Upserted(Upserted(v, a), b)[id] == Upserted(v, a + b)[id]
  {
    UpsertedKeys(v, a + b);
    BaseAfter(v, a, id);
    CellMore(Base(v, id), a, b, id);
  }

  lemma UpsertedMore(v: map<NodeId, NodeView>, a: set<Pair>, b: set<Pair>)
    ensures Upserted(Upserted(v, a), b) == Upserted(v, a + b)
  {
    UpsertedKeysMore(v, a, b);
    forall id | id in Upserted(v, a + b)
      ensures Upserted(Upserted(v, a), b)[id] == Upserted(v, a + b)[id]
    {
      UpsertedMoreAt(v, a, b, id);
    }
    SameMap(Upserted(Upserted(v, a), b), Upserted(v, a + b));
  }

  lemma ViewAppend(n: Node, r: Reference)
    ensures ViewNode(n.(refs := n.refs + [r])) == ViewNode(n).(refs := ViewNode(n).refs + {r})
  {
  }

  lemma PublishCell(sp: Space, p: Pair, dangling: bool, pairs: set<Pair>, id: NodeId)
    requires WellFormed(sp, pairs) && p in pairs
    requires id in Publish(sp, p, dangling)
    ensures ViewNode(Publish(sp, p, dangling)[id]) == Cell(Base(View(sp), id), {p}, id)
  {
    PublishEffect(sp, p, dangling, pairs);
    assert Linked(sp, p);
    if id == VarId(p) {
      OwnerIs({p}, p);
    } else {
      PublishCellBlock(sp, p, id);
    }
  }

  lemma PublishCellBlock(sp: Space, p: Pair, id: NodeId)
    requires OBJECTS in sp && Linked(sp, p) && id != VarId(p)
    ensures !IsVar({p}, id)
    ensures Children({p}, id)
            == if id == FbId(p) then {Child(VarId(p))} else if id == OBJECTS then {Child(FbId(p))} else {}
    ensures id in sp ==> ViewNode(sp[id]).refs + {} == ViewNode(sp[id]).refs
    ensures id == OBJECTS && FbId(p) in sp ==> ViewNode(sp[id]).refs + {Child(FbId(p))} == ViewNode(sp[id]).refs
    ensures id == OBJECTS ==>
              ViewNode(sp[id].(refs := sp[id].refs + [Child(FbId(p))])).refs
              == ViewNode(sp[id]).refs + {Child(FbId(p))}
    ensures var fb := if FbId(p) in sp then sp[FbId(p)] else FreshFb();
            ViewNode(fb.(refs := fb.refs + [Child(VarId(p))])).refs == ViewNode(fb).refs + {Child(VarId(p))}
  {
    var fb := if FbId(p) in sp then sp[FbId(p)] else FreshFb();
    ViewAppend(fb, Child(VarId(p)));
    ViewAppend(sp[OBJECTS], Child(FbId(p)));
  }

  lemma ViewKeys(sp: Space)
    ensures View(sp).Keys == sp.Keys
  {
  }

  lemma PublishKeys(sp: Space, p: Pair, dangling: bool, pairs: set<Pair>)
    requires WellFormed(sp, pairs) && p in pairs
    ensures Publish(sp, p, dangling).Keys == sp.Keys + {FbId(p), VarId(p)}
  {
    PublishEffect(sp, p, dangling, pairs);
  }

  lemma PublishViewKeys(sp: Space, p: Pair, dangling: bool, pairs: set<Pair>)
    requires WellFormed(sp, pairs) && p in pairs
    ensures View(Publish(sp, p, dangling)).Keys == Upserted(View(sp), {p}).Keys
  {
    PublishKeys(sp, p, dangling, pairs);
    ViewKeys(sp);
    ViewKeys(Publish(sp, p, dangling));
    UpsertedKeys(View(sp), {p});
    IdsOf(p);
  }

  /** A publish is the upsert of its pair, through either branch and either browse behaviour. */
  lemma PublishIsUpsert(sp: Space, p: Pair, dangling: bool, pairs: set<Pair>)
    requires WellFormed(sp, pairs) && p in pairs
    ensures View(Publish(sp, p, dangling)) == Upserted(View(sp), {p})
  {
    PublishViewKeys(sp, p, dangling, pairs);
    var l, r := View(Publish(sp, p, dangling)), Upserted(View(sp), {p});
    forall id | id in l ensures l[id] == r[id] {
      PublishCell(sp, p, dangling, pairs, id);
    }
    SameMap(l, r);
  }

  function PublishAll(sp: Space, ps: seq<Pair>, dangling: bool): Space
    decreases |ps|
  {
    if ps == [] then sp else PublishAll(Publish(sp, ps[0], dangling), ps[1..], dangling)
  }

  function PairsOf(ps: seq<Pair>): set<Pair> {
    set p | p in ps
  }

  lemma PairsOfTail(ps: seq<Pair>)
    ensures ps == [] ==> PairsOf(ps) == {}
    ensures ps != [] ==> PairsOf(ps) == {ps[0]} + PairsOf(ps[1..])
  {
    if ps != [] {
      assert ps == [ps[0]] + ps[1..];
    }
  }

  /** Any sequence of publishes is the upsert of its set of pairs. */
  lemma {:induction false} PublishAllIsUpsert(sp: Space, ps: seq<Pair>, dangling: bool, pairs: set<Pair>)
    requires WellFormed(sp, pairs) && PairsOf(ps) <= pairs
    ensures View(PublishAll(sp, ps, dangling)) == Upserted(View(sp), PairsOf(ps))
    decreases |ps|
  {
    PairsOfTail(ps);
    if ps == [] {
      UpsertedNone(View(sp));
    } else {
      PublishKeeps(sp, ps[0], dangling, pairs);
      PublishIsUpsert(sp, ps[0], dangling, pairs);
      PublishAllIsUpsert(Publish(sp, ps[0], dangling), ps[1..], dangling, pairs);
      UpsertedMore(View(sp), {ps[0]}, PairsOf(ps[1..]));
    }
  }

  /** Only the set of published pairs matters: publishes commute and repeat freely, up to the
      order and multiplicity of references. */
  lemma OrderAndRepetitionDoNotMatter(sp: Space, ps: seq<Pair>, qs: seq<Pair>, d: bool, e: bool, pairs: set<Pair>)
    requires WellFormed(sp, pairs) && PairsOf(ps) == PairsOf(qs) <= pairs
    ensures View(PublishAll(sp, ps, d)) == View(PublishAll(sp, qs, e))
  {
    PublishAllIsUpsert(sp, ps, d, pairs);
    PublishAllIsUpsert(sp, qs, e, pairs);
  }

  // ---- What repetition does cost

  function RefCount(sp: Space, from: NodeId, r: Reference): nat {
    if from in sp then multiset(sp[from].refs)[r] else 0
  }

  /** What publishing `q` does to the reference list of the block of `p`. */
  lemma BlockAfter(sp: Space, q: Pair, p: Pair, dangling: bool, pairs: set<Pair>)
    requires WellFormed(sp, pairs) && q in pairs && p in pairs
    ensures FbId(p) in Publish(sp, q, dangling) <==> FbId(p) in sp || p.fb == q.fb
    ensures FbId(p) in Publish(sp, q, dangling) ==>
              var before := if FbId(p) in sp then sp[FbId(p)].refs else FreshFb().refs;
              Publish(sp, q, dangling)[FbId(p)].refs == if p.fb == q.fb then before + [Child(VarId(q))] else before
  {
    PublishEffect(sp, q, dangling, pairs);
    VarStringIsNoName(q, p.fb);
  }

  lemma PublishCount(sp: Space, q: Pair, p: Pair, dangling: bool, pairs: set<Pair>)
    requires WellFormed(sp, pairs) && q in pairs && p in pairs
    ensures RefCount(Publish(sp, q, dangling), FbId(p), Child(VarId(p)))
            == RefCount(sp, FbId(p), Child(VarId(p))) + (if p == q then 1 else 0)
  {
    BlockAfter(sp, q, p, dangling, pairs);
    VarStringInjective(p, q);
    var before := if FbId(p) in sp then sp[FbId(p)].refs else FreshFb().refs;
    CountAppended(before, Child(VarId(q)), Child(VarId(p)));
  }

  lemma CountAppended(refs: seq<Reference>, last: Reference, r: Reference)
    ensures multiset(refs + [last])[r] == multiset(refs)[r] + (if last == r then 1 else 0)
    ensures refs == FreshFb().refs && !r.inverse ==> multiset(refs)[r] == 0
  {
  }

  /** The block collects one more reference to its variable with every publish of that pair and
      none from any other: nothing ever removes them. */
  lemma {:induction false} ReferencesAccumulate(sp: Space, ps: seq<Pair>, p: Pair, dangling: bool, pairs: set<Pair>)
    requires WellFormed(sp, pairs) && p in pairs && PairsOf(ps) <= pairs
    ensures RefCount(PublishAll(sp, ps, dangling), FbId(p), Child(VarId(p)))
            == RefCount(sp, FbId(p), Child(VarId(p))) + multiset(ps)[p]
    decreases |ps|
  {
    if ps != [] {
      PairsOfTail(ps);
      PublishCount(sp, ps[0], p, dangling, pairs);
      PublishKeeps(sp, ps[0], dangling, pairs);
      ReferencesAccumulate(Publish(sp, ps[0], dangling), ps[1..], p, dangling, pairs);
      assert multiset(ps) == multiset{ps[0]} + multiset(ps[1..]) by {
        assert ps == [ps[0]] + ps[1..];
      }
    }
  }

  /** So a publish is never idempotent on the stored lists. */
  lemma NeverIdempotentOnLists(sp: Space, p: Pair, dangling: bool, pairs: set<Pair>)
    requires WellFormed(sp, pairs) && p in pairs
    ensures Publish(Publish(sp, p, dangling), p, dangling) != Publish(sp, p, dangling)
  {
    var once := Publish(sp, p, dangling);
    PublishKeeps(sp, p, dangling, pairs);
    PublishEffect(sp, p, dangling, pairs);
    PublishEffect(once, p, dangling, pairs);
    assert |Publish(once, p, dangling)[FbId(p)].refs| == |once[FbId(p)].refs| + 1;
  }

  // ---- Failures during one request

  lemma {:induction false} SoloKeeps(sp: Space, p: Pair, pc: PC, net: nat -> Outcome, k: nat, dangling: bool,
                                     pairs: set<Pair>)
    requires WellFormed(sp, pairs) && p in pairs
    ensures WellFormed(Solo(sp, p, pc, net, k, dangling), pairs)
    decreases CallsLeft(pc)
  {
    if pc != Finished {
      var (sp', pc') := Exec(sp, p, pc, net(k), dangling);
      ExecKeeps(sp, p, pc, net(k), dangling, pairs);
      SoloKeeps(sp', p, pc', net, k + 1, dangling, pairs);
    }
  }

  /** One request loses an existing variable exactly when the connect and both browses work, the
      delete reaches the server and the create does not. */
  lemma LosesVariableIff(sp: Space, p: Pair, net: nat -> Outcome, dangling: bool, pairs: set<Pair>)
    requires WellFormed(sp, pairs) && p in pairs && VarId(p) in sp
    ensures VarId(p) !in Solo(sp, p, Connecting, net, 0, dangling) <==>
            && net(0) == net(1) == net(2) == Delivered
            && net(3) != RequestLost
            && net(4) == RequestLost
  {
    SoloCases(sp, p, net, dangling);
    SearchFindsFb(sp, p, dangling, pairs);
    SearchFindsVar(sp, p, dangling, pairs);
    assert Linked(sp, p);
    AddVarKeeps(sp, p, pairs);
    DropVarKeeps(sp, p, pairs);
    DropKeepsFb(sp, p);
    AddVarKeeps(DropVar(sp, p), p, pairs);
  }

  lemma DropKeepsFb(sp: Space, p: Pair)
    ensures FbId(p) in DropVar(sp, p) <==> FbId(p) in sp
  {
    VarStringIsNoName(p, p.fb);
  }
}
