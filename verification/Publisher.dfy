/** One OPC_UA_PUBLISH request as a client program: which service call comes next, and what each
    call does to the shared address space. */
module Publisher {
  import opened Names
  import opened AddressSpace
  import opened Options

  /** The block's type code for "Boolean" is used as an index into the type table, where it selects
      the entry for SByte. */
  const WRITE_TYPE: nat := 1
  const WRITE_VALUE := Variant(WRITE_TYPE, 0)
  const FB_NODE := Node(ObjectNode, false, None, [])
  const VAR_NODE := Node(VariableNode, false, Some(WRITE_VALUE), [])

  function FbId(p: Pair): NodeId { NodeId(1, Text(p.fb)) }

  function VarId(p: Pair): NodeId { NodeId(1, Text(VarString(p))) }

  function Child(id: NodeId): Reference { Reference(ORGANIZES, false, id) }

  function Parent(id: NodeId): Reference { Reference(ORGANIZES, true, id) }

  function AddFb(sp: Space, p: Pair): Space {
    AddNode(sp, FbId(p), OBJECTS, ORGANIZES, FB_NODE)
  }

  function AddVar(sp: Space, p: Pair): Space {
    AddNode(sp, VarId(p), FbId(p), ORGANIZES, VAR_NODE)
  }

  function DropVar(sp: Space, p: Pair): Space {
    DeleteNode(sp, VarId(p))
  }

  /** The variable node a successful create leaves behind. */
  function FreshVar(p: Pair): Node {
    VAR_NODE.(refs := [Parent(FbId(p))])
  }

  function FreshFb(): Node {
    FB_NODE.(refs := [Parent(OBJECTS)])
  }

  /** A service call works, never reaches the server, or works but its answer is lost. */
  datatype Outcome = Delivered | RequestLost | ReplyLost

  /** The next call of a publisher. `AddingVar(true)` is the create that follows a delete. */
  datatype PC = Connecting | BrowsingRoot | AddingFb | BrowsingFb | Deleting | AddingVar(deleted: bool) | Finished

  /** Service calls left after connecting, at most. */
  function CallsLeft(pc: PC): nat {
    match pc
    case Connecting => 5
    case BrowsingRoot => 4
    case BrowsingFb => 3
    case AddingFb => 2
    case Deleting => 2
    case AddingVar(_) => 1
    case Finished => 0
  }

  /** One service call. A lost answer to a browse reads as an empty answer; the status of a create
      or delete is ignored, so a lost answer changes nothing there. */
  function Exec(sp: Space, p: Pair, pc: PC, o: Outcome, dangling: bool): (Space, PC) {
    match pc
    case Connecting =>
      (sp, if o == Delivered then BrowsingRoot else Finished)
    case BrowsingRoot =>
      (sp, if o == Delivered && Finds(sp, OBJECTS, p.fb, dangling) then BrowsingFb else AddingFb)
    case AddingFb =>
      (if o == RequestLost then sp else AddFb(sp, p), AddingVar(false))
    case BrowsingFb =>
      (sp, if o == Delivered && Finds(sp, FbId(p), VarString(p), dangling) then Deleting else AddingVar(false))
    case Deleting =>
      (if o == RequestLost then sp else DropVar(sp, p), AddingVar(true))
    case AddingVar(_) =>
      (if o == RequestLost then sp else AddVar(sp, p), Finished)
    case Finished => (sp, Finished)
  }

  /** All calls of one request with nobody else active; `net(k)` is the fate of the k-th call. */
  function Solo(sp: Space, p: Pair, pc: PC, net: nat -> Outcome, k: nat, dangling: bool): Space
    decreases CallsLeft(pc)
  {
    if pc == Finished then sp
    else
      var (sp', pc') := Exec(sp, p, pc, net(k), dangling);
      Solo(sp', p, pc', net, k + 1, dangling)
  }

  /** The tail of a request, from the browse of the block on. */
  lemma SoloTail(sp: Space, p: Pair, net: nat -> Outcome, k: nat, dangling: bool, deleted: bool)
    ensures Solo(sp, p, AddingVar(deleted), net, k, dangling) == if net(k) == RequestLost then sp else AddVar(sp, p)
    ensures Solo(sp, p, Deleting, net, k, dangling)
            == var mid := if net(k) == RequestLost then sp else DropVar(sp, p);
               if net(k + 1) == RequestLost then mid else AddVar(mid, p)
  {
    assert Solo(sp, p, Deleting, net, k, dangling)
        == Solo(if net(k) == RequestLost then sp else DropVar(sp, p), p, AddingVar(true), net, k + 1, dangling);
  }

  /** The branch for a missing block: block, then variable. */
  lemma SoloCreate(sp: Space, p: Pair, net: nat -> Outcome, k: nat, dangling: bool)
    ensures Solo(sp, p, AddingFb, net, k, dangling)
            == var mid := if net(k) == RequestLost then sp else AddFb(sp, p);
               if net(k + 1) == RequestLost then mid else AddVar(mid, p)
  {
    var mid := if net(k) == RequestLost then sp else AddFb(sp, p);
    assert Solo(sp, p, AddingFb, net, k, dangling) == Solo(mid, p, AddingVar(false), net, k + 1, dangling);
    SoloTail(mid, p, net, k + 1, dangling, false);
  }

  /** The branch for a reported block: look for the variable, drop it, create it. */
  lemma SoloReplace(sp: Space, p: Pair, net: nat -> Outcome, k: nat, dangling: bool)
    ensures Solo(sp, p, BrowsingFb, net, k, dangling)
            == if !(net(k) == Delivered && Finds(sp, FbId(p), VarString(p), dangling)) then
                 if net(k + 1) == RequestLost then sp else AddVar(sp, p)
               else
                 var mid := if net(k + 1) == RequestLost then sp else DropVar(sp, p);
                 if net(k + 2) == RequestLost then mid else AddVar(mid, p)
  {
    SoloTail(sp, p, net, k + 1, dangling, false);
  }

  /** The whole request, branch by branch. */
  lemma SoloCases(sp: Space, p: Pair, net: nat -> Outcome, dangling: bool)
    ensures Solo(sp, p, Connecting, net, 0, dangling)
            == if net(0) != Delivered then sp
               else if !(net(1) == Delivered && Finds(sp, OBJECTS, p.fb, dangling)) then
                 var mid := if net(2) == RequestLost then sp else AddFb(sp, p);
                 if net(3) == RequestLost then mid else AddVar(mid, p)
               else if !(net(2) == Delivered && Finds(sp, FbId(p), VarString(p), dangling)) then
                 if net(3) == RequestLost then sp else AddVar(sp, p)
               else
                 var mid := if net(3) == RequestLost then sp else DropVar(sp, p);
                 if net(4) == RequestLost then mid else AddVar(mid, p)
  {
    if net(0) == Delivered {
      assert Solo(sp, p, Connecting, net, 0, dangling) == Solo(sp, p, BrowsingRoot, net, 1, dangling);
      SoloCreate(sp, p, net, 2, dangling);
      SoloReplace(sp, p, net, 2, dangling);
    }
  }

  lemma IdFacts()
    ensures forall p, q :: VarId(p) == VarId(q) ==> p == q
    ensures forall p, q :: VarId(p) != FbId(q)
  {
    forall p, q ensures VarId(p) == VarId(q) ==> p == q {
      VarStringInjective(p, q);
    }
    forall p, q ensures VarId(p) != FbId(q) {
      VarStringIsNoName(p, q.fb);
    }
  }

  // ---- Well-formed spaces

  /** A block object hangs under Objects; a variable hangs under its existing block. */
  ghost predicate Linked(sp: Space, p: Pair)
    requires OBJECTS in sp
  {
    && (FbId(p) in sp ==> Child(FbId(p)) in sp[OBJECTS].refs)
    && (VarId(p) in sp ==> FbId(p) in sp && Child(VarId(p)) in sp[FbId(p)].refs)
  }

  /** Both also refer back to what they hang under. */
  ghost predicate Backlinked(sp: Space, p: Pair) {
    && (FbId(p) in sp ==> Parent(OBJECTS) in sp[FbId(p)].refs)
    && (VarId(p) in sp ==> Parent(FbId(p)) in sp[VarId(p)].refs)
  }

  /** Forward references from `id` that carry this text lead to `only`. */
  ghost predicate NoAlias(sp: Space, id: NodeId, only: NodeId) {
    id in sp ==> forall r :: r in sp[id].refs && !r.inverse && r.target.ident == only.ident ==> r.target == only
  }

  /** Objects lists the block of `p` only if it is there. */
  ghost predicate Listed(sp: Space, p: Pair)
    requires OBJECTS in sp
  {
    forall r :: r in sp[OBJECTS].refs && !r.inverse && r.target == FbId(p) ==> FbId(p) in sp
  }

  ghost predicate WellFormed(sp: Space, pairs: set<Pair>) {
    && Builtins(sp)
    && (forall p :: p in pairs ==> Linked(sp, p) && Listed(sp, p))
    && (forall p :: p in pairs ==> NoAlias(sp, OBJECTS, FbId(p)) && NoAlias(sp, FbId(p), VarId(p)))
  }

  lemma AddFbKeeps(sp: Space, p: Pair, pairs: set<Pair>)
    requires WellFormed(sp, pairs) && p in pairs
    ensures WellFormed(AddFb(sp, p), pairs) && FbId(p) in AddFb(sp, p)
  {
    var sp' := AddFb(sp, p);
    IdFacts();
    AddNodeEffect(sp, FbId(p), OBJECTS, ORGANIZES, FB_NODE);
    if sp' != sp {
      forall q | q in pairs ensures Linked(sp', q) && Listed(sp', q) {
        assert Linked(sp, q) && Listed(sp, q);
      }
      forall q | q in pairs ensures NoAlias(sp', OBJECTS, FbId(q)) && NoAlias(sp', FbId(q), VarId(q)) {
        assert NoAlias(sp, OBJECTS, FbId(q)) && NoAlias(sp, FbId(q), VarId(q));
      }
    }
  }

  lemma AddVarKeeps(sp: Space, p: Pair, pairs: set<Pair>)
    requires WellFormed(sp, pairs) && p in pairs
    ensures WellFormed(AddVar(sp, p), pairs)
    ensures FbId(p) in sp ==> VarId(p) in AddVar(sp, p)
  {
    var sp' := AddVar(sp, p);
    IdFacts();
    AddNodeEffect(sp, VarId(p), FbId(p), ORGANIZES, VAR_NODE);
    if sp' != sp {
      forall q | q in pairs ensures Linked(sp', q) && Listed(sp', q) {
        assert Linked(sp, q) && Listed(sp, q) && Linked(sp, p);
      }
      forall q | q in pairs ensures NoAlias(sp', OBJECTS, FbId(q)) && NoAlias(sp', FbId(q), VarId(q)) {
        assert NoAlias(sp, OBJECTS, FbId(q)) && NoAlias(sp, FbId(q), VarId(q));
      }
    }
  }

  lemma DropVarKeeps(sp: Space, p: Pair, pairs: set<Pair>)
    requires WellFormed(sp, pairs) && p in pairs
    ensures WellFormed(DropVar(sp, p), pairs)
  {
    IdFacts();
    forall q | q in pairs ensures Linked(DropVar(sp, p), q) && Listed(DropVar(sp, p), q) {
      assert Linked(sp, q) && Listed(sp, q);
    }
  }

  /** A write changes no reference and no node but the one it names, so it keeps the structure too. */
  lemma WriteKeeps(sp: Space, id: NodeId, v: Variant, pairs: set<Pair>)
    requires WellFormed(sp, pairs)
    ensures WellFormed(WriteValue(sp, id, v), pairs)
  {
    var sp' := WriteValue(sp, id, v);
    assert sp'.Keys == sp.Keys && forall n :: n in sp ==> sp'[n].refs == sp[n].refs;
    forall p | p in pairs
      ensures Linked(sp', p) && Listed(sp', p) && NoAlias(sp', OBJECTS, FbId(p)) && NoAlias(sp', FbId(p), VarId(p))
    {
      assert Linked(sp, p) && Listed(sp, p) && NoAlias(sp, OBJECTS, FbId(p)) && NoAlias(sp, FbId(p), VarId(p));
    }
  }

  /** Every service call, whatever its fate, keeps the space well-formed. */
  lemma ExecKeeps(sp: Space, p: Pair, pc: PC, o: Outcome, dangling: bool, pairs: set<Pair>)
    requires WellFormed(sp, pairs) && p in pairs
    ensures WellFormed(Exec(sp, p, pc, o, dangling).0, pairs)
  {
    AddFbKeeps(sp, p, pairs);
    AddVarKeeps(sp, p, pairs);
    DropVarKeeps(sp, p, pairs);
  }

  /** Every service call also keeps the references back, of any pair in any space with the built-in
      nodes. */
  lemma ExecKeepsBacklinks(sp: Space, p: Pair, pc: PC, o: Outcome, dangling: bool, q: Pair)
    requires Builtins(sp) && Backlinked(sp, q)
    ensures Builtins(Exec(sp, p, pc, o, dangling).0) && Backlinked(Exec(sp, p, pc, o, dangling).0, q)
  {
    VarStringInjective(p, q);
    VarStringIsNoName(p, q.fb);
    VarStringIsNoName(q, p.fb);
    AddNodeEffect(sp, FbId(p), OBJECTS, ORGANIZES, FB_NODE);
    AddNodeEffect(sp, VarId(p), FbId(p), ORGANIZES, VAR_NODE);
  }
}
