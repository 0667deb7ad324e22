/** The address space of the bundled OPC UA server and the services the function blocks call.
    References live in the node they start from, as in the server's node store. */
module AddressSpace {
  import opened Options

  datatype Identifier = Numeric(n: nat) | Text(s: string)

  datatype NodeId = NodeId(ns: nat, ident: Identifier)

  datatype NodeKind = ObjectNode | VariableNode | VariableTypeNode | ReferenceTypeNode | OtherNode

  datatype Reference = Reference(refType: NodeId, inverse: bool, target: NodeId)

  /** A stored value: the index of its data type in the server's type table, and its content. */
  datatype Variant = Variant(typeIndex: nat, data: int)

  /** Names, descriptions and masks of a node are not modelled. */
  datatype Node = Node(kind: NodeKind, isAbstract: bool, value: Option<Variant>, refs: seq<Reference>)

  type Space = map<NodeId, Node>

  datatype Status =
    | Good
    | BadNodeIdRejected
    | BadNodeIdInvalid
    | BadParentNodeIdInvalid
    | BadReferenceTypeIdInvalid
    | BadReferenceNotAllowed
    | BadNodeIdExists
    | BadNodeIdUnknown
    | BadNodeClassInvalid
    | BadTypeMismatch

  const NAMESPACES: nat := 2
  const OBJECTS := NodeId(0, Numeric(85))
  const ORGANIZES := NodeId(0, Numeric(35))

  /** What the server created at start-up and no publisher touches. */
  predicate Builtins(sp: Space) {
    && OBJECTS in sp
    && ORGANIZES in sp
    && sp[ORGANIZES].kind == ReferenceTypeNode
    && !sp[ORGANIZES].isAbstract
  }

  function Append(sp: Space, id: NodeId, r: Reference): Space
    requires id in sp
  {
    sp[id := sp[id].(refs := sp[id].refs + [r])]
  }

  /** The checks AddNodes makes before it stores anything, in the server's order. */
  function AddCheck(sp: Space, id: NodeId, parent: NodeId, refType: NodeId): Status {
    if id.ns == 0 then BadNodeIdRejected
    else if id.ns >= NAMESPACES then BadNodeIdInvalid
    else if parent !in sp then BadParentNodeIdInvalid
    else if refType !in sp then BadReferenceTypeIdInvalid
    else if sp[refType].kind != ReferenceTypeNode then BadReferenceTypeIdInvalid
    else if sp[refType].isAbstract then BadReferenceNotAllowed
    else if id in sp then BadNodeIdExists
    else Good
  }

  /** AddNodes for one item with a non-empty id: the new node, its inverse reference, then the
      parent's forward reference, which is appended whether or not an equal one is there. */
  function AddNode(sp: Space, id: NodeId, parent: NodeId, refType: NodeId, node: Node): Space {
    if AddCheck(sp, id, parent, refType) != Good then sp
    else
      Append(Append(sp[id := node], id, Reference(refType, true, parent)),
             parent, Reference(refType, false, id))
  }

  function DeleteCheck(sp: Space, id: NodeId): Status {
    if id in sp then Good else BadNodeIdInvalid
  }

  /** DeleteNodes with deleteTargetReferences false: references held by other nodes stay. */
  function DeleteNode(sp: Space, id: NodeId): Space {
    sp - {id}
  }

  /** The checks a write to the value attribute makes. A value is only replaced by one of the same
      type; nothing is cast or converted. */
  function WriteCheck(sp: Space, id: NodeId, v: Variant): Status {
    if id !in sp then BadNodeIdUnknown
    else if sp[id].kind != VariableNode && sp[id].kind != VariableTypeNode then BadNodeClassInvalid
    else if sp[id].value.None? || sp[id].value.value.typeIndex != v.typeIndex then BadTypeMismatch
    else Good
  }

  function WriteValue(sp: Space, id: NodeId, v: Variant): Space {
    if WriteCheck(sp, id, v) == Good then sp[id := sp[id].(value := Some(v))] else sp
  }

  /** A forward browse reports a reference when its target is there; `dangling` says whether
      this answer also reports references to missing nodes (the bundled server never does). */
  predicate Reported(sp: Space, r: Reference, dangling: bool) {
    !r.inverse && (r.target in sp || dangling)
  }

  /** The targets a browse of these references returns, in order. */
  function Targets(sp: Space, refs: seq<Reference>, dangling: bool): (ts: seq<NodeId>)
    ensures forall t :: t in ts <==> exists r :: r in refs && r.target == t && Reported(sp, r, dangling)
  {
    if refs == [] then []
    else
      var last := refs[|refs| - 1];
      var rest := Targets(sp, refs[..|refs| - 1], dangling);
      assert refs == refs[..|refs| - 1] + [last];
      if Reported(sp, last, dangling) then rest + [last.target] else rest
  }

  /** Browse of one node; a missing node yields a status and no references. */
  function Browse(sp: Space, id: NodeId, dangling: bool): seq<NodeId> {
    if id in sp then Targets(sp, sp[id].refs, dangling) else []
  }

  function BrowseCheck(sp: Space, id: NodeId): Status {
    if id in sp then Good else BadNodeIdUnknown
  }

  /** Some target in the answer carries the sought text, in whatever namespace. */
  predicate Mentions(answer: seq<NodeId>, sought: string) {
    exists t :: t in answer && t.ident == Text(sought)
  }

  predicate Finds(sp: Space, id: NodeId, sought: string, dangling: bool) {
    Mentions(Browse(sp, id, dangling), sought)
  }

  lemma TargetsSnoc(sp: Space, refs: seq<Reference>, r: Reference, dangling: bool)
    ensures Targets(sp, refs + [r], dangling)
            == Targets(sp, refs, dangling) + if !r.inverse && (r.target in sp || dangling) then [r.target] else []
  {
    assert (refs + [r])[..|refs|] == refs;
  }

  /** The answer keeps order and multiplicity of the list: the answer for two lists one after the other
      is the two answers one after the other, and a single reference is answered by its target, if it
      is a forward one and its target is there or dangling ones are asked for. */
  lemma {:induction false} TargetsInOrder(sp: Space, refs: seq<Reference>, more: seq<Reference>, dangling: bool)
    ensures Targets(sp, refs + more, dangling) == Targets(sp, refs, dangling) + Targets(sp, more, dangling)
    ensures |more| == 1 ==>
              Targets(sp, more, dangling)
              == if !more[0].inverse && (more[0].target in sp || dangling) then [more[0].target] else []
    decreases |more|
  {
    if more == [] {
      assert refs + more == refs;
    } else {
      var n := |more| - 1;
      var init, last := more[..n], more[n];
      assert more == init + [last] && refs + more == (refs + init) + [last];
      TargetsSnoc(sp, refs + init, last, dangling);
      TargetsSnoc(sp, init, last, dangling);
      TargetsInOrder(sp, refs, init, dangling);
    }
  }

  /** The answer and the status of a browse: only a missing node is an error, and it has no answer. */
  lemma BrowseGoodIff(sp: Space, id: NodeId, dangling: bool)
    ensures BrowseCheck(sp, id) == Good || BrowseCheck(sp, id) == BadNodeIdUnknown
    ensures BrowseCheck(sp, id) == Good <==> exists n :: n in sp && n == id
    ensures BrowseCheck(sp, id) == BadNodeIdUnknown ==> Browse(sp, id, dangling) == []
  {
  }

  /** A delete is answered Good exactly if it changes the address space. */
  lemma DeleteGoodIff(sp: Space, id: NodeId)
    ensures DeleteCheck(sp, id) == Good <==> DeleteNode(sp, id) != sp
    ensures DeleteCheck(sp, id) != Good ==> DeleteCheck(sp, id) == BadNodeIdInvalid
  {
    if id in sp {
      assert id !in DeleteNode(sp, id);
    } else {
      assert DeleteNode(sp, id) == sp;
    }
  }

  /** The status of AddNodes tells which requirement failed first; only namespace 1 may be added to. */
  lemma AddStatusIff(sp: Space, id: NodeId, parent: NodeId, refType: NodeId)
    ensures var status := AddCheck(sp, id, parent, refType);
            && (status == BadNodeIdRejected <==> id.ns == 0)
            && (status == BadNodeIdInvalid <==> id.ns > 1)
            && (status == BadParentNodeIdInvalid <==> id.ns == 1 && parent !in sp)
            && (status == BadReferenceTypeIdInvalid <==>
                  id.ns == 1 && parent in sp && (refType in sp ==> sp[refType].kind != ReferenceTypeNode))
            && (status == BadReferenceNotAllowed <==>
                  && id.ns == 1 && parent in sp && refType in sp
                  && sp[refType].kind == ReferenceTypeNode && sp[refType].isAbstract)
            && (status == BadNodeIdExists || status == Good <==>
                  && id.ns == 1 && parent in sp && refType in sp
                  && sp[refType].kind == ReferenceTypeNode && !sp[refType].isAbstract)
            && (status == BadNodeIdExists ==> id in sp)
            && (status == Good ==> id !in sp)
  {
  }

  /** A client search finds its text exactly when the browsed node has a reported reference to it. */
  lemma FindsIff(sp: Space, id: NodeId, sought: string, dangling: bool)
    ensures Finds(sp, id, sought, dangling) <==>
            && id in sp
            && exists r :: r in sp[id].refs && Reported(sp, r, dangling) && r.target.ident == Text(sought)
  {
    if id in sp {
      var ts := Browse(sp, id, dangling);
      forall r | r in sp[id].refs && Reported(sp, r, dangling) && r.target.ident == Text(sought)
        ensures Mentions(ts, sought)
      {
        assert r.target in ts;
      }
    }
  }

  /** A failed AddNodes leaves the space alone; a successful one adds exactly one node and one
      reference at the end of the parent's list. */
  lemma AddNodeEffect(sp: Space, id: NodeId, parent: NodeId, refType: NodeId, node: Node)
    ensures var sp' := AddNode(sp, id, parent, refType, node);
            if AddCheck(sp, id, parent, refType) != Good then sp' == sp
            else
              && sp'.Keys == sp.Keys + {id}
              && sp'[id] == node.(refs := node.refs + [Reference(refType, true, parent)])
              && parent in sp
              && sp'[parent] == sp[parent].(refs := sp[parent].refs + [Reference(refType, false, id)])
              && forall n :: n in sp && n != parent ==> n != id && sp'[n] == sp[n]
  {
  }
}
