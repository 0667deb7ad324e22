/** The bundled server as an object: services that edit its node store in place. */
module Server {
  import opened AddressSpace
  import opened Options

  class UaServer {
    var space: Space

    constructor (initial: Space)
      ensures space == initial
    {
      space := initial;
    }

    /** Appends one reference to a stored node, without looking for an equal one. */
    method AddOneWayReference(id: NodeId, r: Reference) returns (status: Status)
      modifies `space
      ensures status == BrowseCheck(old(space), id)
      ensures space == if id in old(space) then Append(old(space), id, r) else old(space)
    {
      if id !in space {
        return BadNodeIdUnknown;
      }
      var node := space[id];
      space := space[id := node.(refs := node.refs + [r])];
      status := Good;
    }

    method AddNodes(id: NodeId, parent: NodeId, refType: NodeId, node: Node) returns (status: Status)
      modifies `space
      ensures space == AddNode(old(space), id, parent, refType, node)
      ensures status == AddCheck(old(space), id, parent, refType)
    {
      if id.ns == 0 {
        return BadNodeIdRejected;
      }
      if id.ns >= NAMESPACES {
        return BadNodeIdInvalid;
      }
      if parent !in space {
        return BadParentNodeIdInvalid;
      }
      if refType !in space || space[refType].kind != ReferenceTypeNode {
        return BadReferenceTypeIdInvalid;
      }
      if space[refType].isAbstract {
        return BadReferenceNotAllowed;
      }
      if id in space {
        return BadNodeIdExists;
      }
      space := space[id := node];
      var _ := AddOneWayReference(id, Reference(refType, true, parent));
      var _ := AddOneWayReference(parent, Reference(refType, false, id));
      status := Good;
    }

    method DeleteNodes(id: NodeId) returns (status: Status)
      modifies `space
      ensures space == DeleteNode(old(space), id)
      ensures status == DeleteCheck(old(space), id)
    {
      if id !in space {
        assert space - {id} == space;
        return BadNodeIdInvalid;
      }
      space := map n | n in space && n != id :: space[n];
      status := Good;
    }

    /** Walks the node's reference list and reports the targets that exist. */
    method BrowseForward(id: NodeId) returns (status: Status, answer: seq<NodeId>)
      ensures answer == Browse(space, id, false)
      ensures status == BrowseCheck(space, id)
    {
      answer := [];
      if id !in space {
        return BadNodeIdUnknown, [];
      }
      var refs := space[id].refs;
      var i := 0;
      while i < |refs|
        invariant 0 <= i <= |refs|
        invariant answer == Targets(space, refs[..i], false)
      {
        assert refs[..i + 1][..i] == refs[..i];
        if !refs[i].inverse && refs[i].target in space {
          answer := answer + [refs[i].target];
        }
        i := i + 1;
      }
      assert refs[..i] == refs;
      status := Good;
    }

    /** Writes the value attribute of one node. */
    method Write(id: NodeId, v: Variant) returns (status: Status)
      modifies `space
      ensures space == WriteValue(old(space), id, v)
      ensures status == WriteCheck(old(space), id, v)
      ensures status == BadNodeIdUnknown <==> id !in old(space)
      ensures status == BadNodeClassInvalid <==>
                id in old(space) && old(space)[id].kind !in {VariableNode, VariableTypeNode}
      ensures status == BadTypeMismatch <==>
                id in old(space) && old(space)[id].kind in {VariableNode, VariableTypeNode}
                && !(old(space)[id].value.Some? && old(space)[id].value.value.typeIndex == v.typeIndex)
      ensures status != Good <==> status in {BadNodeIdUnknown, BadNodeClassInvalid, BadTypeMismatch}
      ensures space == if status == Good then old(space)[id := old(space)[id].(value := Some(v))] else old(space)
    {
      if id !in space {
        return BadNodeIdUnknown;
      }
      var node := space[id];
      if node.kind != VariableNode && node.kind != VariableTypeNode {
        return BadNodeClassInvalid;
      }
      if node.value == None || node.value.value.typeIndex != v.typeIndex {
        return BadTypeMismatch;
      }
      space := space[id := node.(value := Some(v))];
      status := Good;
    }
  }
}
