/** The OPC_UA_PUBLISH and OPC_UA_WRITE function blocks as the runtime executes them, with the
    client sessions they open. */
module Blocks {
  import opened Names
  import opened AddressSpace
  import opened Options
  import opened Publisher
  import opened Server
  import opened Upsert

  /** The counters of one resource: clients made and freed, CNF events sent. */
  class Resource {
    var created: nat
    var deleted: nat
    var confirmed: nat

    constructor ()
      ensures created == deleted == confirmed == 0
    {
      created, deleted, confirmed := 0, 0, 0;
    }

    method NewClient(server: UaServer, net: nat -> Outcome) returns (client: Client)
      modifies `created
      ensures created == old(created) + 1
      ensures fresh(client) && client.alive && !client.connected && client.calls == 0
      ensures client.server == server && client.net == net && client.resource == this
    {
      client := new Client(this, server, net);
      created := created + 1;
    }

    method SendConfirmation()
      modifies `confirmed
      ensures confirmed == old(confirmed) + 1
    {
      confirmed := confirmed + 1;
    }
  }

  /** A client may only be used while it is alive, and serves calls only once it has connected. */
  class Client {
    const resource: Resource
    const server: UaServer
    const net: nat -> Outcome
    var alive: bool
    var connected: bool
    var calls: nat

    constructor (resource: Resource, server: UaServer, net: nat -> Outcome)
      ensures alive && !connected && calls == 0
      ensures this.resource == resource && this.server == server && this.net == net
    {
      this.resource := resource;
      this.server := server;
      this.net := net;
      alive, connected, calls := true, false, 0;
    }

    method Connect() returns (good: bool)
      requires alive && !connected
      modifies `connected, `calls
      ensures calls == old(calls) + 1
      ensures good == connected == (net(old(calls)) == Delivered)
    {
      good := net(calls) == Delivered;
      calls := calls + 1;
      connected := good;
    }

    /** One result per browsed node, or none when the call or its answer is lost. */
    method Browse(id: NodeId) returns (results: seq<seq<NodeId>>)
      requires alive && connected
      modifies `calls
      ensures calls == old(calls) + 1
      ensures results == if net(old(calls)) == Delivered then [AddressSpace.Browse(server.space, id, false)] else []
    {
      results := [];
      if net(calls) != RequestLost {
        var _, answer := server.BrowseForward(id);
        if net(calls) == Delivered {
          results := [answer];
        }
      }
      calls := calls + 1;
    }

    method AddNodes(id: NodeId, parent: NodeId, node: Node)
      requires alive && connected
      modifies `calls, server`space
      ensures calls == old(calls) + 1
      ensures server.space == if net(old(calls)) == RequestLost then old(server.space)
                              else AddNode(old(server.space), id, parent, ORGANIZES, node)
    {
      if net(calls) != RequestLost {
        var _ := server.AddNodes(id, parent, ORGANIZES, node);
      }
      calls := calls + 1;
    }

    method DeleteNodes(id: NodeId)
      requires alive && connected
      modifies `calls, server`space
      ensures calls == old(calls) + 1
      ensures server.space == if net(old(calls)) == RequestLost then old(server.space)
                              else DeleteNode(old(server.space), id)
    {
      if net(calls) != RequestLost {
        var _ := server.DeleteNodes(id);
      }
      calls := calls + 1;
    }

    method Write(id: NodeId, v: Variant)
      requires alive && connected
      modifies `calls, server`space
      ensures calls == old(calls) + 1
      ensures server.space == if net(old(calls)) == RequestLost then old(server.space)
                              else WriteValue(old(server.space), id, v)
    {
      if net(calls) != RequestLost {
        var _ := server.Write(id, v);
      }
      calls := calls + 1;
    }

    method Disconnect()
      requires alive && connected
      modifies `connected
      ensures !connected
    {
      connected := false;
    }

    /** Frees the client; a dead client satisfies no other method's precondition. */
    method Delete()
      requires alive && !connected
      modifies `alive, resource`deleted
      ensures !alive
      ensures resource.deleted == old(resource.deleted) + 1
    {
      alive := false;
      resource.deleted := resource.deleted + 1;
    }
  }

  /** The nested search over a browse response: every result, every reference, no early exit. */
  method Search(results: seq<seq<NodeId>>, sought: string) returns (found: bool)
    ensures found <==> exists i :: 0 <= i < |results| && Mentions(results[i], sought)
  {
    found := false;
    var i := 0;
    while i < |results|
      invariant 0 <= i <= |results|
      invariant found <==> exists k :: 0 <= k < i && Mentions(results[k], sought)
    {
      ghost var before := found;
      var j := 0;
      while j < |results[i]|
        invariant 0 <= j <= |results[i]|
        invariant found <==> before || Mentions(results[i][..j], sought)
      {
        assert results[i][..j + 1] == results[i][..j] + [results[i][j]];
        if results[i][j].ident == Text(sought) {
          assert results[i][j] in results[i][..j + 1];
          found := true;
        } else {
          assert Mentions(results[i][..j + 1], sought) ==> Mentions(results[i][..j], sought);
        }
        j := j + 1;
      }
      assert results[i][..j] == results[i];
      i := i + 1;
    }
  }

  method CreateFbNode(client: Client, p: Pair)
    requires client.alive && client.connected
    modifies client`calls, client.server`space
    ensures client.calls == old(client.calls) + 1
    ensures client.server.space == if client.net(old(client.calls)) == RequestLost then old(client.server.space)
                                   else AddFb(old(client.server.space), p)
    ensures client.net(old(client.calls)) != RequestLost ==>
              client.server.space == AddNode(old(client.server.space), NodeId(1, Text(p.fb)), NodeId(0, Numeric(85)),
                                             NodeId(0, Numeric(35)), Node(ObjectNode, false, None, []))
  {
    client.AddNodes(NodeId(1, Text(p.fb)), OBJECTS, FB_NODE);
  }

  method CreateVariableNode(client: Client, p: Pair)
    requires client.alive && client.connected
    modifies client`calls, client.server`space
    ensures client.calls == old(client.calls) + 1
    ensures client.server.space == if client.net(old(client.calls)) == RequestLost then old(client.server.space)
                                   else AddVar(old(client.server.space), p)
    ensures client.net(old(client.calls)) != RequestLost ==>
              client.server.space == AddNode(old(client.server.space), NodeId(1, Text(p.fb + "." + p.v)),
                                             NodeId(1, Text(p.fb)), NodeId(0, Numeric(35)),
                                             Node(VariableNode, false, Some(Variant(1, 0)), []))
  {
    var browse := p.fb + "." + p.v;
    client.AddNodes(NodeId(1, Text(browse)), NodeId(1, Text(p.fb)), VAR_NODE);
  }

  /** Browse a node and search the answer; a lost call or answer finds nothing. */
  method BrowseFor(client: Client, id: NodeId, sought: string) returns (found: bool)
    requires client.alive && client.connected
    modifies client`calls
    ensures client.calls == old(client.calls) + 1
    ensures found <==> client.net(old(client.calls)) == Delivered && Finds(client.server.space, id, sought, false)
  {
    ghost var answer := AddressSpace.Browse(client.server.space, id, false);
    var response := client.Browse(id);
    found := Search(response, sought);
    assert response == [answer] ==> response[0] == answer;
  }

  /** The branch for a block that is not there: block, then variable. */
  method CreateBoth(client: Client, p: Pair)
    requires client.alive && client.connected && client.calls == 2
    modifies client`calls, client.server`space
    ensures client.server.space == Solo(old(client.server.space), p, AddingFb, client.net, 2, false)
  {
    SoloCreate(client.server.space, p, client.net, 2, false);
    CreateFbNode(client, p);
    CreateVariableNode(client, p);
  }

  /** The branch for a block that is there: look for the variable, drop it, create it. */
  method ReplaceVariable(client: Client, p: Pair)
    requires client.alive && client.connected && client.calls == 2
    modifies client`calls, client.server`space
    ensures client.server.space == Solo(old(client.server.space), p, BrowsingFb, client.net, 2, false)
  {
    SoloReplace(client.server.space, p, client.net, 2, false);
    var varBrowseId := p.fb + "." + p.v;
    var varFound := BrowseFor(client, NodeId(1, Text(p.fb)), varBrowseId);
    if varFound {
      client.DeleteNodes(NodeId(1, Text(varBrowseId)));
    }
    CreateVariableNode(client, p);
  }

  /** Everything between connect and disconnect. */
  method Reconcile(client: Client, p: Pair)
    requires client.alive && client.connected && client.calls == 1
    modifies client`calls, client.server`space
    ensures client.server.space == Solo(old(client.server.space), p, BrowsingRoot, client.net, 1, false)
  {
    var nodeFound := BrowseFor(client, OBJECTS, p.fb);
    if !nodeFound {
      CreateBoth(client, p);
    } else {
      ReplaceVariable(client, p);
    }
  }

  /** OPC_UA_PUBLISH on REQ. `input` is where the data input is wired from, if anywhere; the final
      space is the one Solo gives, one CNF is sent, and the client made is freed. */
  method ExecutePublish(resource: Resource, server: UaServer, input: Option<Pair>, net: nat -> Outcome)
    modifies resource, server`space
    ensures resource.confirmed == old(resource.confirmed) + 1
    ensures resource.created == old(resource.created) + (if input.Some? then 1 else 0)
    ensures resource.deleted == old(resource.deleted) + (if input.Some? then 1 else 0)
    ensures server.space == match input
                            case None => old(server.space)
                            case Some(p) => Solo(old(server.space), p, Connecting, net, 0, false)
  {
    if input.Some? {
      var client := resource.NewClient(server, net);
      var good := client.Connect();
      if !good {
        client.Delete();
        resource.SendConfirmation();
        return;
      }
      Reconcile(client, input.value);
      client.Disconnect();
      client.Delete();
    }
    resource.SendConfirmation();
  }

  const ANSWER := NodeId(1, Text("the.answer"))
  const INT32: nat := 5

  /** The write goes out only after a connect, and acts only if it reaches the server. */
  predicate Arrives(net: nat -> Outcome) {
    net(0) == Delivered && net(1) != RequestLost
  }

  /** OPC_UA_WRITE on REQ. A failed connect ends the block without a CNF. */
  method ExecuteWrite(resource: Resource, server: UaServer, value: int, net: nat -> Outcome)
    modifies resource, server`space
    ensures resource.confirmed == old(resource.confirmed) + (if net(0) == Delivered then 1 else 0)
    ensures resource.created == old(resource.created) + 1
    ensures resource.deleted == old(resource.deleted) + 1
    ensures server.space == if Arrives(net) then WriteValue(old(server.space), ANSWER, Variant(INT32, value))
                            else old(server.space)
  {
    var client := resource.NewClient(server, net);
    var good := client.Connect();
    if !good {
      client.Delete();
      return;
    }
    client.Write(NodeId(1, Text("the.answer")), Variant(INT32, value));
    client.Disconnect();
    client.Delete();
    resource.SendConfirmation();
  }

  // ---- Sequences of requests

  /** The space after a block's requests, each with its own network. */
  function SoloAll(sp: Space, p: Pair, nets: seq<nat -> Outcome>): Space
    decreases |nets|
  {
    if nets == [] then sp
    else Solo(SoloAll(sp, p, nets[..|nets| - 1]), p, Connecting, nets[|nets| - 1], 0, false)
  }

  /** Any sequence of requests to a wired publisher: one CNF each, every client freed. */
  method ServePublish(resource: Resource, server: UaServer, p: Pair, nets: seq<nat -> Outcome>)
    modifies resource, server`space
    ensures resource.confirmed == old(resource.confirmed) + |nets|
    ensures resource.created - resource.deleted == old(resource.created) - old(resource.deleted)
    ensures server.space == SoloAll(old(server.space), p, nets)
  {
    for k := 0 to |nets|
      invariant resource.confirmed == old(resource.confirmed) + k
      invariant resource.created - resource.deleted == old(resource.created) - old(resource.deleted)
      invariant server.space == SoloAll(old(server.space), p, nets[..k])
    {
      ExecutePublish(resource, server, Some(p), nets[k]);
      assert nets[..k + 1][..k] == nets[..k];
    }
    assert nets[..|nets|] == nets;
  }

  lemma {:induction false} SoloAllKeeps(sp: Space, p: Pair, nets: seq<nat -> Outcome>, pairs: set<Pair>)
    requires WellFormed(sp, pairs) && p in pairs
    ensures WellFormed(SoloAll(sp, p, nets), pairs)
    decreases |nets|
  {
    if nets != [] {
      SoloAllKeeps(sp, p, nets[..|nets| - 1], pairs);
      SoloKeeps(SoloAll(sp, p, nets[..|nets| - 1]), p, Connecting, nets[|nets| - 1], 0, false, pairs);
    }
  }

  /** Whatever happened to the earlier requests, one that connects, gets its searches answered and
      whose other calls reach the server makes up for it: the variable is there, fresh and linked. */
  lemma LastRequestHeals(sp: Space, p: Pair, nets: seq<nat -> Outcome>, pairs: set<Pair>)
    requires WellFormed(sp, pairs) && p in pairs
    requires nets != []
    requires var net := nets[|nets| - 1];
             net(0) == net(1) == net(2) == Delivered && net(3) != RequestLost && net(4) != RequestLost
    ensures var sp' := SoloAll(sp, p, nets);
            WellFormed(sp', pairs) && VarId(p) in sp' && sp'[VarId(p)] == FreshVar(p)
            && FbId(p) in sp' && Child(VarId(p)) in sp'[FbId(p)].refs && Child(FbId(p)) in sp'[OBJECTS].refs
  {
    var before := SoloAll(sp, p, nets[..|nets| - 1]);
    SoloAllKeeps(sp, p, nets[..|nets| - 1], pairs);
    SoloCases(before, p, nets[|nets| - 1], false);
    SoloCases(before, p, Works(), false);
    PublishKeeps(before, p, false, pairs);
    PublishEffect(before, p, false, pairs);
    assert Linked(Publish(before, p, false), p);
  }

  function Connected(nets: seq<nat -> Outcome>): nat
    decreases |nets|
  {
    if nets == [] then 0
    else Connected(nets[..|nets| - 1]) + if nets[|nets| - 1](0) == Delivered then 1 else 0
  }

  /** The space after write requests, each with its own value and network. */
  function WriteAll(sp: Space, values: seq<int>, nets: seq<nat -> Outcome>): Space
    requires |values| == |nets|
    decreases |nets|
  {
    if nets == [] then sp
    else
      var n := |nets| - 1;
      var before := WriteAll(sp, values[..n], nets[..n]);
      if Arrives(nets[n]) then WriteValue(before, ANSWER, Variant(INT32, values[n])) else before
  }

  /** Any sequence of write requests: one CNF per connect that worked, every client freed. */
  method ServeWrites(resource: Resource, server: UaServer, values: seq<int>, nets: seq<nat -> Outcome>)
    requires |values| == |nets|
    modifies resource, server`space
    ensures resource.confirmed == old(resource.confirmed) + Connected(nets)
    ensures resource.created - resource.deleted == old(resource.created) - old(resource.deleted)
    ensures resource.created == old(resource.created) + |nets|
    ensures server.space == WriteAll(old(server.space), values, nets)
  {
    for k := 0 to |nets|
      invariant resource.confirmed == old(resource.confirmed) + Connected(nets[..k])
      invariant resource.created - resource.deleted == old(resource.created) - old(resource.deleted)
      invariant resource.created == old(resource.created) + k
      invariant server.space == WriteAll(old(server.space), values[..k], nets[..k])
    {
      ExecuteWrite(resource, server, values[k], nets[k]);
      assert nets[..k + 1][..k] == nets[..k] && values[..k + 1][..k] == values[..k];
    }
    assert nets[..|nets|] == nets && values[..|nets|] == values;
  }

  function LastArrived(values: seq<int>, nets: seq<nat -> Outcome>): Option<int>
    requires |values| == |nets|
    decreases |nets|
  {
    if nets == [] then None
    else
      var n := |nets| - 1;
      if Arrives(nets[n]) then Some(values[n]) else LastArrived(values[..n], nets[..n])
  }

  /** The answer node is there, is a variable or a variable type, and holds a 32-bit integer. */
  ghost predicate TakesIntegers(sp: Space) {
    && ANSWER in sp
    && (sp[ANSWER].kind == VariableNode || sp[ANSWER].kind == VariableTypeNode)
    && sp[ANSWER].value.Some? && sp[ANSWER].value.value.typeIndex == 5
  }

  /** Of any sequence of writes only the last that arrives counts, and it counts exactly if the answer
      node held a 32-bit integer at the start; nothing else in the address space changes. Unless the
      node held that very value already, it holds it afterwards exactly in that case. */
  lemma {:induction false} LastArrivedWins(sp: Space, values: seq<int>, nets: seq<nat -> Outcome>)
    requires |values| == |nets|
    ensures WriteAll(sp, values, nets) ==
            if LastArrived(values, nets).None? || !TakesIntegers(sp) then sp
            else sp[ANSWER := sp[ANSWER].(value := Some(Variant(5, LastArrived(values, nets).value)))]
    ensures LastArrived(values, nets).Some? ==>
              var sp' := WriteAll(sp, values, nets); var last := Some(Variant(5, LastArrived(values, nets).value));
              (ANSWER in sp' && sp'[ANSWER].value == last)
              <==> TakesIntegers(sp) || (ANSWER in sp && sp[ANSWER].value == last)
    decreases |nets|
  {
    if nets != [] {
      var n := |nets| - 1;
      LastArrivedWins(sp, values[..n], nets[..n]);
    }
  }

  /** The answer node is the variable "answer" of a block "the". If an OPC_UA_PUBLISH block made it,
      its type is not Int32: every write is refused, although each one is confirmed. */
  lemma PublishedAnswerIsNeverWritten(sp: Space, dangling: bool, values: seq<int>, nets: seq<nat -> Outcome>,
                                      pairs: set<Pair>)
    requires |values| == |nets| && WellFormed(sp, pairs) && Pair("the", "answer") in pairs
    ensures var published := Publish(sp, Pair("the", "answer"), dangling);
            ANSWER in published && WriteAll(published, values, nets) == published
  {
    var p := Pair("the", "answer");
    assert VarString(p) == "the.answer";
    PublishEffect(sp, p, dangling, pairs);
    LastArrivedWins(Publish(sp, p, dangling), values, nets);
  }
}
