/** The server on its hash table: the table with the nodes its entries lead to, the services on it, and
    the blocks' protocol running against it instead of against a map. */
module TableServer {
  import opened AddressSpace
  import opened HashTable
  import opened Names
  import opened Options
  import opened Probing
  import opened Publisher
  import opened Republish
  import opened Upsert
  import Protocol

  /** Each taken slot leads to a node; what stands at a free slot is never looked at. */
  datatype Held = Held(shelf: Shelf, nodes: seq<Node>)

  ghost predicate Kept(h: Held) {
    Sound(h.shelf) && |h.nodes| == |h.shelf.table|
  }

  /** The address space clients get to see: the nodes that look-ups find. */
  ghost function Seen(h: Held, hash: NodeId -> nat): Space
    requires Kept(h)
  {
    map id | id in Contents(h.shelf.table) && Found(h.shelf.table, hash(id), id)
      :: h.nodes[Place(h.shelf.table, hash, id)]
  }

  // ---- Entries by id

  /** No id is stored twice. */
  ghost predicate Unique(t: Table) {
    forall x, y :: 0 <= x < |t| && 0 <= y < |t| && t[x].Some? && t[x] == t[y] ==> x == y
  }

  ghost function SlotOf(t: Table, id: NodeId): (s: nat)
    requires id in Contents(t)
    ensures s < |t| && t[s] == Some(id)
  {
    var s :| 0 <= s < |t| && t[s].Some? && t[s].value == id; s
  }

  /** All nodes that are stored, found or not. */
  ghost function Whole(t: Table, nodes: seq<Node>): Space
    requires |nodes| == |t|
  {
    map id | id in Contents(t) :: nodes[SlotOf(t, id)]
  }

  lemma ConsistentUnique(t: Table, hash: NodeId -> nat)
    requires Consistent(t, hash)
    ensures Unique(t)
  {
    forall x, y | 0 <= x < |t| && 0 <= y < |t| && t[x].Some? && t[x] == t[y] ensures x == y {
      OneSlotEach(t, hash, x, y);
    }
  }

  /** In a consistent table everything stored is seen. */
  lemma SeenIsWhole(h: Held, hash: NodeId -> nat)
    requires Kept(h) && Consistent(h.shelf.table, hash)
    ensures Seen(h, hash) == Whole(h.shelf.table, h.nodes)
  {
    ConsistentUnique(h.shelf.table, hash);
    forall id | id in Contents(h.shelf.table)
      ensures Found(h.shelf.table, hash(id), id)
              && Place(h.shelf.table, hash, id) == SlotOf(h.shelf.table, id)
    {
      LooksUp(h.shelf.table, hash, id);
    }
  }

  lemma WholeStored(t: Table, nodes: seq<Node>, s: nat, id: NodeId, node: Node)
    requires |nodes| == |t| && s < |t| && t[s] == None && Unique(t) && id !in Contents(t)
    ensures var t' := t[s := Some(id)];
            Unique(t') && Whole(t', nodes[s := node]) == Whole(t, nodes)[id := node]
  {
    var t' := t[s := Some(id)];
    ContentsAdd(t, s, id);
    assert forall x :: 0 <= x < |t| && t[x].Some? ==> t[x].value in Contents(t);
    assert Unique(t');
    forall x | x in Contents(t) ensures SlotOf(t', x) == SlotOf(t, x) {
      assert t'[SlotOf(t, x)] == Some(x) == t'[SlotOf(t', x)];
    }
    assert SlotOf(t', id) == s;
  }

  lemma WholeDropped(t: Table, nodes: seq<Node>, s: nat)
    requires |nodes| == |t| && s < |t| && t[s].Some? && Unique(t)
    ensures var t' := t[s := None];
            Unique(t') && Whole(t', nodes) == Whole(t, nodes) - {t[s].value}
  {
    var t', id := t[s := None], t[s].value;
    assert Unique(t');
    forall x ensures x in Contents(t') <==> x in Contents(t) && x != id {
      if x in Contents(t) && x != id {
        assert t'[SlotOf(t, x)] == Some(x);
      }
      if x in Contents(t') {
        assert t[SlotOf(t', x)] == Some(x);
      }
    }
    forall x | x in Contents(t') ensures SlotOf(t', x) == SlotOf(t, x) {
      assert t[SlotOf(t', x)] == Some(x) == t[SlotOf(t, x)];
    }
  }

  lemma WholePrefix(t: Table, nodes: seq<Node>)
    requires |nodes| == |t| && t != [] && Unique(t)
    ensures var n := |t| - 1;
            && Unique(t[..n])
            && (t[n].Some? ==> t[n].value !in Contents(t[..n]))
            && Whole(t, nodes) == if t[n].Some? then Whole(t[..n], nodes[..n])[t[n].value := nodes[n]]
                                  else Whole(t[..n], nodes[..n])
  {
    var n := |t| - 1;
    ContentsOfPrefix(t);
    forall x | x in Contents(t[..n]) ensures SlotOf(t[..n], x) == SlotOf(t, x) < n {
      assert t[SlotOf(t[..n], x)] == Some(x) == t[SlotOf(t, x)];
    }
    if t[n].Some? {
      assert SlotOf(t, t[n].value) == n;
    }
  }

  // ---- Storing and rehashing

  /** The nodes after `id` was stored where its search ends. */
  ghost function PlacedNodes(t: Table, nodes: seq<Node>, hash: NodeId -> nat, id: NodeId, node: Node): (r: seq<Node>)
    requires |t| > 2 && |nodes| == |t|
    ensures |r| == |t|
  {
    if k: nat :| EndsAt(t, hash(id), id, k) then nodes[Slot(hash(id), |t|, k) := node] else nodes
  }

  lemma PlacedNodesAt(t: Table, nodes: seq<Node>, hash: NodeId -> nat, id: NodeId, node: Node, k: nat)
    requires |t| > 2 && |nodes| == |t| && EndsAt(t, hash(id), id, k)
    ensures PlacedNodes(t, nodes, hash, id, node) == nodes[Slot(hash(id), |t|, k) := node]
  {
    var j: nat :| EndsAt(t, hash(id), id, j)
      && PlacedNodes(t, nodes, hash, id, node) == nodes[Slot(hash(id), |t|, j) := node];
    OneEnd(t, hash(id), id, j, k);
  }

  lemma WholePlaced(t: Table, nodes: seq<Node>, hash: NodeId -> nat, id: NodeId, node: Node)
    requires |nodes| == |t| && Prime(|t|) && Used(t) < |t| && Consistent(t, hash)
    ensures Whole(Placed(t, hash, id), PlacedNodes(t, nodes, hash, id, node)) == Whole(t, nodes)[id := node]
  {
    var k := SearchEnds(t, hash(id), id);
    var s := Slot(hash(id), |t|, k);
    PlacedAt(t, hash, id, k);
    PlacedNodesAt(t, nodes, hash, id, node, k);
    ConsistentUnique(t, hash);
    LooksUp(t, hash, id);
    if t[s] == Some(id) {
      assert t[s := Some(id)] == t;
      WholeReplaced(t, nodes, s, node);
    } else {
      assert id !in Contents(t) by {
        PlacedKeeps(t, hash, id);
      }
      WholeStored(t, nodes, s, id, node);
    }
  }

  lemma WholeReplaced(t: Table, nodes: seq<Node>, s: nat, node: Node)
    requires |nodes| == |t| && s < |t| && t[s].Some? && Unique(t)
    ensures Whole(t, nodes[s := node]) == Whole(t, nodes)[t[s].value := node]
  {
    var id := t[s].value;
    assert SlotOf(t, id) == s;
    forall x | x in Contents(t) ensures SlotOf(t, x) == s ==> x == id {
    }
  }

  function Blank(size: nat): seq<Node> {
    seq(size, i => FB_NODE)
  }

  /** The nodes a rehash moves along with their entries. */
  ghost function FilledNodes(size: nat, t: Table, nodes: seq<Node>, hash: NodeId -> nat): (r: seq<Node>)
    requires size > 2 && |nodes| == |t|
    ensures |r| == size
    decreases |t|
  {
    if t == [] then Blank(size)
    else
      var n := |t| - 1;
      var r := FilledNodes(size, t[..n], nodes[..n], hash);
      if t[n].Some? then PlacedNodes(Filled(Empty(size), t[..n], hash), r, hash, t[n].value, nodes[n]) else r
  }

  /** The nodes by id, where an id that is stored twice stands for the node in its last slot. */
  ghost function Latest(t: Table, nodes: seq<Node>): Space
    requires |nodes| == |t|
    decreases |t|
  {
    if t == [] then map[]
    else
      var n := |t| - 1;
      var m := Latest(t[..n], nodes[..n]);
      if t[n].Some? then m[t[n].value := nodes[n]] else m
  }

  /** A rehash of any table, also one in which ids are hidden or stored twice, keeps under each id the
      node of its last slot. */
  lemma {:induction false} FilledLatest(size: nat, t: Table, nodes: seq<Node>, hash: NodeId -> nat)
    requires size > 2 && Prime(size) && Used(t) < size && |nodes| == |t|
    ensures Whole(Filled(Empty(size), t, hash), FilledNodes(size, t, nodes, hash)) == Latest(t, nodes)
    decreases |t|
  {
    FilledKeeps(size, t, hash);
    if t == [] {
      assert Contents(t) == {};
    } else {
      var n := |t| - 1;
      FilledKeeps(size, t[..n], hash);
      FilledLatest(size, t[..n], nodes[..n], hash);
      if t[n].Some? {
        WholePlaced(Filled(Empty(size), t[..n], hash), FilledNodes(size, t[..n], nodes[..n], hash), hash,
                    t[n].value, nodes[n]);
      }
    }
  }

  lemma {:induction false} UniqueLatest(t: Table, nodes: seq<Node>)
    requires |nodes| == |t| && Unique(t)
    ensures Latest(t, nodes) == Whole(t, nodes)
    decreases |t|
  {
    if t == [] {
      assert Contents(t) == {};
    } else {
      var n := |t| - 1;
      WholePrefix(t, nodes);
      UniqueLatest(t[..n], nodes[..n]);
    }
  }

  /** Without repeated ids it keeps every node under its id. */
  lemma FilledWhole(size: nat, t: Table, nodes: seq<Node>, hash: NodeId -> nat)
    requires size > 2 && Prime(size) && Used(t) < size && |nodes| == |t| && Unique(t)
    ensures Whole(Filled(Empty(size), t, hash), FilledNodes(size, t, nodes, hash)) == Whole(t, nodes)
  {
    FilledLatest(size, t, nodes, hash);
    UniqueLatest(t, nodes);
  }

  ghost function ExpandedHeld(h: Held, hash: NodeId -> nat, sizes: nat -> nat): (r: Held)
    requires Sizes(sizes) && |h.nodes| == |h.shelf.table|
    ensures r.shelf == Expanded(h.shelf, hash, sizes) && |r.nodes| == |r.shelf.table|
  {
    if Fits(|h.shelf.table|, h.shelf.count) then h
    else
      Held(Expanded(h.shelf, hash, sizes), FilledNodes(sizes(h.shelf.count * 2), h.shelf.table, h.nodes, hash))
  }

  lemma ExpandedHeldKeeps(h: Held, hash: NodeId -> nat, sizes: nat -> nat)
    requires Sizes(sizes) && |h.nodes| == |h.shelf.table| && Used(h.shelf.table) <= h.shelf.count
    requires !Fits(|h.shelf.table|, h.shelf.count) && Unique(h.shelf.table)
    ensures var r := ExpandedHeld(h, hash, sizes);
            && Kept(r) && Consistent(r.shelf.table, hash)
            && Whole(r.shelf.table, r.nodes) == Whole(h.shelf.table, h.nodes)
  {
    ExpandedKeeps(h.shelf, hash, sizes);
    FilledWhole(sizes(h.shelf.count * 2), h.shelf.table, h.nodes, hash);
  }

  // ---- The services

  ghost function RoomyHeld(h: Held, hash: NodeId -> nat, sizes: nat -> nat): (r: Held)
    requires Sizes(sizes) && Kept(h)
    ensures Kept(r) && r.shelf == Roomy(h.shelf, hash, sizes)
  {
    RoomyKeeps(h.shelf, hash, sizes);
    if Crowded(h.shelf) then ExpandedHeld(h, hash, sizes) else h
  }

  ghost function InsertedHeld(h: Held, id: NodeId, node: Node, hash: NodeId -> nat, sizes: nat -> nat)
    : (r: (Held, Status))
    requires Sizes(sizes) && Kept(h)
    ensures Kept(r.0) && (r.0.shelf, r.1) == Inserted(h.shelf, id, hash, sizes)
  {
    InsertedKeeps(h.shelf, id, hash, sizes);
    var m := RoomyHeld(h, hash, sizes);
    if Found(m.shelf.table, hash(id), id) then (m, BadNodeIdExists)
    else
      (Held(Shelf(Placed(m.shelf.table, hash, id), m.shelf.count + 1),
            PlacedNodes(m.shelf.table, m.nodes, hash, id, node)), Good)
  }

  ghost function RemovedHeld(h: Held, id: NodeId, hash: NodeId -> nat, sizes: nat -> nat): (r: (Held, Status))
    requires Sizes(sizes) && Kept(h)
    ensures Kept(r.0) && (r.0.shelf, r.1) == Removed(h.shelf, id, hash, sizes)
  {
    RemovedKeeps(h.shelf, id, hash, sizes);
    if !Found(h.shelf.table, hash(id), id) then (h, BadNodeIdUnknown)
    else
      var emptied := Held(Emptied(h.shelf, id, hash), h.nodes);
      (if Shrinks(h.shelf) then ExpandedHeld(emptied, hash, sizes) else emptied, Good)
  }

  /** One reference more on a node that is found. */
  ghost function AppendHeld(h: Held, id: NodeId, r: Reference, hash: NodeId -> nat): (a: Held)
    requires Kept(h)
    ensures Kept(a) && a.shelf == h.shelf
  {
    if Found(h.shelf.table, hash(id), id) then
      var s := Place(h.shelf.table, hash, id);
      h.(nodes := h.nodes[s := h.nodes[s].(refs := h.nodes[s].refs + [r])])
    else h
  }

  /** The node of the reference type, if it is found. */
  ghost function TypeNode(h: Held, refType: NodeId, hash: NodeId -> nat): Node
    requires Kept(h)
  {
    if Found(h.shelf.table, hash(refType), refType) then h.nodes[Place(h.shelf.table, hash, refType)] else FB_NODE
  }

  /** Both references of a new node. */
  ghost function Tied(h: Held, id: NodeId, parent: NodeId, refType: NodeId, hash: NodeId -> nat): (r: Held)
    requires Kept(h)
    ensures Kept(r) && r.shelf == h.shelf
  {
    AppendHeld(AppendHeld(h, id, Reference(refType, true, parent), hash), parent, Reference(refType, false, id), hash)
  }

  ghost function AddedHeld(h: Held, id: NodeId, parent: NodeId, refType: NodeId, node: Node, hash: NodeId -> nat,
                           sizes: nat -> nat): (r: (Held, Status))
    requires Sizes(sizes) && Kept(h)
    ensures Kept(r.0)
  {
    var refusal := Refusal(h.shelf, id, parent, refType, TypeNode(h, refType, hash), hash);
    if id.ns == 0 then (h, BadNodeIdRejected)
    else if refusal != Good then (h, refusal)
    else
      var (m, status) := InsertedHeld(h, id, node, hash, sizes);
      if status != Good then (m, status) else (Tied(m, id, parent, refType, hash), Good)
  }

  // ---- The table as a map of nodes

  /** The table is consistent and holds exactly this address space. */
  ghost predicate Mirrors(h: Held, sp: Space, hash: NodeId -> nat) {
    Kept(h) && Consistent(h.shelf.table, hash) && Whole(h.shelf.table, h.nodes) == sp
  }

  lemma MirrorShows(h: Held, sp: Space, hash: NodeId -> nat, id: NodeId)
    requires Mirrors(h, sp, hash)
    ensures Found(h.shelf.table, hash(id), id) <==> id in sp
    ensures id in sp ==> h.nodes[Place(h.shelf.table, hash, id)] == sp[id]
    ensures Seen(h, hash) == sp
  {
    LooksUp(h.shelf.table, hash, id);
    SeenIsWhole(h, hash);
    assert id in sp ==> Seen(h, hash)[id] == sp[id];
  }

  lemma RoomyMirrors(h: Held, sp: Space, hash: NodeId -> nat, sizes: nat -> nat)
    requires Sizes(sizes) && Mirrors(h, sp, hash)
    ensures Mirrors(RoomyHeld(h, hash, sizes), sp, hash)
  {
    ConsistentUnique(h.shelf.table, hash);
    if Crowded(h.shelf) {
      ExpandedHeldKeeps(h, hash, sizes);
    }
  }

  lemma InsertedMirrors(h: Held, sp: Space, id: NodeId, node: Node, hash: NodeId -> nat, sizes: nat -> nat)
    requires Sizes(sizes) && Mirrors(h, sp, hash)
    ensures var (r, status) := InsertedHeld(h, id, node, hash, sizes);
            && status == (if id in sp then BadNodeIdExists else Good)
            && Mirrors(r, if id in sp then sp else sp[id := node], hash)
  {
    var m := RoomyHeld(h, hash, sizes);
    RoomyMirrors(h, sp, hash, sizes);
    RoomyKeeps(h.shelf, hash, sizes);
    InsertedKeeps(h.shelf, id, hash, sizes);
    MirrorShows(m, sp, hash, id);
    if id !in sp {
      WholePlaced(m.shelf.table, m.nodes, hash, id, node);
    }
  }

  lemma AppendMirrors(h: Held, sp: Space, id: NodeId, r: Reference, hash: NodeId -> nat)
    requires Mirrors(h, sp, hash) && id in sp
    ensures Mirrors(AppendHeld(h, id, r, hash), Append(sp, id, r), hash)
  {
    var t, a := h.shelf.table, AppendHeld(h, id, r, hash);
    MirrorShows(h, sp, hash, id);
    ConsistentUnique(t, hash);
    assert SlotOf(t, id) == Place(t, hash, id);
    forall x | x in Contents(t) ensures Whole(t, a.nodes)[x] == Append(sp, id, r)[x] {
      assert SlotOf(t, x) == SlotOf(t, id) ==> x == id;
    }
    assert Whole(t, a.nodes) == Append(sp, id, r);
  }

  lemma RefusalMirrors(h: Held, sp: Space, id: NodeId, parent: NodeId, refType: NodeId, hash: NodeId -> nat)
    requires Mirrors(h, sp, hash) && id.ns != 0
    ensures var refusal := Refusal(h.shelf, id, parent, refType, TypeNode(h, refType, hash), hash);
            AddCheck(sp, id, parent, refType)
            == if refusal != Good then refusal else if id in sp then BadNodeIdExists else Good
  {
    MirrorShows(h, sp, hash, parent);
    MirrorShows(h, sp, hash, refType);
  }

  lemma TiedMirrors(h: Held, sp: Space, id: NodeId, parent: NodeId, refType: NodeId, hash: NodeId -> nat)
    requires Mirrors(h, sp, hash) && id in sp && parent in sp
    ensures Mirrors(Tied(h, id, parent, refType, hash),
                    Append(Append(sp, id, Reference(refType, true, parent)), parent, Reference(refType, false, id)),
                    hash)
  {
    AppendMirrors(h, sp, id, Reference(refType, true, parent), hash);
    AppendMirrors(AppendHeld(h, id, Reference(refType, true, parent), hash),
                  Append(sp, id, Reference(refType, true, parent)), parent, Reference(refType, false, id), hash);
  }

  /** AddNodes on a consistent table is AddNodes on the map, rehash included. */
  lemma AddedMirrors(h: Held, sp: Space, id: NodeId, parent: NodeId, refType: NodeId, node: Node,
                     hash: NodeId -> nat, sizes: nat -> nat)
    requires Sizes(sizes) && Mirrors(h, sp, hash)
    ensures var (r, status) := AddedHeld(h, id, parent, refType, node, hash, sizes);
            Mirrors(r, AddNode(sp, id, parent, refType, node), hash) && status == AddCheck(sp, id, parent, refType)
  {
    if id.ns != 0 {
      RefusalMirrors(h, sp, id, parent, refType, hash);
      InsertedMirrors(h, sp, id, node, hash, sizes);
      if AddCheck(sp, id, parent, refType) == Good {
        TiedMirrors(InsertedHeld(h, id, node, hash, sizes).0, sp[id := node], id, parent, refType, hash);
      }
    }
  }

  /** DeleteNodes on a consistent table takes out the right node, and goes on mirroring the map exactly
      if it rehashes the table or no other search uses the slot. */
  lemma RemovedMirrors(h: Held, sp: Space, id: NodeId, hash: NodeId -> nat, sizes: nat -> nat)
    requires Sizes(sizes) && Mirrors(h, sp, hash)
    ensures var (r, status) := RemovedHeld(h, id, hash, sizes);
            && status == (if id in sp then Good else BadNodeIdUnknown)
            && Whole(r.shelf.table, r.nodes) == DeleteNode(sp, id)
            && (Mirrors(r, DeleteNode(sp, id), hash) <==> SafeToRemove(h.shelf, id, hash))
  {
    MirrorShows(h, sp, hash, id);
    RemovedIff(h.shelf, id, hash, sizes);
    if id in sp {
      var s := Place(h.shelf.table, hash, id);
      ConsistentUnique(h.shelf.table, hash);
      WholeDropped(h.shelf.table, h.nodes, s);
      if Shrinks(h.shelf) {
        ExpandedHeldKeeps(Held(Emptied(h.shelf, id, hash), h.nodes), hash, sizes);
      }
    }
  }

  // ---- The blocks' protocol on the table

  /** One service call against the table. What a browse answers is what the table shows. */
  ghost function ExecHeld(h: Held, p: Pair, pc: PC, o: Outcome, dangling: bool, hash: NodeId -> nat,
                          sizes: nat -> nat): (r: (Held, PC))
    requires Sizes(sizes) && Kept(h)
    ensures Kept(r.0)
  {
    (if o == RequestLost then h
     else
       match pc
       case AddingFb => AddedHeld(h, FbId(p), OBJECTS, ORGANIZES, FB_NODE, hash, sizes).0
       case Deleting => RemovedHeld(h, VarId(p), hash, sizes).0
       case AddingVar(_) => AddedHeld(h, VarId(p), FbId(p), ORGANIZES, VAR_NODE, hash, sizes).0
       case _ => h,
     Exec(Seen(h, hash), p, pc, o, dangling).1)
  }

  lemma ExecMirrors(h: Held, sp: Space, p: Pair, pc: PC, o: Outcome, dangling: bool, hash: NodeId -> nat,
                    sizes: nat -> nat)
    requires Sizes(sizes) && Mirrors(h, sp, hash)
    requires pc == Deleting && o != RequestLost ==> SafeToRemove(h.shelf, VarId(p), hash)
    ensures var (r, pc') := ExecHeld(h, p, pc, o, dangling, hash, sizes);
            var (sp', pc'') := Exec(sp, p, pc, o, dangling);
            Mirrors(r, sp', hash) && pc' == pc''
  {
    MirrorShows(h, sp, hash, VarId(p));
    match pc
    case AddingFb => AddedMirrors(h, sp, FbId(p), OBJECTS, ORGANIZES, FB_NODE, hash, sizes);
    case Deleting => RemovedMirrors(h, sp, VarId(p), hash, sizes);
    case AddingVar(_) => AddedMirrors(h, sp, VarId(p), FbId(p), ORGANIZES, VAR_NODE, hash, sizes);
    case _ =>
  }

  /** The blocks and the table they share. */
  datatype System = System(held: Held, blocks: seq<Protocol.Block>)

  predicate Enabled(y: System, a: Protocol.Action) {
    a.who < |y.blocks| && (y.blocks[a.who].pc != Finished || y.blocks[a.who].pending > 0)
  }

  ghost function Step(y: System, a: Protocol.Action, hash: NodeId -> nat, sizes: nat -> nat): (r: System)
    requires Sizes(sizes) && Kept(y.held)
    ensures Kept(r.held)
  {
    if !Enabled(y, a) then y
    else
      var b := y.blocks[a.who];
      var (h, pc) := ExecHeld(y.held, b.pair, Protocol.CallOf(b), a.fate, a.dangling, hash, sizes);
      System(h, y.blocks[a.who := Protocol.Advance(b, pc)])
  }

  ghost function Run(y: System, acts: seq<Protocol.Action>, hash: NodeId -> nat, sizes: nat -> nat): (r: System)
    requires Sizes(sizes) && Kept(y.held)
    ensures Kept(r.held)
    decreases |acts|
  {
    if acts == [] then y else Run(Step(y, acts[0], hash, sizes), acts[1..], hash, sizes)
  }

  /** If this choice makes a delete arrive, it rehashes the table or no other search uses the slot. */
  ghost predicate Safe(y: System, a: Protocol.Action, hash: NodeId -> nat)
    requires Kept(y.held)
  {
    Enabled(y, a) && Protocol.CallOf(y.blocks[a.who]) == Deleting && a.fate != RequestLost ==>
      SafeToRemove(y.held.shelf, VarId(y.blocks[a.who].pair), hash)
  }

  /** The i-th choice of a run is safe when its turn comes. */
  ghost predicate SafeTurn(y: System, acts: seq<Protocol.Action>, i: nat, hash: NodeId -> nat, sizes: nat -> nat)
    requires Sizes(sizes) && Kept(y.held) && i < |acts|
  {
    Safe(Run(y, acts[..i], hash, sizes), acts[i], hash)
  }

  lemma LaterTurn(y: System, acts: seq<Protocol.Action>, i: nat, hash: NodeId -> nat, sizes: nat -> nat)
    requires Sizes(sizes) && Kept(y.held) && i + 1 < |acts|
    ensures SafeTurn(Step(y, acts[0], hash, sizes), acts[1..], i, hash, sizes)
            == SafeTurn(y, acts, i + 1, hash, sizes)
  {
    assert acts[..i + 1][1..] == acts[1..][..i];
  }

  lemma StepMirrors(y: System, s: Protocol.State, a: Protocol.Action, hash: NodeId -> nat, sizes: nat -> nat)
    requires Sizes(sizes) && Mirrors(y.held, s.space, hash) && y.blocks == s.blocks && Safe(y, a, hash)
    ensures Mirrors(Step(y, a, hash, sizes).held, Protocol.Step(s, a).space, hash)
    ensures Step(y, a, hash, sizes).blocks == Protocol.Step(s, a).blocks
  {
    if Enabled(y, a) {
      var b := y.blocks[a.who];
      ExecMirrors(y.held, s.space, b.pair, Protocol.CallOf(b), a.fate, a.dangling, hash, sizes);
    }
  }

  /** Refinement: over any run in which every delete that arrives is safe at its turn, the blocks do on
      the table exactly what they do on the map, and clients see exactly the map. */
  lemma {:induction false} RunMirrors(y: System, s: Protocol.State, acts: seq<Protocol.Action>, hash: NodeId -> nat,
                                      sizes: nat -> nat)
    requires Sizes(sizes) && Mirrors(y.held, s.space, hash) && y.blocks == s.blocks
    requires forall i: nat :: i < |acts| ==> SafeTurn(y, acts, i, hash, sizes)
    ensures var r := Run(y, acts, hash, sizes);
            && Mirrors(r.held, Protocol.Run(s, acts).space, hash)
            && Seen(r.held, hash) == Protocol.Run(s, acts).space
            && r.blocks == Protocol.Run(s, acts).blocks
    decreases |acts|
  {
    if acts == [] {
      MirrorShows(y.held, s.space, hash, OBJECTS);
    } else {
      assert SafeTurn(y, acts, 0, hash, sizes);
      StepMirrors(y, s, acts[0], hash, sizes);
      forall i: nat | i < |acts| - 1 ensures SafeTurn(Step(y, acts[0], hash, sizes), acts[1..], i, hash, sizes) {
        LaterTurn(y, acts, i, hash, sizes);
      }
      RunMirrors(Step(y, acts[0], hash, sizes), Protocol.Step(s, acts[0]), acts[1..], hash, sizes);
    }
  }

  /** So on the table, too, every interleaving ends in the one-shot upsert. */
  lemma TableRunIsUpsert(y: System, s: Protocol.State, acts: seq<Protocol.Action>, pairs: set<Pair>,
                         hash: NodeId -> nat, sizes: nat -> nat)
    requires Sizes(sizes) && Mirrors(y.held, s.space, hash) && y.blocks == s.blocks
    requires forall i: nat :: i < |acts| ==> SafeTurn(y, acts, i, hash, sizes)
    requires Protocol.Initial(s, pairs) && Protocol.Met(s, acts, Protocol.ALL)
    requires Protocol.Quiescent(Protocol.Run(s, acts))
    ensures View(Seen(Run(y, acts, hash, sizes).held, hash)) == Upserted(View(s.space), Protocol.Requested(s))
  {
    RunMirrors(y, s, acts, hash, sizes);
    Protocol.RunIsUpsert(s, acts, pairs);
  }

  // ---- After a refused create

  /** Storing the block in the slot the lost variable was in changes no other search. */
  lemma ShadowFinds(t: Table, hash: NodeId -> nat, v: NodeId, fb: NodeId, id: NodeId)
    requires Consistent(t, hash) && {v, fb, id} <= Contents(t) && v != fb && v != id && fb != id
    requires Found(t, hash(v), v)
    ensures var r := t[Place(t, hash, v) := Some(fb)];
            && Found(t, hash(id), id) && Found(r, hash(id), id)
            && Place(r, hash, id) == Place(t, hash, id) != Place(t, hash, v)
  {
    LooksUp(t, hash, id);
    var r := t[Place(t, hash, v) := Some(fb)];
    var k: nat :| EndsAt(t, hash(id), id, k) && t[Slot(hash(id), |t|, k)] == Some(id);
    PlaceEnds(t, hash, id, k);
    forall j: nat | j < k ensures !Halts(r, hash(id), id, j) {
      assert !Halts(t, hash(id), id, j);
    }
    assert EndsAt(r, hash(id), id, k);
    PlaceEnds(r, hash, id, k);
  }

  /** The block's search stops at the second copy, which stands before the first. */
  lemma ShadowIsFirst(t: Table, hash: NodeId -> nat, v: NodeId, fb: NodeId) returns (k: nat)
    requires |t| > 2 && v != fb && Found(t, hash(v), v) && Crosses(t, hash, fb, v)
    ensures var s := Place(t, hash, v); var r := t[s := Some(fb)];
            && EndsAt(t[s := None], hash(fb), fb, k) && Slot(hash(fb), |t|, k) == s
            && Found(r, hash(fb), fb) && Place(r, hash, fb) == s
  {
    var s := Place(t, hash, v);
    var m: nat :| EndsAt(t, hash(fb), fb, m) && PassesThrough(hash(fb), |t|, m, s);
    k := HiddenIsAddable(t, hash(fb), fb, m, s);
    var e, r := t[s := None], t[s := Some(fb)];
    forall j: nat | j < k ensures !Halts(r, hash(fb), fb, j) {
      assert !Halts(e, hash(fb), fb, j);
    }
    assert EndsAt(r, hash(fb), fb, k);
    PlaceEnds(r, hash, fb, k);
  }

  lemma ShadowContents(t: Table, hash: NodeId -> nat, v: NodeId, fb: NodeId, id: NodeId)
    requires Consistent(t, hash) && {v, fb} <= Contents(t) && v != fb && Found(t, hash(v), v)
    ensures id in Contents(t[Place(t, hash, v) := Some(fb)]) <==> id in Contents(t) && id != v
  {
    var s := Place(t, hash, v);
    ContentsDrop(t, hash, s);
    ContentsAdd(t[s := None], s, fb);
    assert t[s := None][s := Some(fb)] == t[s := Some(fb)];
  }

  /** The node `fb` stored once more, in the slot of `v`. */
  ghost function Shadowed(h: Held, v: NodeId, fb: NodeId, node: Node, hash: NodeId -> nat): (r: Held)
    requires Kept(h) && Found(h.shelf.table, hash(v), v)
    ensures Kept(r)
  {
    var s := Place(h.shelf.table, hash, v);
    UsedUpdate(h.shelf.table, s, Some(fb));
    Held(Shelf(h.shelf.table[s := Some(fb)], h.shelf.count), h.nodes[s := node])
  }

  lemma ShadowShows(h: Held, sp: Space, v: NodeId, fb: NodeId, node: Node, hash: NodeId -> nat, id: NodeId)
    requires Mirrors(h, sp, hash) && {v, fb} <= sp.Keys && v != fb
    requires Found(h.shelf.table, hash(v), v) && Crosses(h.shelf.table, hash, fb, v)
    ensures var r := Shadowed(h, v, fb, node, hash);
            && (id in Contents(r.shelf.table) <==> id in sp && id != v)
            && (id in sp && id != v ==>
                  && Found(r.shelf.table, hash(id), id)
                  && r.nodes[Place(r.shelf.table, hash, id)] == if id == fb then node else sp[id])
  {
    var t := h.shelf.table;
    ShadowContents(t, hash, v, fb, id);
    if id == fb {
      var k := ShadowIsFirst(t, hash, v, fb);
    } else if id in sp && id != v {
      MirrorShows(h, sp, hash, id);
      ShadowFinds(t, hash, v, fb, id);
    }
  }

  /** What clients see then: every other node as before, and for the block the node stored last. */
  lemma ShadowSeen(h: Held, sp: Space, v: NodeId, fb: NodeId, node: Node, hash: NodeId -> nat)
    requires Mirrors(h, sp, hash) && {v, fb} <= sp.Keys && v != fb
    requires Found(h.shelf.table, hash(v), v) && Crosses(h.shelf.table, hash, fb, v)
    ensures Seen(Shadowed(h, v, fb, node, hash), hash) == (sp - {v})[fb := node]
  {
    var r := Shadowed(h, v, fb, node, hash);
    forall id
      ensures id in Contents(r.shelf.table) <==> id in sp && id != v
      ensures id in sp && id != v ==>
                && Found(r.shelf.table, hash(id), id)
                && r.nodes[Place(r.shelf.table, hash, id)] == if id == fb then node else sp[id]
    {
      ShadowShows(h, sp, v, fb, node, hash, id);
    }
  }

  lemma AppendSeen(h: Held, id: NodeId, r: Reference, hash: NodeId -> nat)
    requires Kept(h) && id in Seen(h, hash)
    ensures Seen(AppendHeld(h, id, r, hash), hash) == Append(Seen(h, hash), id, r)
  {
    var t, a := h.shelf.table, AppendHeld(h, id, r, hash);
    forall x | x in Seen(h, hash) ensures Seen(a, hash)[x] == Append(Seen(h, hash), id, r)[x] {
      assert Place(t, hash, x) == Place(t, hash, id) ==> x == id;
    }
  }

  lemma ShadowRefusal(h: Held, sp: Space, p: Pair, hash: NodeId -> nat, sizes: nat -> nat)
    requires Sizes(sizes) && Mirrors(h, sp, hash) && Builtins(sp) && {FbId(p), VarId(p)} <= sp.Keys
    requires !Shrinks(h.shelf) && Found(h.shelf.table, hash(VarId(p)), VarId(p))
    requires Crosses(h.shelf.table, hash, FbId(p), VarId(p))
    requires !Crosses(h.shelf.table, hash, OBJECTS, VarId(p)) && !Crosses(h.shelf.table, hash, ORGANIZES, VarId(p))
    ensures var h1 := RemovedHeld(h, VarId(p), hash, sizes).0;
            && h1 == Held(Emptied(h.shelf, VarId(p), hash), h.nodes) && !Crowded(h1.shelf)
            && AddedHeld(h1, VarId(p), FbId(p), ORGANIZES, VAR_NODE, hash, sizes) == (h1, BadParentNodeIdInvalid)
            && !Found(h1.shelf.table, hash(FbId(p)), FbId(p)) && VarId(p) !in Contents(h1.shelf.table)
            && Refusal(h1.shelf, FbId(p), OBJECTS, ORGANIZES, TypeNode(h1, ORGANIZES, hash), hash) == Good
  {
    var v, fb, t := VarId(p), FbId(p), h.shelf.table;
    VarStringIsNoName(p, p.fb);
    MirrorShows(h, sp, hash, fb);
    MirrorShows(h, sp, hash, OBJECTS);
    MirrorShows(h, sp, hash, ORGANIZES);
    RemovalHidesCrossing(h.shelf, v, fb, hash);
    RemovalHidesCrossing(h.shelf, v, OBJECTS, hash);
    RemovalHidesCrossing(h.shelf, v, ORGANIZES, hash);
    ContentsEmptied(h.shelf, v, hash);
    ConsistentUnique(t, hash);
    var s := Place(t, hash, v);
    var o := Place(t[s := None], hash, ORGANIZES);
    assert t[o] == Some(ORGANIZES) == t[Place(t, hash, ORGANIZES)];
  }

  /** An id whose search ends at a free slot of a table that is not crowded is stored there. */
  lemma InsertedHeldAt(h: Held, id: NodeId, node: Node, k: nat, hash: NodeId -> nat, sizes: nat -> nat)
    requires Sizes(sizes) && Kept(h) && !Crowded(h.shelf)
    requires EndsAt(h.shelf.table, hash(id), id, k) && h.shelf.table[Slot(hash(id), |h.shelf.table|, k)] == None
    ensures var s := Slot(hash(id), |h.shelf.table|, k);
            InsertedHeld(h, id, node, hash, sizes)
            == (Held(Shelf(h.shelf.table[s := Some(id)], h.shelf.count + 1), h.nodes[s := node]), Good)
  {
    PlacedAt(h.shelf.table, hash, id, k);
    PlacedNodesAt(h.shelf.table, h.nodes, hash, id, node, k);
    forall j: nat | EndsAt(h.shelf.table, hash(id), id, j) ensures j == k {
      OneEnd(h.shelf.table, hash(id), id, j, k);
    }
  }

  /** The second copy goes into the emptied slot. */
  lemma ShadowInserted(h: Held, h1: Held, v: NodeId, fb: NodeId, node: Node, hash: NodeId -> nat, sizes: nat -> nat)
    requires Sizes(sizes) && Kept(h) && v != fb && Found(h.shelf.table, hash(v), v)
    requires Crosses(h.shelf.table, hash, fb, v)
    requires Kept(h1) && h1 == Held(Emptied(h.shelf, v, hash), h.nodes) && !Crowded(h1.shelf)
    ensures InsertedHeld(h1, fb, node, hash, sizes) == (Shadowed(h, v, fb, node, hash), Good)
  {
    var t := h.shelf.table;
    var s := Place(t, hash, v);
    var k := ShadowIsFirst(t, hash, v, fb);
    assert h1.shelf.table == t[s := None];
    InsertedHeldAt(h1, fb, node, k, hash, sizes);
    assert t[s := None][s := Some(fb)] == t[s := Some(fb)];
  }

  lemma ShadowTied(m: Held, sp: Space, p: Pair, hash: NodeId -> nat)
    requires Kept(m) && Builtins(sp) && Seen(m, hash) == DropVar(sp, p)[FbId(p) := FB_NODE]
    ensures Seen(Tied(m, FbId(p), OBJECTS, ORGANIZES, hash), hash)
            == AddFb(DeleteNode(DropVar(sp, p), FbId(p)), p)
  {
    AppendSeen(m, FbId(p), Parent(OBJECTS), hash);
    AppendSeen(AppendHeld(m, FbId(p), Parent(OBJECTS), hash), OBJECTS, Child(FbId(p)), hash);
    var bare := DeleteNode(DropVar(sp, p), FbId(p));
    assert bare[FbId(p) := FB_NODE] == DropVar(sp, p)[FbId(p) := FB_NODE];
  }

  /** The create that follows a delete is refused because the variable stood in its block's way. Then
      the block cannot be seen, and the next publish stores it a second time: the first copy, with its
      references to the block's variables, is never found again. */
  lemma BlockIsShadowed(h: Held, sp: Space, p: Pair, hash: NodeId -> nat, sizes: nat -> nat)
    requires Sizes(sizes) && Mirrors(h, sp, hash) && Builtins(sp) && {FbId(p), VarId(p)} <= sp.Keys
    requires !Shrinks(h.shelf) && Found(h.shelf.table, hash(VarId(p)), VarId(p))
    requires Crosses(h.shelf.table, hash, FbId(p), VarId(p))
    requires !Crosses(h.shelf.table, hash, OBJECTS, VarId(p)) && !Crosses(h.shelf.table, hash, ORGANIZES, VarId(p))
    ensures var h1 := RemovedHeld(h, VarId(p), hash, sizes).0;
            var (h2, status) := AddedHeld(h1, FbId(p), OBJECTS, ORGANIZES, FB_NODE, hash, sizes);
            && AddedHeld(h1, VarId(p), FbId(p), ORGANIZES, VAR_NODE, hash, sizes) == (h1, BadParentNodeIdInvalid)
            && FbId(p) !in Seen(h1, hash) && VarId(p) !in Seen(h1, hash)
            && status == Good
            && Seen(h2, hash) == AddFb(DeleteNode(DropVar(sp, p), FbId(p)), p)
  {
    var h1 := RemovedHeld(h, VarId(p), hash, sizes).0;
    ShadowRefusal(h, sp, p, hash, sizes);
    ShadowInserted(h, h1, VarId(p), FbId(p), FB_NODE, hash, sizes);
    var m := InsertedHeld(h1, FbId(p), FB_NODE, hash, sizes).0;
    VarStringIsNoName(p, p.fb);
    ShadowSeen(h, sp, VarId(p), FbId(p), FB_NODE, hash);
    ShadowTied(m, sp, p, hash);
  }
}
