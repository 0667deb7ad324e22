/** The hash table while a variable is deleted and created again, how a variable comes to stand in its
    parent's way, and ids that always collide. */
module Republish {
  import opened AddressSpace
  import opened HashTable
  import opened Options
  import opened Probing

  // ---- Deleting a variable and creating it again

  /** A reference type nodes may be added with. */
  predicate Usable(n: Node) {
    n.kind == ReferenceTypeNode && !n.isAbstract
  }

  /** What AddNodes checks before it inserts; `refNode` is what the table holds for the reference type. */
  ghost function Refusal(sh: Shelf, id: NodeId, parent: NodeId, refType: NodeId, refNode: Node,
                         hash: NodeId -> nat): Status
    requires Sound(sh)
  {
    if id.ns >= NAMESPACES then BadNodeIdInvalid
    else if !Found(sh.table, hash(parent), parent) then BadParentNodeIdInvalid
    else if !Found(sh.table, hash(refType), refType) then BadReferenceTypeIdInvalid
    else if refNode.kind != ReferenceTypeNode then BadReferenceTypeIdInvalid
    else if refNode.isAbstract then BadReferenceNotAllowed
    else Good
  }

  /** AddNodes at the level of the table: the parent and the reference type are looked up before the
      new node is inserted. */
  ghost function AddedUnder(sh: Shelf, id: NodeId, parent: NodeId, refType: NodeId, refNode: Node,
                            hash: NodeId -> nat, sizes: nat -> nat): (r: (Shelf, Status))
    requires Sizes(sizes) && Sound(sh)
    ensures Sound(r.0)
  {
    InsertedKeeps(sh, id, hash, sizes);
    var refusal := Refusal(sh, id, parent, refType, refNode, hash);
    if refusal != Good then (sh, refusal) else Inserted(sh, id, hash, sizes)
  }

  /** A search passes through the slot of a stored id. */
  ghost predicate Crosses(t: Table, hash: NodeId -> nat, id: NodeId, other: NodeId)
    requires |t| > 2 && Found(t, hash(other), other)
  {
    exists k: nat :: EndsAt(t, hash(id), id, k) && PassesThrough(hash(id), |t|, k, Place(t, hash, other))
  }

  lemma RemovalHidesCrossing(sh: Shelf, v: NodeId, id: NodeId, hash: NodeId -> nat)
    requires Sound(sh) && id != v
    requires Found(sh.table, hash(v), v) && Found(sh.table, hash(id), id)
    ensures Found(Emptied(sh, v, hash).table, hash(id), id) <==> !Crosses(sh.table, hash, id, v)
  {
    var s := Place(sh.table, hash, v);
    var k: nat :| EndsAt(sh.table, hash(id), id, k) && sh.table[Slot(hash(id), |sh.table|, k)] == Some(id);
    RemovalHidesIff(sh.table, hash(id), id, k, s);
    forall j: nat | EndsAt(sh.table, hash(id), id, j) ensures j == k {
      OneEnd(sh.table, hash(id), id, j, k);
    }
  }

  ghost function Republished(sh: Shelf, v: NodeId, parent: NodeId, refType: NodeId, refNode: Node,
                             hash: NodeId -> nat, sizes: nat -> nat): (Shelf, Status)
    requires Sizes(sizes) && Sound(sh)
  {
    RemovedKeeps(sh, v, hash, sizes);
    AddedUnder(Removed(sh, v, hash, sizes).0, v, parent, refType, refNode, hash, sizes)
  }

  lemma ContentsEmptied(sh: Shelf, v: NodeId, hash: NodeId -> nat)
    requires Sound(sh) && Found(sh.table, hash(v), v)
    ensures Contents(sh.table) == Contents(Emptied(sh, v, hash).table) + {v}
    ensures Consistent(sh.table, hash) ==> v !in Contents(Emptied(sh, v, hash).table)
  {
    var s, t := Place(sh.table, hash, v), Emptied(sh, v, hash).table;
    ContentsAdd(t, s, v);
    assert t[s := Some(v)] == sh.table;
    if Consistent(sh.table, hash) {
      ContentsDrop(sh.table, hash, s);
    }
  }

  /** After a rehash parent and reference type are found, whatever was hidden before. */
  lemma RepublishedShrinking(sh: Shelf, v: NodeId, parent: NodeId, refType: NodeId, refNode: Node,
                             hash: NodeId -> nat, sizes: nat -> nat)
    requires Sizes(sizes) && Sound(sh) && Shrinks(sh)
    requires Found(sh.table, hash(v), v) && {parent, refType} <= Contents(sh.table)
    requires v != parent && v != refType && v.ns < NAMESPACES && Usable(refNode)
    ensures var (r, status) := Republished(sh, v, parent, refType, refNode, hash, sizes);
            && status == (if v in Contents(Emptied(sh, v, hash).table) then BadNodeIdExists else Good)
            && Consistent(r.table, hash) && Contents(r.table) == Contents(sh.table)
  {
    var emptied := Emptied(sh, v, hash);
    var mid := Expanded(emptied, hash, sizes);
    ExpandedKeeps(emptied, hash, sizes);
    ContentsEmptied(sh, v, hash);
    LooksUp(mid.table, hash, parent);
    LooksUp(mid.table, hash, refType);
    InsertedKeeps(mid, v, hash, sizes);
  }

  /** Without one, an accepted create puts the id back into the slot it was in. */
  lemma ReinsertRestores(sh: Shelf, v: NodeId, hash: NodeId -> nat, sizes: nat -> nat)
    requires Sizes(sizes) && Sound(sh) && Found(sh.table, hash(v), v) && !Shrinks(sh)
    ensures var mid := Emptied(sh, v, hash);
            Sound(mid) && Inserted(mid, v, hash, sizes) == (sh, Good) && !Found(mid.table, hash(v), v)
  {
    var mid := Emptied(sh, v, hash);
    var k: nat :| EndsAt(sh.table, hash(v), v, k) && sh.table[Slot(hash(v), |sh.table|, k)] == Some(v);
    PlaceEnds(sh.table, hash, v, k);
    EmptiedIsReused(sh.table, hash(v), v, k);
    PlacedAt(mid.table, hash, v, k);
    assert !Crowded(mid);
    forall j: nat | EndsAt(mid.table, hash(v), v, j) ensures mid.table[Slot(hash(v), |mid.table|, j)] != Some(v) {
      OneEnd(mid.table, hash(v), v, j, k);
    }
  }

  /** Deleting a variable and creating it again, with nobody else active, from any table, also one in
      which earlier removals have hidden nodes. If the delete rehashes the table, the create is
      refused only if a second copy of the variable was stored. If not, it is accepted exactly if
      neither the parent's search nor the reference type's passes through the variable's slot; then
      the table is what it was, and otherwise the variable is lost and the first of the two ids that
      is hidden decides the status. */
  lemma RepublishAcceptedIff(sh: Shelf, v: NodeId, parent: NodeId, refType: NodeId, refNode: Node,
                             hash: NodeId -> nat, sizes: nat -> nat)
    requires Sizes(sizes) && Sound(sh)
    requires Found(sh.table, hash(v), v) && Found(sh.table, hash(parent), parent)
    requires Found(sh.table, hash(refType), refType)
    requires v != parent && v != refType && v.ns < NAMESPACES && Usable(refNode)
    ensures var (r, status) := Republished(sh, v, parent, refType, refNode, hash, sizes);
            && status == (if Shrinks(sh) then
                            if v in Contents(Emptied(sh, v, hash).table) then BadNodeIdExists else Good
                          else if Crosses(sh.table, hash, parent, v) then BadParentNodeIdInvalid
                          else if Crosses(sh.table, hash, refType, v) then BadReferenceTypeIdInvalid
                          else Good)
            && (Shrinks(sh) ==> Consistent(r.table, hash) && Contents(r.table) == Contents(sh.table))
            && (!Shrinks(sh) && status == Good ==> r == sh)
            && (!Shrinks(sh) && status != Good ==> r == Emptied(sh, v, hash) && !Found(r.table, hash(v), v))
    ensures Consistent(sh.table, hash) ==> v !in Contents(Emptied(sh, v, hash).table)
  {
    ContentsEmptied(sh, v, hash);
    if Shrinks(sh) {
      RepublishedShrinking(sh, v, parent, refType, refNode, hash, sizes);
    } else {
      RemovalHidesCrossing(sh, v, parent, hash);
      RemovalHidesCrossing(sh, v, refType, hash);
      ReinsertRestores(sh, v, hash, sizes);
    }
  }

  // ---- How a variable comes to stand in its parent's way

  /** An id that finds its first slot free when a rehash gets to it stays there while others follow. */
  lemma {:induction false} FirstStays(size: nat, t: Table, i: nat, hash: NodeId -> nat, v: NodeId)
    requires size > 2 && Prime(size) && Used(t) < size
    requires i < |t| && t[i] == Some(v)
    requires Filled(Empty(size), t[..i], hash)[Slot(hash(v), size, 0)] == None
    ensures Filled(Empty(size), t, hash)[Slot(hash(v), size, 0)] == Some(v)
    decreases |t|
  {
    var n := |t| - 1;
    var r := Filled(Empty(size), t[..n], hash);
    if n == i {
      assert EndsAt(r, hash(v), v, 0);
      PlacedAt(r, hash, v, 0);
    } else {
      assert t[..n][..i] == t[..i];
      FirstStays(size, t[..n], i, hash, v);
      FilledKeeps(size, t[..n], hash);
      if t[n].Some? {
        var k := SearchEnds(r, hash(t[n].value), t[n].value);
        PlacedAt(r, hash, t[n].value, k);
      }
    }
  }

  /** The variable is in the i-th slot and finds its first new slot free when a rehash gets to it,
      and its parent has the same first new slot. */
  ghost predicate Overtakes(sh: Shelf, i: nat, v: NodeId, parent: NodeId, hash: NodeId -> nat, sizes: nat -> nat)
    requires Sizes(sizes)
  {
    var size := sizes(sh.count * 2);
    && i < |sh.table| && sh.table[i] == Some(v)
    && Filled(Empty(size), sh.table[..i], hash)[Slot(hash(v), size, 0)] == None
    && hash(v) % size == hash(parent) % size
  }

  /** In particular in the very first slot. */
  lemma FirstOvertakes(sh: Shelf, v: NodeId, parent: NodeId, hash: NodeId -> nat, sizes: nat -> nat)
    requires Sizes(sizes) && sh.table != [] && sh.table[0] == Some(v)
    requires hash(v) % sizes(sh.count * 2) == hash(parent) % sizes(sh.count * 2)
    ensures Overtakes(sh, 0, v, parent, hash, sizes)
  {
    var size := sizes(sh.count * 2);
    assert sh.table[..0] == [];
    EmptySlots(size, Slot(hash(v), size, 0));
  }

  /** A rehash stores ids in the order of the old slots. A variable that overtakes its parent stands
      in the parent's way from then on, even if the parent was stored first. */
  lemma RehashReverses(sh: Shelf, i: nat, v: NodeId, parent: NodeId, hash: NodeId -> nat, sizes: nat -> nat)
    requires Sizes(sizes) && Used(sh.table) <= sh.count && !Fits(|sh.table|, sh.count)
    requires parent in Contents(sh.table) && parent != v && Overtakes(sh, i, v, parent, hash, sizes)
    ensures var r := Expanded(sh, hash, sizes).table;
            |r| > 2 && Found(r, hash(v), v) && Crosses(r, hash, parent, v)
  {
    var r := Expanded(sh, hash, sizes).table;
    ExpandedKeeps(sh, hash, sizes);
    FirstStays(|r|, sh.table, i, hash, v);
    FirstSlot(hash(v), |r|);
    FirstSlot(hash(parent), |r|);
    var at := Slot(hash(v), |r|, 0);
    assert EndsAt(r, hash(v), v, 0);
    PlaceEnds(r, hash, v, 0);
    LooksUp(r, hash, parent);
    var k: nat :| EndsAt(r, hash(parent), parent, k) && r[Slot(hash(parent), |r|, k)] == Some(parent);
    assert Slot(hash(parent), |r|, 0) == at && k != 0;
    assert PassesThrough(hash(parent), |r|, k, at);
  }

  lemma PlaceStays(t: Table, hash: NodeId -> nat, id: NodeId, x: NodeId)
    requires |t| > 2 && Prime(|t|) && Used(t) < |t| && Found(t, hash(id), id)
    ensures var r := Placed(t, hash, x); Found(r, hash(id), id) && Place(r, hash, id) == Place(t, hash, id)
  {
    PlacedKeeps(t, hash, x);
    if !Found(t, hash(x), x) {
      var k := SearchEnds(t, hash(x), x);
      PlacedAt(t, hash, x, k);
      var j: nat :| EndsAt(t, hash(id), id, j) && t[Slot(hash(id), |t|, j)] == Some(id);
      PlaceEnds(t, hash, id, j);
      InsertKeepsOne(t, hash(id), id, x, Slot(hash(x), |t|, k), j);
      PlaceEnds(Placed(t, hash, x), hash, id, j);
    }
  }

  lemma CrossingStays(t: Table, hash: NodeId -> nat, id: NodeId, other: NodeId, x: NodeId)
    requires |t| > 2 && Prime(|t|) && Used(t) < |t|
    requires Found(t, hash(id), id) && Found(t, hash(other), other) && Crosses(t, hash, id, other)
    ensures var r := Placed(t, hash, x);
            Found(r, hash(id), id) && Found(r, hash(other), other) && Crosses(r, hash, id, other)
  {
    PlaceStays(t, hash, id, x);
    PlaceStays(t, hash, other, x);
    PlacedKeeps(t, hash, x);
    if !Found(t, hash(x), x) {
      var k: nat :| EndsAt(t, hash(id), id, k) && PassesThrough(hash(id), |t|, k, Place(t, hash, other));
      var j: nat :| EndsAt(t, hash(id), id, j) && t[Slot(hash(id), |t|, j)] == Some(id);
      OneEnd(t, hash(id), id, j, k);
      var m := SearchEnds(t, hash(x), x);
      PlacedAt(t, hash, x, m);
      InsertKeepsOne(t, hash(id), id, x, Slot(hash(x), |t|, m), k);
    }
  }

  /** Every server's table grows when it is three quarters full. If a variable overtakes its block in
      that rehash, then whatever node is inserted, the next delete and re-create of the variable is
      refused for want of a parent, and the variable is lost. */
  lemma GrowthRefuses(sh: Shelf, i: nat, v: NodeId, parent: NodeId, refType: NodeId, refNode: Node, x: NodeId,
                      hash: NodeId -> nat, sizes: nat -> nat)
    requires Sizes(sizes) && Sound(sh) && Crowded(sh)
    requires {v, parent, refType} <= Contents(sh.table) && v != parent && v != refType
    requires v.ns < NAMESPACES && Usable(refNode)
    requires Overtakes(sh, i, v, parent, hash, sizes)
    ensures var r := Inserted(sh, x, hash, sizes).0;
            && Sound(r) && Found(r.table, hash(v), v) && Found(r.table, hash(parent), parent)
            && var (q, status) := Republished(r, v, parent, refType, refNode, hash, sizes);
               status == BadParentNodeIdInvalid && !Found(q.table, hash(v), v)
  {
    var m, r := Roomy(sh, hash, sizes), Inserted(sh, x, hash, sizes).0;
    RoomyKeeps(sh, hash, sizes);
    InsertedKeeps(sh, x, hash, sizes);
    RehashReverses(sh, i, v, parent, hash, sizes);
    LooksUp(m.table, hash, parent);
    LooksUp(r.table, hash, refType);
    PlacedKeeps(m.table, hash, x);
    CrossingStays(m.table, hash, parent, v, x);
    assert !Shrinks(r) by {
      assert sh.count >= 6 && |r.table| == sizes(sh.count * 2) <= 6 * sh.count;
    }
    RepublishAcceptedIff(r, v, parent, refType, refNode, hash, sizes);
  }

  // ---- A run of requests that leads there

  datatype Request = Request(id: NodeId, parent: NodeId)

  /** AddNodes requests, each with the reference type Organizes. */
  ghost function AllAdded(sh: Shelf, reqs: seq<Request>, refNode: Node, hash: NodeId -> nat, sizes: nat -> nat)
    : (r: Shelf)
    requires Sizes(sizes) && Sound(sh)
    ensures Sound(r)
    decreases |reqs|
  {
    if reqs == [] then sh
    else
      AllAdded(AddedUnder(sh, reqs[0].id, reqs[0].parent, ORGANIZES, refNode, hash, sizes).0, reqs[1..],
               refNode, hash, sizes)
  }

  /** The table has grown, or every entry is where it was. */
  ghost predicate Stays(sh: Shelf, r: Shelf, hash: NodeId -> nat) {
    && |r.table| >= |sh.table|
    && Contents(sh.table) <= Contents(r.table)
    && (Consistent(sh.table, hash) ==> Consistent(r.table, hash))
    && (|r.table| == |sh.table| ==>
          forall s :: 0 <= s < |sh.table| && sh.table[s].Some? ==> r.table[s] == sh.table[s])
  }

  lemma AddedStays(sh: Shelf, req: Request, refNode: Node, hash: NodeId -> nat, sizes: nat -> nat)
    requires Sizes(sizes) && Sound(sh)
    ensures Stays(sh, AddedUnder(sh, req.id, req.parent, ORGANIZES, refNode, hash, sizes).0, hash)
  {
    InsertedKeeps(sh, req.id, hash, sizes);
    if !Crowded(sh) {
      var k := SearchEnds(sh.table, hash(req.id), req.id);
      PlacedAt(sh.table, hash, req.id, k);
      PlacedKeeps(sh.table, hash, req.id);
    } else {
      ExpandedKeeps(sh, hash, sizes);
      PlacedKeeps(Expanded(sh, hash, sizes).table, hash, req.id);
    }
  }

  lemma {:induction false} AllAddedStays(sh: Shelf, reqs: seq<Request>, refNode: Node, hash: NodeId -> nat,
                                         sizes: nat -> nat)
    requires Sizes(sizes) && Sound(sh)
    ensures Stays(sh, AllAdded(sh, reqs, refNode, hash, sizes), hash)
    decreases |reqs|
  {
    if reqs != [] {
      AddedStays(sh, reqs[0], refNode, hash, sizes);
      AllAddedStays(AddedUnder(sh, reqs[0].id, reqs[0].parent, ORGANIZES, refNode, hash, sizes).0, reqs[1..],
                    refNode, hash, sizes);
    }
  }

  /** A node whose parent is stored and whose first slot is free is stored there. */
  lemma AddedFirst(sh: Shelf, req: Request, refNode: Node, hash: NodeId -> nat, sizes: nat -> nat)
    requires Sizes(sizes) && Sound(sh) && Consistent(sh.table, hash) && !Crowded(sh)
    requires {req.parent, ORGANIZES} <= Contents(sh.table) && req.id.ns < NAMESPACES && Usable(refNode)
    requires sh.table[hash(req.id) % |sh.table|] == None
    ensures var (r, status) := AddedUnder(sh, req.id, req.parent, ORGANIZES, refNode, hash, sizes);
            && status == Good && Consistent(r.table, hash)
            && r == Shelf(sh.table[hash(req.id) % |sh.table| := Some(req.id)], sh.count + 1)
  {
    var id, t := req.id, sh.table;
    LooksUp(t, hash, req.parent);
    LooksUp(t, hash, ORGANIZES);
    FirstSlot(hash(id), |t|);
    assert EndsAt(t, hash(id), id, 0);
    PlacedAt(t, hash, id, 0);
    forall j: nat | EndsAt(t, hash(id), id, j) ensures j == 0 {
      OneEnd(t, hash(id), id, j, 0);
    }
    InsertedKeeps(sh, id, hash, sizes);
  }

  lemma TwoAdded(sh: Shelf, block: NodeId, v: NodeId, reqs: seq<Request>, refNode: Node, hash: NodeId -> nat,
                 sizes: nat -> nat) returns (two: Shelf)
    requires Sizes(sizes) && Sound(sh) && Consistent(sh.table, hash)
    requires (sh.count + 1) * 4 < |sh.table| * 3
    requires {OBJECTS, ORGANIZES} <= Contents(sh.table) && Usable(refNode)
    requires block.ns < NAMESPACES && v.ns < NAMESPACES
    requires hash(v) % |sh.table| == 0 && sh.table[0] == None
    requires hash(block) % |sh.table| != 0 && sh.table[hash(block) % |sh.table|] == None
    ensures Sound(two) && Consistent(two.table, hash) && |two.table| == |sh.table|
    ensures two.table == sh.table[hash(block) % |sh.table| := Some(block)][0 := Some(v)]
    ensures two.count == sh.count + 2
    ensures two.table[0] == Some(v) && {block, v, OBJECTS, ORGANIZES} <= Contents(two.table)
    ensures AllAdded(sh, [Request(block, OBJECTS), Request(v, block)] + reqs, refNode, hash, sizes)
            == AllAdded(two, reqs, refNode, hash, sizes)
  {
    var a, b := Request(block, OBJECTS), Request(v, block);
    AllAddedTwo(sh, a, b, reqs, refNode, hash, sizes);
    AddedFirst(sh, a, refNode, hash, sizes);
    AddedStays(sh, a, refNode, hash, sizes);
    var one := AddedUnder(sh, block, OBJECTS, ORGANIZES, refNode, hash, sizes).0;
    assert one.table[hash(block) % |sh.table|] == Some(block);
    AddedFirst(one, b, refNode, hash, sizes);
    AddedStays(one, b, refNode, hash, sizes);
    two := AddedUnder(one, v, block, ORGANIZES, refNode, hash, sizes).0;
    assert two.table[0] == Some(v);
  }

  lemma AllAddedTwo(sh: Shelf, a: Request, b: Request, reqs: seq<Request>, refNode: Node, hash: NodeId -> nat,
                    sizes: nat -> nat)
    requires Sizes(sizes) && Sound(sh)
    ensures var one := AddedUnder(sh, a.id, a.parent, ORGANIZES, refNode, hash, sizes).0;
            var two := AddedUnder(one, b.id, b.parent, ORGANIZES, refNode, hash, sizes).0;
            AllAdded(sh, [a, b] + reqs, refNode, hash, sizes) == AllAdded(two, reqs, refNode, hash, sizes)
  {
    AllAddedCons(sh, a, [b] + reqs, refNode, hash, sizes);
    AllAddedCons(AddedUnder(sh, a.id, a.parent, ORGANIZES, refNode, hash, sizes).0, b, reqs, refNode, hash, sizes);
    assert [a, b] + reqs == [a] + ([b] + reqs);
  }

  lemma AllAddedCons(sh: Shelf, a: Request, reqs: seq<Request>, refNode: Node, hash: NodeId -> nat,
                     sizes: nat -> nat)
    requires Sizes(sizes) && Sound(sh)
    ensures AllAdded(sh, [a] + reqs, refNode, hash, sizes)
            == AllAdded(AddedUnder(sh, a.id, a.parent, ORGANIZES, refNode, hash, sizes).0, reqs, refNode, hash, sizes)
  {
    assert ([a] + reqs)[1..] == reqs;
  }

  /** The shelf of a server that got these requests for a block and its variable, then others. */
  ghost function Served(sh: Shelf, block: NodeId, v: NodeId, reqs: seq<Request>, refNode: Node,
                        hash: NodeId -> nat, sizes: nat -> nat): (r: Shelf)
    requires Sizes(sizes) && Sound(sh)
    ensures Sound(r)
  {
    AllAdded(sh, [Request(block, OBJECTS), Request(v, block)] + reqs, refNode, hash, sizes)
  }

  /** From any table of a running server: a client adds a block and its variable, each into its first
      slot, the variable's being slot 0. Then come any requests at all, accepted or not, until the
      table is three quarters full, and one more. If block and variable have the same first slot in
      the new table, the next publish of the variable loses it, although every call works. */
  lemma ServedRunRefuses(sh: Shelf, block: NodeId, v: NodeId, reqs: seq<Request>, x: NodeId, refNode: Node,
                         hash: NodeId -> nat, sizes: nat -> nat)
    requires Sizes(sizes) && Sound(sh) && Consistent(sh.table, hash)
    requires (sh.count + 1) * 4 < |sh.table| * 3
    requires {OBJECTS, ORGANIZES} <= Contents(sh.table) && Usable(refNode)
    requires block != v && v != ORGANIZES && block.ns < NAMESPACES && v.ns < NAMESPACES && x.ns < NAMESPACES
    requires hash(v) % |sh.table| == 0 && sh.table[0] == None
    requires hash(block) % |sh.table| != 0 && sh.table[hash(block) % |sh.table|] == None
    requires var last := Served(sh, block, v, reqs, refNode, hash, sizes);
             && |last.table| == |sh.table| && Crowded(last)
             && hash(v) % sizes(last.count * 2) == hash(block) % sizes(last.count * 2)
    ensures var last := Served(sh, block, v, reqs, refNode, hash, sizes);
            var r := AddedUnder(last, x, OBJECTS, ORGANIZES, refNode, hash, sizes).0;
            var (q, status) := Republished(r, v, block, ORGANIZES, refNode, hash, sizes);
            status == BadParentNodeIdInvalid && !Found(q.table, hash(v), v)
  {
    var last := Served(sh, block, v, reqs, refNode, hash, sizes);
    var two := TwoAdded(sh, block, v, reqs, refNode, hash, sizes);
    AllAddedStays(two, reqs, refNode, hash, sizes);
    assert last.table[0] == Some(v);
    LooksUp(last.table, hash, OBJECTS);
    LooksUp(last.table, hash, ORGANIZES);
    FirstOvertakes(last, v, block, hash, sizes);
    GrowthRefuses(last, 0, v, block, ORGANIZES, refNode, x, hash, sizes);
  }

  // ---- No table is safe from it

  lemma SameOnStored(t: Table, hash: NodeId -> nat, other: NodeId -> nat)
    requires Consistent(t, hash) && forall id :: id in Contents(t) ==> other(id) == hash(id)
    ensures Consistent(t, other)
  {
    forall s: nat | s < |t| && t[s].Some?
      ensures exists k: nat :: EndsAt(t, other(t[s].value), t[s].value, k) && Slot(other(t[s].value), |t|, k) == s
    {
      assert t[s].value in Contents(t);
    }
  }

  /** Some numeric id of namespace 1 is not in a given set. */
  lemma FreshId(ids: set<NodeId>) returns (id: NodeId)
    ensures id !in ids && id.ns == 1
  {
    var some := set k: nat | k < |ids| + 1 :: NodeId(1, Numeric(k));
    NumericsCount(|ids| + 1);
    assert |some - ids| + |some * ids| == |some| && |some * ids| + |ids - some| == |ids|;
    id :| id in some - ids;
  }

  lemma {:induction false} NumericsCount(n: nat)
    ensures |set k: nat | k < n :: NodeId(1, Numeric(k))| == n
  {
    if n > 0 {
      NumericsCount(n - 1);
      assert (set k: nat | k < n :: NodeId(1, Numeric(k)))
          == (set k: nat | k < n - 1 :: NodeId(1, Numeric(k))) + {NodeId(1, Numeric(n - 1))};
    }
  }

  /** How many nodes make a table of this size three quarters full. */
  function Limit(size: nat): nat {
    (size * 3 + 3) / 4
  }

  /** Adding new nodes under Objects fills a table up to its limit. */
  lemma FillUp(sh: Shelf, refNode: Node, hash: NodeId -> nat, sizes: nat -> nat) returns (reqs: seq<Request>)
    requires Sizes(sizes) && Sound(sh) && Consistent(sh.table, hash) && sh.count <= Limit(|sh.table|)
    requires {OBJECTS, ORGANIZES} <= Contents(sh.table) && Usable(refNode)
    ensures var last := AllAdded(sh, reqs, refNode, hash, sizes);
            |last.table| == |sh.table| && last.count == Limit(|sh.table|)
    decreases Limit(|sh.table|) - sh.count
  {
    if sh.count == Limit(|sh.table|) {
      reqs := [];
    } else {
      var id := FreshId(Contents(sh.table));
      var a := Request(id, OBJECTS);
      LooksUp(sh.table, hash, OBJECTS);
      LooksUp(sh.table, hash, ORGANIZES);
      LooksUp(sh.table, hash, id);
      AddedStays(sh, a, refNode, hash, sizes);
      var more := FillUp(AddedUnder(sh, id, OBJECTS, ORGANIZES, refNode, hash, sizes).0, refNode, hash, sizes);
      AllAddedCons(sh, a, more, refNode, hash, sizes);
      reqs := [a] + more;
    }
  }

  /** The hash of everything but the two new ids. */
  function Rehashed(hash: NodeId -> nat, block: NodeId, b: nat, v: NodeId): NodeId -> nat {
    (id: NodeId) => if id == v then 0 else if id == block then b else hash(id)
  }

  /** Hash values for a new block and its variable with which both find their first slots free, the
      variable slot 0, and begin their searches in the same slot after the next growth. */
  lemma UnluckyHash(sh: Shelf, block: NodeId, v: NodeId, hash: NodeId -> nat, sizes: nat -> nat)
    returns (other: NodeId -> nat)
    requires Sizes(sizes) && Sound(sh) && (sh.count + 1) * 4 < |sh.table| * 3
    requires block != v && sh.table[0] == None
    ensures forall id :: id != block && id != v ==> other(id) == hash(id)
    ensures other(v) % |sh.table| == 0
    ensures other(block) % |sh.table| != 0 && sh.table[other(block) % |sh.table|] == None
    ensures var size := sizes(Limit(|sh.table|) * 2); other(v) % size == other(block) % size
  {
    var p, m := |sh.table|, sizes(Limit(|sh.table|) * 2);
    UsedUpdate(sh.table, 0, Some(v));
    var free := FreeSlot(sh.table[0 := Some(v)]);
    assert p < m by {
      assert Limit(p) * 2 > p;
    }
    var b := MultipleWithRemainder(m, p, free);
    other := Rehashed(hash, block, b, v);
    assert 0 % p == 0 && 0 % m == 0;
  }

  /** Whatever a server holds, as long as slot 0 of its table is free: for any new block and variable
      there are hash values and requests after which publishing the variable once more loses it. No size
      of table and no set of stored nodes is safe. */
  lemma EveryTableIsExposed(sh: Shelf, block: NodeId, v: NodeId, refNode: Node, hash: NodeId -> nat,
                            sizes: nat -> nat)
    returns (other: NodeId -> nat, reqs: seq<Request>, x: NodeId)
    requires Sizes(sizes) && Sound(sh) && Consistent(sh.table, hash)
    requires (sh.count + 2) * 4 < |sh.table| * 3 && sh.table[0] == None
    requires {OBJECTS, ORGANIZES} <= Contents(sh.table) && Usable(refNode)
    requires block != v && block !in Contents(sh.table) && v !in Contents(sh.table)
    requires block.ns < NAMESPACES && v.ns < NAMESPACES
    ensures forall id :: id != block && id != v ==> other(id) == hash(id)
    ensures x.ns == 1
    ensures var last := Served(sh, block, v, reqs, refNode, other, sizes);
            var r := AddedUnder(last, x, OBJECTS, ORGANIZES, refNode, other, sizes).0;
            var (q, status) := Republished(r, v, block, ORGANIZES, refNode, other, sizes);
            status == BadParentNodeIdInvalid && !Found(q.table, other(v), v)
  {
    other := UnluckyHash(sh, block, v, hash, sizes);
    SameOnStored(sh.table, hash, other);
    var two := TwoAdded(sh, block, v, [], refNode, other, sizes);
    reqs := FillUp(two, refNode, other, sizes);
    x := FreshId({});
    var again := TwoAdded(sh, block, v, reqs, refNode, other, sizes);
    assert again == two;
    ServedRunRefuses(sh, block, v, reqs, x, refNode, other, sizes);
  }

  // ---- Ids with the same hash

  lemma AllDoneCons(sh: Shelf, op: Op, ops: seq<Op>, hash: NodeId -> nat, sizes: nat -> nat)
    requires Sizes(sizes) && Sound(sh)
    ensures Sound(Done(sh, op, hash, sizes).0)
    ensures AllDone(sh, [op] + ops, hash, sizes).0 == AllDone(Done(sh, op, hash, sizes).0, ops, hash, sizes).0
  {
    DoneKeeps(sh, op, hash, sizes);
    assert ([op] + ops)[1..] == ops;
  }

  ghost predicate Numerics(hash: NodeId -> nat) {
    forall n: nat, ns: nat :: hash(NodeId(ns, Numeric(n))) == Knuth(n, ns)
  }

  lemma SharedProbes(t: Table, hash: NodeId -> nat, a: NodeId, b: NodeId, k: nat, m: nat)
    requires Consistent(t, hash) && hash(a) == hash(b) && a != b
    requires EndsAt(t, hash(a), a, k) && t[Slot(hash(a), |t|, k)] == Some(a)
    requires EndsAt(t, hash(b), b, m) && t[Slot(hash(b), |t|, m)] == None
    ensures k < m
  {
    assert Halts(t, hash(a), a, m);
  }

  /** Of two ids with the same hash stored one after the other, whatever the table and whatever
      rehashes this causes, removing the first hides the second unless the removal rehashes too. */
  lemma SameHashHides(sh: Shelf, a: NodeId, b: NodeId, hash: NodeId -> nat, sizes: nat -> nat)
    requires Sizes(sizes) && Sound(sh) && Consistent(sh.table, hash)
    requires a != b && hash(a) == hash(b) && a !in Contents(sh.table) && b !in Contents(sh.table)
    ensures var r := AllDone(sh, [Put(a), Put(b)], hash, sizes).0;
            && Sound(r) && Consistent(r.table, hash)
            && a in Contents(r.table) && b in Contents(r.table)
            && var q := Removed(r, a, hash, sizes).0;
               |q.table| > 2 && (Found(q.table, hash(b), b) <==> Shrinks(r))
  {
    assert [Put(a)] + ([Put(b)] + []) == [Put(a), Put(b)] && [Put(b)] + [] == [Put(b)];
    AllDoneCons(sh, Put(a), [Put(b)], hash, sizes);
    InsertedKeeps(sh, a, hash, sizes);
    var one := Inserted(sh, a, hash, sizes).0;
    AllDoneCons(one, Put(b), [], hash, sizes);
    InsertedKeeps(one, b, hash, sizes);
    RoomyKeeps(one, hash, sizes);
    var two := Inserted(one, b, hash, sizes).0;
    SecondBehindFirst(Roomy(one, hash, sizes).table, hash, a, b);
    RemovedIff(two, a, hash, sizes);
    RemovedKeeps(two, a, hash, sizes);
    LooksUp(two.table, hash, a);
    LooksUp(two.table, hash, b);
    RemovalHidesCrossing(two, a, b, hash);
    if Shrinks(two) {
      LooksUp(Removed(two, a, hash, sizes).0.table, hash, b);
    }
  }

  lemma SecondBehindFirst(t: Table, hash: NodeId -> nat, a: NodeId, b: NodeId)
    requires Consistent(t, hash) && Prime(|t|) && Used(t) < |t|
    requires a != b && hash(a) == hash(b) && a in Contents(t) && b !in Contents(t)
    ensures var r := Placed(t, hash, b); Found(r, hash(a), a) && Crosses(r, hash, b, a)
  {
    var h, r := hash(a), Placed(t, hash, b);
    LooksUp(t, hash, a);
    LooksUp(t, hash, b);
    var k: nat :| EndsAt(t, h, a, k) && t[Slot(h, |t|, k)] == Some(a);
    var m := SearchEnds(t, h, b);
    SharedProbes(t, hash, a, b, k, m);
    PlacedAt(t, hash, b, m);
    InsertKeepsOne(t, h, a, b, Slot(h, |t|, m), k);
    PlaceEnds(r, hash, a, k);
    forall j: nat | j < m ensures !Halts(r, h, b, j) {
      assert !Halts(t, h, b, j);
    }
    assert EndsAt(r, h, b, m) && PassesThrough(h, |t|, m, Slot(h, |t|, k));
  }

  /** Numeric ids whose number and namespace add up alike have the same hash, so they are such ids in
      every table. */
  lemma TwinsHide(sh: Shelf, n: nat, hash: NodeId -> nat, sizes: nat -> nat)
    requires Sizes(sizes) && Sound(sh) && Consistent(sh.table, hash) && Numerics(hash) && n > 0
    requires NodeId(0, Numeric(n)) !in Contents(sh.table) && NodeId(1, Numeric(n - 1)) !in Contents(sh.table)
    ensures var a, b := NodeId(0, Numeric(n)), NodeId(1, Numeric(n - 1));
            var r := AllDone(sh, [Put(a), Put(b)], hash, sizes).0;
            && Sound(r) && Consistent(r.table, hash)
            && b in Contents(r.table)
            && var q := Removed(r, a, hash, sizes).0;
               |q.table| > 2 && (Found(q.table, hash(b), b) <==> Shrinks(r))
  {
    assert hash(NodeId(0, Numeric(n))) == Knuth(n, 0) == Knuth(n - 1, 1) == hash(NodeId(1, Numeric(n - 1)));
    SameHashHides(sh, NodeId(0, Numeric(n)), NodeId(1, Numeric(n - 1)), hash, sizes);
  }
}
