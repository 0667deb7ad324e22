/** The hash table as the server keeps it: an array that is edited in place and replaced on a rehash. */
module NodeStore {
  import opened AddressSpace
  import opened HashTable
  import opened Options
  import opened Probing
  import opened Republish

  lemma {:induction false} AllEmpty(t: Table)
    requires forall s :: 0 <= s < |t| ==> t[s] == None
    ensures t == Empty(|t|)
    decreases |t|
  {
    if t != [] {
      AllEmpty(t[..|t| - 1]);
      assert t == t[..|t| - 1] + [None];
    }
  }

  lemma {:induction false} PrefixUsed(t: Table, i: nat)
    requires i <= |t|
    ensures Used(t[..i]) <= Used(t)
    ensures Used(t[..i]) == Used(t) ==> forall s :: i <= s < |t| ==> t[s] == None
    decreases |t|
  {
    if i == |t| {
      assert t[..i] == t;
    } else {
      var n := |t| - 1;
      assert t[..n][..i] == t[..i];
      PrefixUsed(t[..n], i);
      forall s | i <= s < n && Used(t[..i]) == Used(t) ensures t[s] == None {
        assert t[..n][s] == t[s];
      }
    }
  }

  lemma FilledStep(size: nat, t: Table, i: nat, hash: NodeId -> nat)
    requires size > 2 && Prime(size) && i < |t| && Used(t[..i]) < size
    ensures var u := Filled(Empty(size), t[..i], hash);
            && Used(u) < size
            && Filled(Empty(size), t[..i + 1], hash) == if t[i].Some? then Placed(u, hash, t[i].value) else u
    ensures Used(t[..i + 1]) == Used(t[..i]) + if t[i].Some? then 1 else 0
  {
    assert t[..i + 1][..i] == t[..i];
    FilledKeeps(size, t[..i], hash);
  }

  /** The copying loop may stop at the count: the slots it has not seen are free. */
  lemma {:induction false} RestFilled(u: Table, t: Table, i: nat, hash: NodeId -> nat)
    requires |u| > 2 && i <= |t|
    requires i == |t| || Used(t) <= Used(t[..i])
    ensures Filled(u, t[..i], hash) == Filled(u, t, hash)
    decreases |t|
  {
    if i == |t| {
      assert t[..i] == t;
    } else {
      var n := |t| - 1;
      PrefixUsed(t, i);
      assert t[..n][..i] == t[..i] && t[n] == None;
      RestFilled(u, t[..n], i, hash);
    }
  }

  class Store {
    var entries: array<Option<NodeId>>
    var count: nat
    const hash: NodeId -> nat
    const sizes: nat -> nat

    ghost function Shelved(): Shelf
      reads this, entries
    {
      Shelf(entries[..], count)
    }

    ghost predicate Valid()
      reads this, entries
    {
      Sizes(sizes) && Sound(Shelved())
    }

    /** An empty table. */
    constructor (hash: NodeId -> nat, sizes: nat -> nat)
      requires Sizes(sizes)
      ensures Valid() && fresh(entries) && Shelved() == Shelf(Empty(sizes(32)), 0)
      ensures this.hash == hash && this.sizes == sizes
    {
      this.hash, this.sizes := hash, sizes;
      entries := new Option<NodeId>[sizes(32)](_ => None);
      count := 0;
      new;
      AllEmpty(entries[..]);
    }

    /** Probes until the id or a free slot turns up. */
    method ContainsNodeId(id: NodeId) returns (found: bool, slot: nat)
      requires entries.Length > 2 && Prime(entries.Length) && Used(entries[..]) < entries.Length
      ensures exists k: nat :: EndsAt(entries[..], hash(id), id, k) && slot == Slot(hash(id), entries.Length, k)
      ensures slot < entries.Length
      ensures found <==> entries[slot] == Some(id)
      ensures found <==> Found(entries[..], hash(id), id)
    {
      var size, h := entries.Length, hash(id);
      ghost var t := entries[..];
      ghost var last := SearchEnds(t, h, id);
      ghost var k: nat := 0;
      slot := h % size;
      FirstSlot(h, size);
      while entries[slot] != None && entries[slot] != Some(id)
        invariant slot < size && slot == Slot(h, size, k) && k <= last
        invariant forall j: nat :: j < k ==> !Halts(t, h, id, j)
        decreases last - k
      {
        assert !Halts(t, h, id, k);
        NextSlot(h, size, k);
        slot := slot + Jump(h, size);
        if slot >= size {
          slot := slot - size;
        }
        k := k + 1;
      }
      assert EndsAt(t, h, id, k);
      found := entries[slot] == Some(id);
    }

    /** Stores an id in the free slot where its search ends, if it is not there already. */
    method Claim(id: NodeId) returns (found: bool)
      requires entries.Length > 2 && Prime(entries.Length) && Used(entries[..]) < entries.Length
      modifies entries
      ensures found <==> Found(old(entries[..]), hash(id), id)
      ensures entries[..] == Placed(old(entries[..]), hash, id)
      ensures found ==> entries[..] == old(entries[..])
    {
      PlacedKeeps(entries[..], hash, id);
      var slot;
      found, slot := ContainsNodeId(id);
      if !found {
        ghost var k: nat :| EndsAt(entries[..], hash(id), id, k) && slot == Slot(hash(id), entries.Length, k);
        PlacedAt(entries[..], hash, id, k);
        entries[slot] := Some(id);
      }
    }

    /** Copies entries in slot order into the empty table, until the count is reached. */
    method Refill(oentries: array<Option<NodeId>>)
      requires oentries != entries && entries[..] == Empty(entries.Length)
      requires entries.Length > 2 && Prime(entries.Length)
      requires Used(oentries[..]) <= count && Used(oentries[..]) < entries.Length
      modifies entries
      ensures entries[..] == Filled(Empty(entries.Length), oentries[..], hash)
    {
      ghost var t := oentries[..];
      var i, j := 0, 0;
      while i < oentries.Length && j < count
        invariant 0 <= i <= oentries.Length && j == Used(t[..i])
        invariant entries[..] == Filled(Empty(entries.Length), t[..i], hash)
      {
        PrefixUsed(t, i);
        FilledStep(entries.Length, t, i, hash);
        if oentries[i].Some? {
          var _ := Claim(oentries[i].value);
          j := j + 1;
        }
        i := i + 1;
      }
      RestFilled(Empty(entries.Length), t, i, hash);
    }

    /** Moves the entries into a table of a better size, unless the size fits. */
    method Expand()
      requires Sizes(sizes) && Used(entries[..]) <= count
      modifies `entries
      ensures entries == old(entries) || fresh(entries)
      ensures Shelved() == Expanded(old(Shelved()), hash, sizes)
    {
      var osize := entries.Length;
      if count * 2 < osize && (count * 8 > osize || osize <= 32) {
        return;
      }
      var oentries := entries;
      var nsize := sizes(count * 2);
      assert nsize >= 7 && nsize >= count * 2 && Prime(nsize) && (count == 0 || nsize > count);
      entries := new Option<NodeId>[nsize](_ => None);
      AllEmpty(entries[..]);
      Refill(oentries);
    }

    /** Rehashes a table that is three quarters full. */
    method MakeRoom()
      requires Valid()
      modifies `entries
      ensures entries == old(entries) || fresh(entries)
      ensures Valid() && !Crowded(Shelved()) && Shelved() == Roomy(old(Shelved()), hash, sizes)
    {
      RoomyKeeps(Shelved(), hash, sizes);
      if entries.Length * 3 <= count * 4 {
        Expand();
      }
    }

    method Insert(id: NodeId) returns (status: Status)
      requires Valid()
      modifies this, entries
      ensures entries == old(entries) || fresh(entries)
      ensures Valid() && (Shelved(), status) == Inserted(old(Shelved()), id, hash, sizes)
    {
      ghost var r := Done(Shelved(), Put(id), hash, sizes);
      DoneKeeps(Shelved(), Put(id), hash, sizes);
      MakeRoom();
      var found := Claim(id);
      if found {
        status := BadNodeIdExists;
      } else {
        count := count + 1;
        status := Good;
      }
      assert (Shelved(), status) == r;
    }

    method Remove(id: NodeId) returns (status: Status)
      requires Valid()
      modifies this, entries
      ensures entries == old(entries) || fresh(entries)
      ensures Valid() && (Shelved(), status) == Removed(old(Shelved()), id, hash, sizes)
    {
      RemovedKeeps(Shelved(), id, hash, sizes);
      var found, slot := ContainsNodeId(id);
      if !found {
        return BadNodeIdUnknown;
      }
      ghost var k: nat :| EndsAt(entries[..], hash(id), id, k) && slot == Slot(hash(id), entries.Length, k);
      PlaceEnds(entries[..], hash, id, k);
      ghost var emptied := Emptied(Shelved(), id, hash);
      entries[slot] := None;
      count := count - 1;
      assert Shelved() == emptied;
      if count * 8 < entries.Length && entries.Length > 32 {
        Expand();
      }
      status := Good;
    }

    /** AddNodes: the look-ups and checks come before the insert; `refNode` is the node the entry of
        the reference type leads to. */
    method AddExistingNode(id: NodeId, parent: NodeId, refType: NodeId, refNode: Node) returns (status: Status)
      requires Valid()
      modifies this, entries
      ensures entries == old(entries) || fresh(entries)
      ensures Valid()
      ensures (Shelved(), status) == AddedUnder(old(Shelved()), id, parent, refType, refNode, hash, sizes)
    {
      if id.ns >= NAMESPACES {
        return BadNodeIdInvalid;
      }
      var parentFound, _ := ContainsNodeId(parent);
      if !parentFound {
        return BadParentNodeIdInvalid;
      }
      var refTypeFound, _ := ContainsNodeId(refType);
      if !refTypeFound {
        return BadReferenceTypeIdInvalid;
      }
      if refNode.kind != ReferenceTypeNode {
        return BadReferenceTypeIdInvalid;
      }
      if refNode.isAbstract {
        return BadReferenceNotAllowed;
      }
      status := Insert(id);
    }
  }
}
