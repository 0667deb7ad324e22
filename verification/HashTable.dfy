/** The hash table under the server's address space: open addressing with double hashing, a removal
    that empties the slot without leaving a mark, and a rehash when the table gets full or empty. */
module HashTable {
  import opened AddressSpace
  import opened Options
  import opened Probing

  type Table = seq<Option<NodeId>>

  /** The hash of a numeric id; other ids are hashed by a function the proofs leave open. */
  function Knuth(n: nat, ns: nat): nat {
    ((n + ns) * 2654435761) % 0x1_0000_0000
  }

  /** The hash can be undone up to a wrap-around of 32 bits, so two numeric ids have the same hash
      exactly if number and namespace add up to the same 32-bit word. */
  lemma KnuthCollidesIff(n: nat, ns: nat, m: nat, ms: nat)
    ensures (Knuth(n, ns) * 244002641) % 0x1_0000_0000 == (n + ns) % 0x1_0000_0000
    ensures Knuth(n, ns) == Knuth(m, ms) <==> (n + ns) % 0x1_0000_0000 == (m + ms) % 0x1_0000_0000
  {
    KnuthUndone(n + ns);
    KnuthUndone(m + ms);
    if (n + ns) % 0x1_0000_0000 == (m + ms) % 0x1_0000_0000 {
      KnuthWraps(n + ns);
      KnuthWraps(m + ms);
    }
  }

  lemma KnuthWraps(a: nat)
    ensures (a * 2654435761) % 0x1_0000_0000 == (a % 0x1_0000_0000 * 2654435761) % 0x1_0000_0000
  {
    var w, q := 0x1_0000_0000, a / 0x1_0000_0000;
    var low := (a % w) * 2654435761;
    assert a * 2654435761 == w * (q * 2654435761 + low / w) + low % w;
    ModUnique(a * 2654435761, w, q * 2654435761 + low / w, low % w);
  }

  lemma KnuthUndone(a: nat)
    ensures ((a * 2654435761) % 0x1_0000_0000 * 244002641) % 0x1_0000_0000 == a % 0x1_0000_0000
  {
    var w := 0x1_0000_0000;
    var h, q := (a * 2654435761) % w, (a * 2654435761) / w;
    assert 2654435761 * 244002641 == w * UNDONE + 1;
    assert h == a * 2654435761 - w * q;
    assert h * 244002641 == a + w * (a * UNDONE - q * 244002641);
    var d := a / w + a * UNDONE - q * 244002641;
    assert h * 244002641 == w * d + a % w;
    MulBounds(w, d);
    ModUnique(h * 244002641, w, d, a % w);
  }

  /** How often 32 bits wrap around in the product of the multiplier and its inverse. */
  const UNDONE: nat := 150801925

  // ---- Searching

  predicate Halts(t: Table, h: nat, id: NodeId, k: nat)
    requires |t| > 2
  {
    t[Slot(h, |t|, k)] == None || t[Slot(h, |t|, k)] == Some(id)
  }

  /** A search for `id` ends at its k-th probe. */
  ghost predicate EndsAt(t: Table, h: nat, id: NodeId, k: nat)
    requires |t| > 2
  {
    Halts(t, h, id, k) && forall j: nat :: j < k ==> !Halts(t, h, id, j)
  }

  ghost predicate Found(t: Table, h: nat, id: NodeId)
    requires |t| > 2
  {
    exists k: nat :: EndsAt(t, h, id, k) && t[Slot(h, |t|, k)] == Some(id)
  }

  /** Every stored id is found, where it is stored. */
  ghost predicate Consistent(t: Table, hash: NodeId -> nat) {
    && |t| > 2
    && forall s: nat :: s < |t| && t[s].Some? ==>
         exists k: nat :: EndsAt(t, hash(t[s].value), t[s].value, k) && Slot(hash(t[s].value), |t|, k) == s
  }

  ghost function Contents(t: Table): set<NodeId> {
    set s | 0 <= s < |t| && t[s].Some? :: t[s].value
  }

  /** How many slots are taken. */
  function Used(t: Table): (n: nat)
    ensures n <= |t|
  {
    if t == [] then 0 else Used(t[..|t| - 1]) + if t[|t| - 1].Some? then 1 else 0
  }

  lemma {:induction false} UsedUpdate(t: Table, s: nat, e: Option<NodeId>)
    requires s < |t|
    ensures Used(t[s := e]) == Used(t) - (if t[s].Some? then 1 else 0) + (if e.Some? then 1 else 0)
  {
    var n := |t| - 1;
    if s == n {
      assert t[s := e][..n] == t[..n];
    } else {
      assert t[s := e][..n] == t[..n][s := e];
      UsedUpdate(t[..n], s, e);
    }
  }

  lemma {:induction false} FreeSlot(t: Table) returns (s: nat)
    requires Used(t) < |t|
    ensures s < |t| && t[s] == None
  {
    var n := |t| - 1;
    if t[n] == None {
      s := n;
    } else {
      s := FreeSlot(t[..n]);
    }
  }

  lemma {:induction false} FirstHalt(t: Table, h: nat, id: NodeId, last: nat) returns (k: nat)
    requires |t| > 2 && Halts(t, h, id, last)
    ensures k <= last && EndsAt(t, h, id, k)
    decreases last
  {
    if j: nat :| j < last && Halts(t, h, id, j) {
      k := FirstHalt(t, h, id, j);
    } else {
      k := last;
    }
  }

  /** With a prime size and a free slot every search ends. */
  lemma SearchEnds(t: Table, h: nat, id: NodeId) returns (k: nat)
    requires |t| > 2 && Prime(|t|) && Used(t) < |t|
    ensures EndsAt(t, h, id, k)
  {
    var hole := FreeSlot(t);
    var last := ProbesCover(h, |t|, hole);
    k := FirstHalt(t, h, id, last);
  }

  lemma OneEnd(t: Table, h: nat, id: NodeId, j: nat, k: nat)
    requires |t| > 2 && EndsAt(t, h, id, j) && EndsAt(t, h, id, k)
    ensures j == k
  {
  }

  /** A consistent table answers like the set of its ids. */
  lemma LooksUp(t: Table, hash: NodeId -> nat, id: NodeId)
    requires Consistent(t, hash)
    ensures Found(t, hash(id), id) <==> id in Contents(t)
  {
    if id in Contents(t) {
      var s: nat :| s < |t| && t[s] == Some(id);
      assert t[s].Some? && t[s].value == id;
    }
  }

  // ---- Storing

  /** Store an id where its search ends. */
  ghost function Placed(t: Table, hash: NodeId -> nat, id: NodeId): (r: Table)
    requires |t| > 2
    ensures |r| == |t|
  {
    if k: nat :| EndsAt(t, hash(id), id, k) then t[Slot(hash(id), |t|, k) := Some(id)] else t
  }

  lemma PlacedAt(t: Table, hash: NodeId -> nat, id: NodeId, k: nat)
    requires |t| > 2 && EndsAt(t, hash(id), id, k)
    ensures Placed(t, hash, id) == t[Slot(hash(id), |t|, k) := Some(id)]
  {
    var j: nat :| EndsAt(t, hash(id), id, j) && Placed(t, hash, id) == t[Slot(hash(id), |t|, j) := Some(id)];
    OneEnd(t, hash(id), id, j, k);
  }

  lemma InsertKeepsOne(t: Table, h: nat, id: NodeId, added: NodeId, at: nat, k: nat)
    requires |t| > 2 && at < |t| && t[at] == None && id != added
    requires EndsAt(t, h, id, k) && t[Slot(h, |t|, k)] == Some(id)
    ensures EndsAt(t[at := Some(added)], h, id, k)
  {
    var t' := t[at := Some(added)];
    forall j: nat | j < k ensures !Halts(t', h, id, j) {
      assert !Halts(t, h, id, j);
    }
  }

  /** Inserting where the search ended keeps every stored id findable and adds the new one. */
  lemma InsertKeeps(t: Table, hash: NodeId -> nat, id: NodeId, k: nat)
    requires Consistent(t, hash) && EndsAt(t, hash(id), id, k) && t[Slot(hash(id), |t|, k)] == None
    ensures var t' := t[Slot(hash(id), |t|, k) := Some(id)];
            Consistent(t', hash) && Found(t', hash(id), id)
  {
    var at := Slot(hash(id), |t|, k);
    var t' := t[at := Some(id)];
    assert EndsAt(t', hash(id), id, k) by {
      forall j: nat | j < k ensures !Halts(t', hash(id), id, j) {
        assert !Halts(t, hash(id), id, j);
      }
    }
    forall s: nat | s < |t'| && t'[s].Some?
      ensures exists j: nat :: EndsAt(t', hash(t'[s].value), t'[s].value, j) && Slot(hash(t'[s].value), |t'|, j) == s
    {
      if s != at {
        var other := t[s].value;
        var j: nat :| EndsAt(t, hash(other), other, j) && Slot(hash(other), |t|, j) == s;
        assert other == id ==> j == k;
        InsertKeepsOne(t, hash(other), other, id, at, j);
      }
    }
  }

  lemma ContentsAdd(t: Table, s: nat, id: NodeId)
    requires s < |t| && (t[s] == None || t[s] == Some(id))
    ensures Contents(t[s := Some(id)]) == Contents(t) + {id}
  {
    var t' := t[s := Some(id)];
    forall x | x in Contents(t) + {id} ensures x in Contents(t') {
      if x == id {
        assert t'[s] == Some(id);
      } else {
        var i :| 0 <= i < |t| && t[i].Some? && t[i].value == x;
        assert t'[i] == t[i];
      }
    }
    forall x | x in Contents(t') ensures x in Contents(t) + {id} {
      var i :| 0 <= i < |t'| && t'[i].Some? && t'[i].value == x;
      assert i != s ==> t[i] == t'[i];
    }
  }

  /** Storing an id, new or not, adds it to the contents, takes at most one more slot and keeps a
      consistent table consistent. */
  lemma PlacedKeeps(t: Table, hash: NodeId -> nat, id: NodeId)
    requires |t| > 2 && Prime(|t|) && Used(t) < |t|
    ensures var r := Placed(t, hash, id);
            && Contents(r) == Contents(t) + {id}
            && Used(r) == Used(t) + (if Found(t, hash(id), id) then 0 else 1)
            && (Consistent(t, hash) ==> Consistent(r, hash))
            && (Found(t, hash(id), id) ==> r == t)
  {
    var k := SearchEnds(t, hash(id), id);
    var s := Slot(hash(id), |t|, k);
    PlacedAt(t, hash, id, k);
    ContentsAdd(t, s, id);
    UsedUpdate(t, s, Some(id));
    if Found(t, hash(id), id) {
      var j: nat :| EndsAt(t, hash(id), id, j) && t[Slot(hash(id), |t|, j)] == Some(id);
      OneEnd(t, hash(id), id, j, k);
      assert t[s := Some(id)] == t;
    } else {
      assert t[s] == None;
      if Consistent(t, hash) {
        InsertKeeps(t, hash, id, k);
      }
    }
  }

  // ---- Emptying a slot

  /** Emptying slot `s` hides another stored id exactly when its probes pass through `s`. */
  lemma RemovalHidesIff(t: Table, h: nat, id: NodeId, k: nat, s: nat)
    requires |t| > 2 && s < |t| && t[s].Some? && t[s] != Some(id)
    requires EndsAt(t, h, id, k) && t[Slot(h, |t|, k)] == Some(id)
    ensures Found(t[s := None], h, id) <==> !PassesThrough(h, |t|, k, s)
  {
    var t' := t[s := None];
    if PassesThrough(h, |t|, k, s) {
      var j := HiddenIsAddable(t, h, id, k, s);
      forall m: nat | EndsAt(t', h, id, m) ensures t'[Slot(h, |t|, m)] != Some(id) {
        OneEnd(t', h, id, j, m);
      }
    } else {
      forall j: nat | j < k ensures !Halts(t', h, id, j) {
        assert !Halts(t, h, id, j);
      }
      assert EndsAt(t', h, id, k);
    }
  }

  /** A hidden id is not refused when it is added again: its search ends at the emptied slot. */
  lemma HiddenIsAddable(t: Table, h: nat, id: NodeId, k: nat, s: nat) returns (j: nat)
    requires |t| > 2 && s < |t| && t[s].Some? && t[s] != Some(id)
    requires EndsAt(t, h, id, k) && PassesThrough(h, |t|, k, s)
    ensures EndsAt(t[s := None], h, id, j) && Slot(h, |t|, j) == s
  {
    var t' := t[s := None];
    j := FirstPass(h, |t|, k, s);
    forall m: nat | m < j ensures !Halts(t', h, id, m) {
      assert !Halts(t, h, id, m);
      assert Slot(h, |t|, m) != s;
    }
  }

  /** No stored id but the one in `s` is searched for through `s`. */
  ghost predicate Unused(t: Table, hash: NodeId -> nat, s: nat)
    requires |t| > 2 && s < |t| && t[s].Some?
  {
    forall id, k: nat :: id != t[s].value && EndsAt(t, hash(id), id, k) && t[Slot(hash(id), |t|, k)] == Some(id)
      ==> !PassesThrough(hash(id), |t|, k, s)
  }

  lemma OneSlotEach(t: Table, hash: NodeId -> nat, x: nat, y: nat)
    requires Consistent(t, hash) && x < |t| && y < |t| && t[x].Some? && t[x] == t[y]
    ensures x == y
  {
    var id := t[x].value;
    var j: nat :| EndsAt(t, hash(id), id, j) && Slot(hash(id), |t|, j) == x;
    var k: nat :| EndsAt(t, hash(id), id, k) && Slot(hash(id), |t|, k) == y;
    OneEnd(t, hash(id), id, j, k);
  }

  /** Emptying a slot of a consistent table takes exactly its id out of the contents. */
  lemma ContentsDrop(t: Table, hash: NodeId -> nat, s: nat)
    requires Consistent(t, hash) && s < |t| && t[s].Some?
    ensures Contents(t[s := None]) == Contents(t) - {t[s].value}
  {
    var t' := t[s := None];
    forall x | x in Contents(t') ensures x in Contents(t) - {t[s].value} {
      var i :| 0 <= i < |t'| && t'[i].Some? && t'[i].value == x;
      assert t[i] == t'[i];
      if t[i] == t[s] {
        OneSlotEach(t, hash, i, s);
      }
    }
    forall x | x in Contents(t) - {t[s].value} ensures x in Contents(t') {
      var i :| 0 <= i < |t| && t[i].Some? && t[i].value == x;
      assert t'[i] == t[i];
    }
  }

  /** A removal leaves a consistent table, one that still answers like the set of its ids, exactly
      when no other stored id is searched for through the emptied slot. */
  lemma RemovalSafeIff(t: Table, hash: NodeId -> nat, s: nat)
    requires Consistent(t, hash) && s < |t| && t[s].Some?
    ensures Consistent(t[s := None], hash) <==> Unused(t, hash, s)
  {
    var t' := t[s := None];
    ContentsDrop(t, hash, s);
    forall id, k: nat | id != t[s].value && EndsAt(t, hash(id), id, k) && t[Slot(hash(id), |t|, k)] == Some(id)
      ensures Consistent(t', hash) ==> !PassesThrough(hash(id), |t|, k, s)
    {
      RemovalHidesIff(t, hash(id), id, k, s);
      if Consistent(t', hash) {
        assert id in Contents(t);
        LooksUp(t', hash, id);
      }
    }
    if Unused(t, hash, s) {
      forall x: nat | x < |t'| && t'[x].Some?
        ensures exists k: nat :: EndsAt(t', hash(t'[x].value), t'[x].value, k) && Slot(hash(t'[x].value), |t'|, k) == x
      {
        UnusedKeepsOne(t, hash, s, x);
      }
    }
  }

  lemma UnusedKeepsOne(t: Table, hash: NodeId -> nat, s: nat, x: nat)
    requires Consistent(t, hash) && s < |t| && t[s].Some? && Unused(t, hash, s)
    requires x < |t| && x != s && t[x].Some?
    ensures var id := t[x].value;
            exists k: nat :: EndsAt(t[s := None], hash(id), id, k) && Slot(hash(id), |t|, k) == x
  {
    var id, t' := t[x].value, t[s := None];
    var k: nat :| EndsAt(t, hash(id), id, k) && Slot(hash(id), |t|, k) == x;
    if t[s].value == id {
      OneSlotEach(t, hash, s, x);
    }
    forall j: nat | j < k ensures !Halts(t', hash(id), id, j) {
      assert !Halts(t, hash(id), id, j);
      assert !PassesThrough(hash(id), |t|, k, s);
    }
    assert EndsAt(t', hash(id), id, k);
  }

  /** The search for the removed id itself ends in the slot it was in. */
  lemma EmptiedIsReused(t: Table, h: nat, id: NodeId, k: nat)
    requires |t| > 2 && EndsAt(t, h, id, k) && t[Slot(h, |t|, k)] == Some(id)
    ensures var s := Slot(h, |t|, k); EndsAt(t[s := None], h, id, k) && t[s := None][s := Some(id)] == t
  {
    var s := Slot(h, |t|, k);
    var t' := t[s := None];
    forall j: nat | j < k ensures !Halts(t', h, id, j) {
      assert !Halts(t, h, id, j);
    }
    assert t'[s := Some(id)] == t;
  }

  // ---- Rehashing

  /** Store the entries of `t`, in the order of its slots, on top of `u`. */
  ghost function Filled(u: Table, t: Table, hash: NodeId -> nat): (r: Table)
    requires |u| > 2
    ensures |r| == |u|
    decreases |t|
  {
    if t == [] then u
    else
      var r := Filled(u, t[..|t| - 1], hash);
      if t[|t| - 1].Some? then Placed(r, hash, t[|t| - 1].value) else r
  }

  function Empty(size: nat): (t: Table)
    ensures |t| == size && Used(t) == 0
  {
    if size == 0 then []
    else
      assert (Empty(size - 1) + [None])[..size - 1] == Empty(size - 1);
      Empty(size - 1) + [None]
  }

  lemma {:induction false} EmptySlots(size: nat, s: nat)
    requires s < size
    ensures Empty(size)[s] == None
  {
    if s < size - 1 {
      EmptySlots(size - 1, s);
    }
  }

  lemma ContentsOfPrefix(t: Table)
    requires t != []
    ensures var n := |t| - 1;
            Contents(t) == Contents(t[..n]) + if t[n].Some? then {t[n].value} else {}
  {
    var n := |t| - 1;
    forall x | x in Contents(t) ensures x in Contents(t[..n]) || t[n] == Some(x) {
      var i :| 0 <= i < |t| && t[i].Some? && t[i].value == x;
      assert i < n ==> t[..n][i] == t[i];
    }
    forall x | x in Contents(t[..n]) ensures x in Contents(t) {
      var i :| 0 <= i < n && t[..n][i].Some? && t[..n][i].value == x;
      assert t[i] == t[..n][i];
    }
  }

  /** Rehashing into a table with room stores every id, findable, whatever state the old table was
      in: ids that a removal had hidden are found again. */
  lemma {:induction false} FilledKeeps(size: nat, t: Table, hash: NodeId -> nat)
    requires size > 2 && Prime(size) && Used(t) < size
    ensures var r := Filled(Empty(size), t, hash);
            Consistent(r, hash) && Contents(r) == Contents(t) && Used(r) <= Used(t)
    decreases |t|
  {
    if t == [] {
      forall s | 0 <= s < size ensures Empty(size)[s] == None {
        EmptySlots(size, s);
      }
    } else {
      var n := |t| - 1;
      FilledKeeps(size, t[..n], hash);
      ContentsOfPrefix(t);
      if t[n].Some? {
        PlacedKeeps(Filled(Empty(size), t[..n], hash), hash, t[n].value);
      }
    }
  }

  /** The table and the number of nodes the server believes to be in it. */
  datatype Shelf = Shelf(table: Table, count: nat)

  /** What the list of sizes must offer: primes that are never too small and at most three times too
      large, the smallest being 7. */
  ghost predicate Sizes(sizes: nat -> nat) {
    forall n: nat {:trigger sizes(n)} ::
      Prime(sizes(n)) && sizes(n) >= 7 && sizes(n) >= n && (if n <= 7 then sizes(n) == 7 else sizes(n) <= 3 * n)
  }

  /** A prime number of slots of which at most three quarters were taken before the last insert. */
  ghost predicate Sound(sh: Shelf) {
    && |sh.table| >= 7
    && Prime(|sh.table|)
    && Used(sh.table) <= sh.count
    && sh.count * 4 < |sh.table| * 3 + 4
  }

  /** Neither too full nor too empty. */
  predicate Fits(size: nat, count: nat) {
    count * 2 < size && (count * 8 > size || size <= 32)
  }

  ghost function Expanded(sh: Shelf, hash: NodeId -> nat, sizes: nat -> nat): Shelf
    requires Sizes(sizes)
  {
    if Fits(|sh.table|, sh.count) then sh
    else Shelf(Filled(Empty(sizes(sh.count * 2)), sh.table, hash), sh.count)
  }

  lemma ExpandedKeeps(sh: Shelf, hash: NodeId -> nat, sizes: nat -> nat)
    requires Sizes(sizes) && Used(sh.table) <= sh.count && !Fits(|sh.table|, sh.count)
    ensures var r := Expanded(sh, hash, sizes);
            && Sound(r) && r.count == sh.count
            && |r.table| == sizes(sh.count * 2)
            && Consistent(r.table, hash) && Contents(r.table) == Contents(sh.table)
  {
    FilledKeeps(sizes(sh.count * 2), sh.table, hash);
  }

  predicate Crowded(sh: Shelf) {
    |sh.table| * 3 <= sh.count * 4
  }

  ghost function Roomy(sh: Shelf, hash: NodeId -> nat, sizes: nat -> nat): Shelf
    requires Sizes(sizes)
  {
    if Crowded(sh) then Expanded(sh, hash, sizes) else sh
  }

  ghost function Inserted(sh: Shelf, id: NodeId, hash: NodeId -> nat, sizes: nat -> nat): (Shelf, Status)
    requires Sizes(sizes) && Sound(sh)
  {
    var r := Roomy(sh, hash, sizes);
    if Found(r.table, hash(id), id) then (r, BadNodeIdExists)
    else (Shelf(Placed(r.table, hash, id), r.count + 1), Good)
  }

  /** Where the search for a stored id ends. */
  ghost function Place(t: Table, hash: NodeId -> nat, id: NodeId): (s: nat)
    requires |t| > 2 && Found(t, hash(id), id)
    ensures s < |t| && t[s] == Some(id)
  {
    var k: nat :| EndsAt(t, hash(id), id, k) && t[Slot(hash(id), |t|, k)] == Some(id);
    Slot(hash(id), |t|, k)
  }

  /** The removal of a stored id leaves the table so empty that it is rehashed. */
  predicate Shrinks(sh: Shelf) {
    (sh.count - 1) * 8 < |sh.table| && |sh.table| > 32
  }

  ghost function Emptied(sh: Shelf, id: NodeId, hash: NodeId -> nat): (r: Shelf)
    requires Sound(sh) && Found(sh.table, hash(id), id)
    ensures Used(r.table) == Used(sh.table) - 1 && r.count == sh.count - 1
  {
    UsedUpdate(sh.table, Place(sh.table, hash, id), None);
    Shelf(sh.table[Place(sh.table, hash, id) := None], sh.count - 1)
  }

  ghost function Removed(sh: Shelf, id: NodeId, hash: NodeId -> nat, sizes: nat -> nat): (Shelf, Status)
    requires Sizes(sizes) && Sound(sh)
  {
    if !Found(sh.table, hash(id), id) then (sh, BadNodeIdUnknown)
    else if Shrinks(sh) then (Expanded(Emptied(sh, id, hash), hash, sizes), Good)
    else (Emptied(sh, id, hash), Good)
  }

  lemma PlaceEnds(t: Table, hash: NodeId -> nat, id: NodeId, k: nat)
    requires |t| > 2 && EndsAt(t, hash(id), id, k) && t[Slot(hash(id), |t|, k)] == Some(id)
    ensures Found(t, hash(id), id) && Place(t, hash, id) == Slot(hash(id), |t|, k)
  {
    var j: nat :| EndsAt(t, hash(id), id, j) && t[Slot(hash(id), |t|, j)] == Some(id)
      && Place(t, hash, id) == Slot(hash(id), |t|, j);
    OneEnd(t, hash(id), id, j, k);
  }

  // ---- The table as a set of ids

  lemma RoomyKeeps(sh: Shelf, hash: NodeId -> nat, sizes: nat -> nat)
    requires Sizes(sizes) && Sound(sh)
    ensures var r := Roomy(sh, hash, sizes);
            && Sound(r) && r.count == sh.count && !Crowded(r)
            && Contents(r.table) == Contents(sh.table)
            && (Crowded(sh) || Consistent(sh.table, hash) ==> Consistent(r.table, hash))
  {
    if Crowded(sh) {
      ExpandedKeeps(sh, hash, sizes);
    }
  }

  /** An insert keeps the load limit, refuses exactly the ids that are stored and otherwise adds the
      id. A crowded table is consistent afterwards even if it was not before. */
  lemma InsertedKeeps(sh: Shelf, id: NodeId, hash: NodeId -> nat, sizes: nat -> nat)
    requires Sizes(sizes) && Sound(sh)
    ensures var (r, status) := Inserted(sh, id, hash, sizes);
            && Sound(r)
            && Contents(r.table) == Contents(sh.table) + {id}
            && (Crowded(sh) || Consistent(sh.table, hash) ==>
                  && Consistent(r.table, hash)
                  && status == if id in Contents(sh.table) then BadNodeIdExists else Good)
  {
    var m := Roomy(sh, hash, sizes);
    RoomyKeeps(sh, hash, sizes);
    PlacedKeeps(m.table, hash, id);
    if Consistent(m.table, hash) {
      LooksUp(m.table, hash, id);
    }
    if Found(m.table, hash(id), id) {
      assert Contents(m.table) == Contents(sh.table) + {id};
    }
  }

  lemma RemovedKeeps(sh: Shelf, id: NodeId, hash: NodeId -> nat, sizes: nat -> nat)
    requires Sizes(sizes) && Sound(sh)
    ensures Sound(Removed(sh, id, hash, sizes).0)
  {
    if Found(sh.table, hash(id), id) && Shrinks(sh) {
      ExpandedKeeps(Emptied(sh, id, hash), hash, sizes);
    }
  }

  /** The removal of `id` rehashes the table or empties a slot nobody else is searched for through. */
  ghost predicate SafeToRemove(sh: Shelf, id: NodeId, hash: NodeId -> nat)
    requires |sh.table| > 2
  {
    Found(sh.table, hash(id), id) ==> Shrinks(sh) || Unused(sh.table, hash, Place(sh.table, hash, id))
  }

  /** A removal from a consistent table always takes the right id out; but the table keeps answering
      like the set of its ids exactly if it is rehashed or nobody else uses the slot. */
  lemma RemovedIff(sh: Shelf, id: NodeId, hash: NodeId -> nat, sizes: nat -> nat)
    requires Sizes(sizes) && Sound(sh) && Consistent(sh.table, hash)
    ensures var (r, status) := Removed(sh, id, hash, sizes);
            && status == (if id in Contents(sh.table) then Good else BadNodeIdUnknown)
            && Contents(r.table) == Contents(sh.table) - {id}
            && (Consistent(r.table, hash) <==> SafeToRemove(sh, id, hash))
  {
    LooksUp(sh.table, hash, id);
    if Found(sh.table, hash(id), id) {
      var s := Place(sh.table, hash, id);
      ContentsDrop(sh.table, hash, s);
      RemovalSafeIff(sh.table, hash, s);
      if Shrinks(sh) {
        ExpandedKeeps(Emptied(sh, id, hash), hash, sizes);
      }
    }
  }

  // ---- Load

  /** A table is rehashed exactly when its size is at most twice the count, or it has more than 32 slots
      and at least eight times the count; it then gets the size for twice the count. */
  lemma RehashIff(sh: Shelf, hash: NodeId -> nat, sizes: nat -> nat)
    requires Sizes(sizes) && Used(sh.table) <= sh.count
    ensures var r := Expanded(sh, hash, sizes);
            if |sh.table| <= sh.count * 2 || (|sh.table| > 32 && |sh.table| >= sh.count * 8)
            then
              && |r.table| == sizes(sh.count * 2)
              && Consistent(r.table, hash) && Contents(r.table) == Contents(sh.table)
            else r == sh
  {
    if !Fits(|sh.table|, sh.count) {
      ExpandedKeeps(sh, hash, sizes);
    }
  }

  /** The upper load bound. After an insert that was accepted at most three quarters of the slots, and
      one more, are counted as taken. The table grows for it exactly if three quarters were taken, to
      the size for twice the count, which makes every stored id findable. */
  lemma InsertBoundsLoad(sh: Shelf, id: NodeId, hash: NodeId -> nat, sizes: nat -> nat)
    requires Sizes(sizes) && Sound(sh)
    ensures var (r, status) := Inserted(sh, id, hash, sizes);
            && r.count == sh.count + (if status == Good then 1 else 0)
            && r.count * 4 < |r.table| * 3 + 4
            && (if sh.count * 4 < |sh.table| * 3 then |r.table| == |sh.table|
                else |r.table| == sizes(sh.count * 2) > |sh.table| && Consistent(r.table, hash))
  {
    InsertedKeeps(sh, id, hash, sizes);
    if Crowded(sh) {
      ExpandedKeeps(sh, hash, sizes);
    }
  }

  /** The lower load bound. After every successful removal a table of more than 32 slots has at most
      eight times as many slots as nodes counted. A removal that leaves fewer than an eighth of more
      than 32 slots taken rehashes the table, to the size for twice the count, and makes every stored
      id findable, whatever was hidden; any other changes one slot and nothing else. */
  lemma RemovalBoundsLoad(sh: Shelf, id: NodeId, hash: NodeId -> nat, sizes: nat -> nat)
    requires Sizes(sizes) && Sound(sh)
    ensures var (r, status) := Removed(sh, id, hash, sizes);
            status == Good ==>
              && r.count == sh.count - 1
              && (|r.table| <= 32 || |r.table| <= r.count * 8)
              && if |sh.table| > 32 && r.count * 8 < |sh.table|
                 then
                   && |r.table| == sizes(r.count * 2)
                   && forall x :: x in Contents(r.table) ==> Found(r.table, hash(x), x)
                 else
                   && |r.table| == |sh.table|
                   && exists s: nat :: s < |sh.table| && sh.table[s] == Some(id) && r.table == sh.table[s := None]
  {
    var r := Removed(sh, id, hash, sizes).0;
    if Found(sh.table, hash(id), id) {
      var emptied := Emptied(sh, id, hash);
      if |sh.table| > 32 && emptied.count * 8 < |sh.table| {
        ExpandedKeeps(emptied, hash, sizes);
        forall x | x in Contents(r.table) ensures Found(r.table, hash(x), x) {
          LooksUp(r.table, hash, x);
        }
      } else {
        var s := Place(sh.table, hash, id);
        assert r.table == sh.table[s := None];
      }
    }
  }

  datatype Op = Put(id: NodeId) | Drop(id: NodeId)

  ghost function Done(sh: Shelf, op: Op, hash: NodeId -> nat, sizes: nat -> nat): (Shelf, Status)
    requires Sizes(sizes) && Sound(sh)
  {
    if op.Put? then Inserted(sh, op.id, hash, sizes) else Removed(sh, op.id, hash, sizes)
  }

  lemma DoneKeeps(sh: Shelf, op: Op, hash: NodeId -> nat, sizes: nat -> nat)
    requires Sizes(sizes) && Sound(sh)
    ensures Sound(Done(sh, op, hash, sizes).0)
  {
    if op.Put? {
      InsertedKeeps(sh, op.id, hash, sizes);
    } else {
      RemovedKeeps(sh, op.id, hash, sizes);
    }
  }

  /** The table and the statuses after any sequence of operations. */
  ghost function AllDone(sh: Shelf, ops: seq<Op>, hash: NodeId -> nat, sizes: nat -> nat): (r: (Shelf, seq<Status>))
    requires Sizes(sizes) && Sound(sh)
    ensures Sound(r.0)
    decreases |ops|
  {
    if ops == [] then (sh, [])
    else
      DoneKeeps(sh, ops[0], hash, sizes);
      var (r, status) := Done(sh, ops[0], hash, sizes);
      var (last, rest) := AllDone(r, ops[1..], hash, sizes);
      (last, [status] + rest)
  }

  /** The same operations on a plain set of ids. */
  function OnSet(ids: set<NodeId>, ops: seq<Op>): (set<NodeId>, seq<Status>)
    decreases |ops|
  {
    if ops == [] then (ids, [])
    else
      var id := ops[0].id;
      var (last, rest) := OnSet(if ops[0].Put? then ids + {id} else ids - {id}, ops[1..]);
      (last,
       [if ops[0].Put? then (if id in ids then BadNodeIdExists else Good)
        else if id in ids then Good else BadNodeIdUnknown] + rest)
  }

  /** The i-th operation, if it is a removal, is safe when its turn comes. */
  ghost predicate SafeAt(sh: Shelf, ops: seq<Op>, i: nat, hash: NodeId -> nat, sizes: nat -> nat)
    requires Sizes(sizes) && Sound(sh) && i < |ops|
  {
    ops[i].Drop? ==> SafeToRemove(AllDone(sh, ops[..i], hash, sizes).0, ops[i].id, hash)
  }

  lemma SafeLater(sh: Shelf, ops: seq<Op>, i: nat, hash: NodeId -> nat, sizes: nat -> nat)
    requires Sizes(sizes) && Sound(sh) && i + 1 < |ops|
    ensures Sound(Done(sh, ops[0], hash, sizes).0)
    ensures SafeAt(Done(sh, ops[0], hash, sizes).0, ops[1..], i, hash, sizes) == SafeAt(sh, ops, i + 1, hash, sizes)
  {
    DoneKeeps(sh, ops[0], hash, sizes);
    assert ops[..i + 1][1..] == ops[1..][..i];
  }

  /** Any sequence of inserts and safe removals, with all the rehashes they cause, answers every
      single operation as a set of ids would, and ends findable with that set. */
  lemma {:induction false} ActsLikeSet(sh: Shelf, ops: seq<Op>, hash: NodeId -> nat, sizes: nat -> nat)
    requires Sizes(sizes) && Sound(sh) && Consistent(sh.table, hash)
    requires forall i: nat :: i < |ops| ==> SafeAt(sh, ops, i, hash, sizes)
    ensures var (r, statuses) := AllDone(sh, ops, hash, sizes);
            && Consistent(r.table, hash)
            && (Contents(r.table), statuses) == OnSet(Contents(sh.table), ops)
            && forall id :: Found(r.table, hash(id), id) <==> id in OnSet(Contents(sh.table), ops).0
    decreases |ops|
  {
    if ops != [] {
      var op := ops[0];
      if op.Put? {
        InsertedKeeps(sh, op.id, hash, sizes);
      } else {
        assert SafeAt(sh, ops, 0, hash, sizes);
        RemovedIff(sh, op.id, hash, sizes);
      }
      DoneKeeps(sh, op, hash, sizes);
      forall i: nat | i < |ops| - 1 ensures SafeAt(Done(sh, op, hash, sizes).0, ops[1..], i, hash, sizes) {
        SafeLater(sh, ops, i, hash, sizes);
      }
      ActsLikeSet(Done(sh, op, hash, sizes).0, ops[1..], hash, sizes);
    }
    forall id ensures Found(AllDone(sh, ops, hash, sizes).0.table, hash(id), id)
                      <==> id in OnSet(Contents(sh.table), ops).0
    {
      LooksUp(AllDone(sh, ops, hash, sizes).0.table, hash, id);
    }
  }
}
