/** Any number of OPC_UA_PUBLISH blocks sharing one server, interleaved at service calls, with
    every call free to fail. A run is any list of scheduler choices. */
module Protocol {
  import opened Names
  import opened AddressSpace
  import opened Options
  import opened Publisher
  import opened Upsert

  /** A publishing block: requests waiting, the call it is in, confirmations sent. */
  datatype Block = Block(pair: Pair, pc: PC, pending: nat, confirmed: nat)

  /** Which requests about each pair's variable have reached the server so far.
        done:    a create, under an existing block;
        cleared: a delete;
        gone:    a delete, and since then no create under an existing block;
        lost:    a create that followed a delete did not arrive, and since then none has. */
  datatype History = History(done: set<Pair>, cleared: set<Pair>, gone: set<Pair>, lost: set<Pair>)

  /** The shared server, the blocks, and what has arrived. */
  datatype State = State(space: Space, blocks: seq<Block>, log: History)

  /** The scheduler's choice: who moves, the fate of that call, how a browse treats dangling references. */
  datatype Action = Action(who: nat, fate: Outcome, dangling: bool)

  predicate Enabled(s: State, a: Action) {
    a.who < |s.blocks| && (s.blocks[a.who].pc != Finished || s.blocks[a.who].pending > 0)
  }

  /** A finished block starts its next request by connecting. */
  function CallOf(b: Block): PC {
    if b.pc == Finished then Connecting else b.pc
  }

  function Advance(b: Block, pc': PC): Block {
    Block(b.pair, pc',
          if b.pc == Finished && b.pending > 0 then b.pending - 1 else b.pending,
          if pc' == Finished then b.confirmed + 1 else b.confirmed)
  }

  /** The create of this step reached the server under an existing block. */
  predicate Creates(s: State, b: Block, fate: Outcome) {
    CallOf(b).AddingVar? && fate != RequestLost && FbId(b.pair) in s.space
  }

  /** Deletes, wherever they find the server, and creates under an existing block. */
  function Record(s: State, b: Block, fate: Outcome): History {
    var p, h := b.pair, s.log;
    if Creates(s, b, fate) then
      History(h.done + {p}, h.cleared, h.gone - {p}, h.lost - {p})
    else if CallOf(b) == Deleting && fate != RequestLost then
      h.(cleared := h.cleared + {p}, gone := h.gone + {p})
    else if CallOf(b) == AddingVar(true) && fate == RequestLost then
      h.(lost := h.lost + {p})
    else h
  }

  function Step(s: State, a: Action): State {
    if !Enabled(s, a) then s
    else
      var b := s.blocks[a.who];
      var (sp', pc') := Exec(s.space, b.pair, CallOf(b), a.fate, a.dangling);
      State(sp', s.blocks[a.who := Advance(b, pc')], Record(s, b, a.fate))
  }

  function Run(s: State, acts: seq<Action>): State
    decreases |acts|
  {
    if acts == [] then s else Run(Step(s, acts[0]), acts[1..])
  }

  predicate Quiescent(s: State) {
    forall i :: 0 <= i < |s.blocks| ==> s.blocks[i].pc == Finished && s.blocks[i].pending == 0
  }

  /** Nothing has happened yet; requests may be waiting. */
  ghost predicate Starting(s: State) {
    && Builtins(s.space)
    && s.log == History({}, {}, {}, {})
    && forall i :: 0 <= i < |s.blocks| ==> s.blocks[i].pc == Finished && s.blocks[i].confirmed == 0
  }

  ghost predicate Initial(s: State, pairs: set<Pair>) {
    Starting(s) && Sound(s, pairs)
  }

  // ---- Structure

  ghost predicate Sound(s: State, pairs: set<Pair>) {
    && WellFormed(s.space, pairs)
    && forall i :: 0 <= i < |s.blocks| ==> s.blocks[i].pair in pairs
  }

  lemma StepKeepsSound(s: State, a: Action, pairs: set<Pair>)
    requires Sound(s, pairs)
    ensures Sound(Step(s, a), pairs)
  {
    if Enabled(s, a) {
      ExecKeeps(s.space, s.blocks[a.who].pair, CallOf(s.blocks[a.who]), a.fate, a.dangling, pairs);
    }
  }

  /** Whatever is interleaved and whatever fails, variables hang under existing blocks, blocks
      under Objects, and Objects lists no block that is not there. */
  lemma {:induction false} RunKeepsSound(s: State, acts: seq<Action>, pairs: set<Pair>)
    requires Sound(s, pairs)
    ensures Sound(Run(s, acts), pairs)
    decreases |acts|
  {
    if acts != [] {
      StepKeepsSound(s, acts[0], pairs);
      RunKeepsSound(Step(s, acts[0]), acts[1..], pairs);
    }
  }

  /** In the other direction too, in any space with the built-in nodes. */
  lemma {:induction false} RunKeepsBacklinks(s: State, acts: seq<Action>, p: Pair)
    requires Builtins(s.space) && Backlinked(s.space, p)
    ensures Builtins(Run(s, acts).space) && Backlinked(Run(s, acts).space, p)
    decreases |acts|
  {
    if acts != [] {
      if Enabled(s, acts[0]) {
        var b := s.blocks[acts[0].who];
        ExecKeepsBacklinks(s.space, b.pair, CallOf(b), acts[0].fate, acts[0].dangling, p);
      }
      RunKeepsBacklinks(Step(s, acts[0]), acts[1..], p);
    }
  }

  /** From every reachable state one undisturbed publish restores its variable, fresh and linked,
      whether or not browse reports the dangling references failures left behind. */
  lemma SelfHealing(s: State, acts: seq<Action>, p: Pair, dangling: bool, pairs: set<Pair>)
    requires Sound(s, pairs) && p in pairs
    ensures var sp := Publish(Run(s, acts).space, p, dangling);
            WellFormed(sp, pairs) && VarId(p) in sp && sp[VarId(p)] == FreshVar(p)
            && FbId(p) in sp && Child(VarId(p)) in sp[FbId(p)].refs && Child(FbId(p)) in sp[OBJECTS].refs
  {
    RunKeepsSound(s, acts, pairs);
    var sp := Run(s, acts).space;
    PublishKeeps(sp, p, dangling, pairs);
    PublishEffect(sp, p, dangling, pairs);
    assert Linked(Publish(sp, p, dangling), p);
  }

  // ---- Non-interference

  ghost predicate IsBlock(ps: set<Pair>, id: NodeId) {
    exists p :: p in ps && FbId(p) == id
  }

  /** A node that only gained references to children published under it. */
  ghost predicate Grown(ps: set<Pair>, id: NodeId, before: Node, after: Node) {
    && after == before.(refs := after.refs)
    && before.refs <= after.refs
    && forall k :: |before.refs| <= k < |after.refs| ==> after.refs[k] in Children(ps, id)
  }

  /** How far publishers of `ps` may move a space: nodes other than their variables only gain
      children, and nodes other than their variables only appear as new blocks. */
  ghost predicate Spared(ps: set<Pair>, before: Space, after: Space) {
    && (forall n :: n in before && !IsVar(ps, n) ==> n in after && Grown(ps, n, before[n], after[n]))
    && (forall n :: n in after && n !in before && !IsVar(ps, n) ==>
          IsBlock(ps, n) && Grown(ps, n, FreshFb(), after[n]))
  }

  /** Only blocks that publish pairs of `ps` are busy or have requests waiting. */
  ghost predicate Busy(s: State, ps: set<Pair>) {
    forall i :: 0 <= i < |s.blocks| && (s.blocks[i].pc != Finished || s.blocks[i].pending > 0) ==>
      s.blocks[i].pair in ps
  }

  lemma SparedSelf(ps: set<Pair>, sp: Space)
    ensures Spared(ps, sp, sp)
  {
  }

  lemma AddFbSpares(ps: set<Pair>, p: Pair, sp: Space)
    requires p in ps
    ensures Spared(ps, sp, AddFb(sp, p))
  {
    AddNodeEffect(sp, FbId(p), OBJECTS, ORGANIZES, FB_NODE);
    assert IsBlock(ps, FbId(p));
    assert Child(FbId(p)) in Children(ps, OBJECTS);
    assert FreshFb().refs == FB_NODE.refs + [Parent(OBJECTS)];
  }

  lemma AddVarSpares(ps: set<Pair>, p: Pair, sp: Space)
    requires p in ps
    ensures Spared(ps, sp, AddVar(sp, p))
  {
    AddNodeEffect(sp, VarId(p), FbId(p), ORGANIZES, VAR_NODE);
    assert IsVar(ps, VarId(p));
    assert Child(VarId(p)) in Children(ps, FbId(p));
  }

  lemma DropVarSpares(ps: set<Pair>, p: Pair, sp: Space)
    requires p in ps
    ensures Spared(ps, sp, DropVar(sp, p))
  {
    assert IsVar(ps, VarId(p));
  }

  lemma GrownTransitive(ps: set<Pair>, id: NodeId, a: Node, b: Node, c: Node)
    requires Grown(ps, id, a, b) && Grown(ps, id, b, c)
    ensures Grown(ps, id, a, c)
  {
    forall k | |a.refs| <= k < |c.refs| ensures c.refs[k] in Children(ps, id) {
      if k < |b.refs| {
        assert c.refs[k] == b.refs[k];
      }
    }
  }

  lemma SparedTransitive(ps: set<Pair>, a: Space, b: Space, c: Space)
    requires Spared(ps, a, b) && Spared(ps, b, c)
    ensures Spared(ps, a, c)
  {
    forall n | n in a && !IsVar(ps, n) ensures n in c && Grown(ps, n, a[n], c[n]) {
      GrownTransitive(ps, n, a[n], b[n], c[n]);
    }
    forall n | n in c && n !in a && !IsVar(ps, n) ensures IsBlock(ps, n) && Grown(ps, n, FreshFb(), c[n]) {
      if n in b {
        GrownTransitive(ps, n, FreshFb(), b[n], c[n]);
      }
    }
  }

  lemma ExecSpares(ps: set<Pair>, p: Pair, sp: Space, pc: PC, o: Outcome, dangling: bool)
    requires p in ps
    ensures Spared(ps, sp, Exec(sp, p, pc, o, dangling).0)
  {
    SparedSelf(ps, sp);
    AddFbSpares(ps, p, sp);
    AddVarSpares(ps, p, sp);
    DropVarSpares(ps, p, sp);
  }

  lemma StepSpares(s: State, a: Action, ps: set<Pair>)
    requires Busy(s, ps)
    ensures Spared(ps, s.space, Step(s, a).space) && Busy(Step(s, a), ps)
  {
    if Enabled(s, a) {
      ExecSpares(ps, s.blocks[a.who].pair, s.space, CallOf(s.blocks[a.who]), a.fate, a.dangling);
    } else {
      SparedSelf(ps, s.space);
    }
  }

  /** Over whole runs nodes other than the variables being published are never removed and only gain
      references to children published under them; nothing but those variables and their blocks is
      ever created. */
  lemma {:induction false} RunSpares(s: State, acts: seq<Action>, ps: set<Pair>)
    requires Busy(s, ps)
    ensures Spared(ps, s.space, Run(s, acts).space)
    decreases |acts|
  {
    if acts == [] {
      SparedSelf(ps, s.space);
    } else {
      StepSpares(s, acts[0], ps);
      RunSpares(Step(s, acts[0]), acts[1..], ps);
      SparedTransitive(ps, s.space, Step(s, acts[0]).space, Run(s, acts).space);
    }
  }

  lemma GrowthHasChildren(ps: set<Pair>, id: NodeId, before: Node, after: Node)
    requires Grown(ps, id, before, after)
    ensures after == before || Children(ps, id) != {}
  {
    if |before.refs| < |after.refs| {
      assert after.refs[|before.refs|] in Children(ps, id);
    } else {
      assert after.refs == before.refs;
    }
  }

  lemma ChildOfBlock(ps: set<Pair>, p: Pair, r: Reference)
    requires r in Children(ps, FbId(p))
    ensures exists q :: q in ps && q.fb == p.fb && r == Child(VarId(q))
  {
    var q :| q in ps && FbId(q) == FbId(p) && r == Child(VarId(q));
  }

  /** In particular a node that is neither Objects nor a block nor a variable being published stays
      exactly as it was. */
  lemma BystandersStay(s: State, acts: seq<Action>, n: NodeId, ps: set<Pair>)
    requires Busy(s, ps) && !IsVar(ps, n) && !IsBlock(ps, n) && n != OBJECTS
    ensures n in Run(s, acts).space <==> n in s.space
    ensures n in s.space ==> Run(s, acts).space[n] == s.space[n]
  {
    RunSpares(s, acts, ps);
    NoChildren(ps, n);
    if n in s.space {
      GrowthHasChildren(ps, n, s.space[n], Run(s, acts).space[n]);
    }
  }

  /** A block object is never removed or changed, apart from references to variables of its own
      name appended to its list. */
  lemma BlocksStay(s: State, acts: seq<Action>, p: Pair, ps: set<Pair>)
    requires Busy(s, ps) && FbId(p) in s.space
    ensures FbId(p) in Run(s, acts).space
    ensures var a := s.space[FbId(p)]; var b := Run(s, acts).space[FbId(p)];
            && b == a.(refs := b.refs)
            && a.refs <= b.refs
            && forall k :: |a.refs| <= k < |b.refs| ==>
                 exists q :: q in ps && q.fb == p.fb && b.refs[k] == Child(VarId(q))
  {
    RunSpares(s, acts, ps);
    forall q ensures VarId(q) != FbId(p) {
      VarStringIsNoName(q, p.fb);
    }
    var a, b := s.space[FbId(p)], Run(s, acts).space[FbId(p)];
    forall k | |a.refs| <= k < |b.refs|
      ensures exists q :: q in ps && q.fb == p.fb && b.refs[k] == Child(VarId(q))
    {
      ChildOfBlock(ps, p, b.refs[k]);
    }
  }

  // ---- Dangling references

  /** A forward reference of `n` that leads nowhere. */
  predicate Dangles(sp: Space, n: NodeId, r: Reference) {
    n in sp && r in sp[n].refs && !r.inverse && r.target !in sp
  }

  /** What dangles afterwards dangled before or names a variable of `ps`. */
  ghost predicate LeavesTidy(ps: set<Pair>, before: Space, after: Space) {
    forall n, r :: Dangles(after, n, r) ==> Dangles(before, n, r) || IsVar(ps, r.target)
  }

  lemma ExecLeavesTidy(ps: set<Pair>, p: Pair, sp: Space, pc: PC, o: Outcome, dangling: bool)
    requires p in ps
    ensures LeavesTidy(ps, sp, Exec(sp, p, pc, o, dangling).0)
  {
    AddNodeEffect(sp, FbId(p), OBJECTS, ORGANIZES, FB_NODE);
    AddNodeEffect(sp, VarId(p), FbId(p), ORGANIZES, VAR_NODE);
    assert IsVar(ps, VarId(p));
    var sp' := Exec(sp, p, pc, o, dangling).0;
    forall n, r | Dangles(sp', n, r) ensures Dangles(sp, n, r) || IsVar(ps, r.target) {
      assert n in sp ==> r in sp[n].refs || r.target in sp';
    }
  }

  /** Over whole runs, in any space, nothing but variables being published is left dangling that did
      not dangle at the start. */
  lemma {:induction false} RunLeavesTidy(s: State, acts: seq<Action>, ps: set<Pair>)
    requires Busy(s, ps)
    ensures LeavesTidy(ps, s.space, Run(s, acts).space)
    decreases |acts|
  {
    if acts != [] {
      var t := Step(s, acts[0]);
      StepSpares(s, acts[0], ps);
      if Enabled(s, acts[0]) {
        var b := s.blocks[acts[0].who];
        ExecLeavesTidy(ps, b.pair, s.space, CallOf(b), acts[0].fate, acts[0].dangling);
      }
      RunLeavesTidy(t, acts[1..], ps);
    }
  }

  // ---- Termination and confirmations

  /** A waiting request is worth one connect and at most four service calls. */
  function Work(blocks: seq<Block>): nat {
    if blocks == [] then 0
    else Work(blocks[..|blocks| - 1]) + 5 * blocks[|blocks| - 1].pending + CallsLeft(blocks[|blocks| - 1].pc)
  }

  lemma {:induction false} WorkUpdate(blocks: seq<Block>, i: nat, b: Block)
    requires i < |blocks|
    ensures Work(blocks[i := b]) - Work(blocks)
            == 5 * b.pending + CallsLeft(b.pc) - 5 * blocks[i].pending - CallsLeft(blocks[i].pc)
  {
    var n := |blocks| - 1;
    if i == n {
      assert blocks[i := b][..n] == blocks[..n];
    } else {
      assert blocks[i := b][..n] == blocks[..n][i := b];
      WorkUpdate(blocks[..n], i, b);
    }
  }

  lemma StepWorks(s: State, a: Action)
    requires Enabled(s, a)
    ensures Work(Step(s, a).blocks) < Work(s.blocks)
  {
    var b := s.blocks[a.who];
    var (sp', pc') := Exec(s.space, b.pair, CallOf(b), a.fate, a.dangling);
    assert CallsLeft(pc') < CallsLeft(CallOf(b));
    WorkUpdate(s.blocks, a.who, Advance(b, pc'));
  }

  /** How many choices of a run actually move a block. */
  function Moves(s: State, acts: seq<Action>): nat
    decreases |acts|
  {
    if acts == [] then 0 else (if Enabled(s, acts[0]) then 1 else 0) + Moves(Step(s, acts[0]), acts[1..])
  }

  /** No run makes more moves than the work it starts with, five per request. */
  lemma {:induction false} RunsEnd(s: State, acts: seq<Action>)
    ensures Moves(s, acts) + Work(Run(s, acts).blocks) <= Work(s.blocks)
    decreases |acts|
  {
    if acts != [] {
      if Enabled(s, acts[0]) {
        StepWorks(s, acts[0]);
      }
      RunsEnd(Step(s, acts[0]), acts[1..]);
    }
  }

  /** Until everything is quiescent somebody can move; quiescence is exactly no work left. */
  lemma {:induction false} QuiescentIff(s: State)
    ensures Quiescent(s) <==> Work(s.blocks) == 0
    ensures Quiescent(s) <==> forall a :: !Enabled(s, a)
    decreases |s.blocks|
  {
    if s.blocks != [] {
      var n := |s.blocks| - 1;
      var t := s.(blocks := s.blocks[..n]);
      QuiescentIff(t);
      assert forall i :: 0 <= i < n ==> t.blocks[i] == s.blocks[i];
      assert Quiescent(s) <==> Quiescent(t) && s.blocks[n].pc == Finished && s.blocks[n].pending == 0;
    }
    if !Quiescent(s) {
      var i :| 0 <= i < |s.blocks| && !(s.blocks[i].pc == Finished && s.blocks[i].pending == 0);
      assert Enabled(s, Action(i, Delivered, false));
    }
  }

  function Requests(b: Block): nat {
    b.confirmed + b.pending + if b.pc == Finished then 0 else 1
  }

  /** Every request is confirmed exactly once, however its calls end. */
  lemma {:induction false} OneConfirmationPerRequest(s: State, acts: seq<Action>, i: nat)
    requires i < |s.blocks|
    ensures var t := Run(s, acts);
            && |t.blocks| == |s.blocks|
            && t.blocks[i].pair == s.blocks[i].pair
            && Requests(t.blocks[i]) == Requests(s.blocks[i])
            && (Quiescent(t) ==> t.blocks[i].confirmed == Requests(s.blocks[i]))
    decreases |acts|
  {
    if acts != [] {
      OneConfirmationPerRequest(Step(s, acts[0]), acts[1..], i);
    }
  }

  // ---- Presence, at any time

  /** What one call does to the nodes of any pair `q`. */
  lemma ExecOnPair(sp: Space, p: Pair, pc: PC, o: Outcome, dangling: bool, q: Pair)
    requires Builtins(sp)
    ensures var sp' := Exec(sp, p, pc, o, dangling).0;
            && Builtins(sp')
            && (FbId(q) in sp ==> FbId(q) in sp')
            && (VarId(q) in sp && VarId(q) in sp' ==> sp'[VarId(q)] == sp[VarId(q)])
            && (VarId(q) in sp && VarId(q) !in sp' ==> q == p && pc == Deleting && o != RequestLost)
            && (VarId(q) in sp' && VarId(q) !in sp ==>
                  q == p && pc.AddingVar? && o != RequestLost && FbId(p) in sp && sp'[VarId(q)] == FreshVar(q))
            && (pc == AddingFb && o != RequestLost ==> FbId(p) in sp')
            && (pc.AddingVar? && o != RequestLost && FbId(p) in sp ==> VarId(p) in sp')
            && (pc == Deleting && o != RequestLost ==> VarId(p) !in sp')
  {
    VarStringInjective(p, q);
    VarStringIsNoName(p, q.fb);
    VarStringIsNoName(q, p.fb);
    VarStringIsNoName(p, p.fb);
    AddNodeEffect(sp, FbId(p), OBJECTS, ORGANIZES, FB_NODE);
    AddNodeEffect(sp, VarId(p), FbId(p), ORGANIZES, VAR_NODE);
    assert FreshVar(p).refs == VAR_NODE.refs + [Parent(FbId(p))];
  }

  ghost predicate InWindow(s: State, p: Pair) {
    exists i :: 0 <= i < |s.blocks| && s.blocks[i].pair == p && s.blocks[i].pc == AddingVar(true)
  }

  ghost predicate Stale(sp: Space, p: Pair) {
    VarId(p) in sp && sp[VarId(p)] != FreshVar(p)
  }

  /** What the history says about the variable of `p`, which was there at the start if `was`, then
      with another content than the configured one if `stale`. */
  ghost predicate Tells(s: State, p: Pair, was: bool, stale: bool) {
    && (VarId(p) in s.space <==> p !in s.log.gone && (was || p in s.log.done))
    && (Stale(s.space, p) <==> stale && p !in s.log.cleared)
    && (p in s.log.gone ==> p in s.log.cleared)
    && Explained(s, p)
  }

  ghost predicate Explained(s: State, p: Pair) {
    p in s.log.gone ==> InWindow(s, p) || p in s.log.lost
  }

  /** Whoever is about to delete or to create after a delete has found its block. */
  ghost predicate Deleters(s: State) {
    && Builtins(s.space)
    && forall i :: 0 <= i < |s.blocks| && (s.blocks[i].pc == Deleting || s.blocks[i].pc == AddingVar(true)) ==>
         FbId(s.blocks[i].pair) in s.space
  }

  lemma StepKeepsDeleters(s: State, a: Action)
    requires Deleters(s)
    ensures Deleters(Step(s, a))
  {
    if Enabled(s, a) {
      var b, t := s.blocks[a.who], Step(s, a);
      ExecOnPair(s.space, b.pair, CallOf(b), a.fate, a.dangling, b.pair);
      forall i | 0 <= i < |t.blocks| && (t.blocks[i].pc == Deleting || t.blocks[i].pc == AddingVar(true))
        ensures FbId(t.blocks[i].pair) in t.space
      {
        ExecOnPair(s.space, b.pair, CallOf(b), a.fate, a.dangling, t.blocks[i].pair);
      }
    }
  }

  lemma WindowStaysOpen(s: State, a: Action, p: Pair)
    requires Enabled(s, a) && InWindow(s, p)
    ensures InWindow(Step(s, a), p) || (s.blocks[a.who].pair == p && s.blocks[a.who].pc == AddingVar(true))
  {
    var i :| 0 <= i < |s.blocks| && s.blocks[i].pair == p && s.blocks[i].pc == AddingVar(true);
    if i != a.who {
      assert Step(s, a).blocks[i] == s.blocks[i];
    }
  }

  lemma WindowOpens(s: State, a: Action)
    requires Enabled(s, a) && s.blocks[a.who].pc == Deleting
    ensures InWindow(Step(s, a), s.blocks[a.who].pair)
  {
    assert Step(s, a).blocks[a.who].pc == AddingVar(true);
  }

  lemma StepExplains(s: State, a: Action, p: Pair)
    requires Deleters(s) && Explained(s, p)
    ensures Explained(Step(s, a), p)
  {
    if Enabled(s, a) {
      if s.blocks[a.who].pc == Deleting {
        WindowOpens(s, a);
      }
      if InWindow(s, p) {
        WindowStaysOpen(s, a, p);
      }
    }
  }

  lemma StepTells(s: State, a: Action, p: Pair, was: bool, stale: bool)
    requires Deleters(s) && Tells(s, p, was, stale)
    ensures Tells(Step(s, a), p, was, stale)
  {
    if Enabled(s, a) {
      var b := s.blocks[a.who];
      ExecOnPair(s.space, b.pair, CallOf(b), a.fate, a.dangling, p);
      StepExplains(s, a, p);
    }
  }

  lemma {:induction false} RunTells(s: State, acts: seq<Action>, p: Pair, was: bool, stale: bool)
    requires Deleters(s) && Tells(s, p, was, stale)
    ensures Tells(Run(s, acts), p, was, stale)
    decreases |acts|
  {
    if acts != [] {
      StepKeepsDeleters(s, acts[0]);
      StepTells(s, acts[0], p, was, stale);
      RunTells(Step(s, acts[0]), acts[1..], p, was, stale);
    }
  }

  /** In every run, at any time and whatever fails, a variable is there exactly when it was there at
      the start or has been created, and no delete has arrived since the last create did. */
  lemma PresenceIff(s: State, acts: seq<Action>, p: Pair)
    requires Starting(s)
    ensures var t := Run(s, acts);
            VarId(p) in t.space <==> p !in t.log.gone && (VarId(p) in s.space || p in t.log.done)
  {
    RunTells(s, acts, p, VarId(p) in s.space, Stale(s.space, p));
  }

  /** In every run an existing or published variable is missing only while one of its publishers sits
      between delete and create, or after such a create was lost and none has arrived since. */
  lemma AbsenceWindow(s: State, acts: seq<Action>, p: Pair)
    requires Starting(s)
    ensures var t := Run(s, acts);
            (VarId(p) in s.space || p in t.log.done) && VarId(p) !in t.space ==>
              InWindow(t, p) || p in t.log.lost
  {
    RunTells(s, acts, p, VarId(p) in s.space, Stale(s.space, p));
  }

  /** In every run, at any time, a variable holds something else than the configured value exactly
      when it did at the start and no delete of it has ever arrived. */
  lemma StaleIff(s: State, acts: seq<Action>, p: Pair)
    requires Starting(s)
    ensures var t := Run(s, acts); Stale(t.space, p) <==> Stale(s.space, p) && p !in t.log.cleared
  {
    RunTells(s, acts, p, VarId(p) in s.space, Stale(s.space, p));
  }

  /** With all blocks at rest a variable that existed or was published is missing exactly when a
      delete was the last of its requests to arrive; then a create after a delete was lost. */
  lemma LostAtRestIff(s: State, acts: seq<Action>, p: Pair)
    requires Starting(s) && Quiescent(Run(s, acts))
    requires VarId(p) in s.space || p in Run(s, acts).log.done
    ensures var t := Run(s, acts);
            && (VarId(p) !in t.space <==> p in t.log.gone)
            && (VarId(p) !in t.space ==> p in t.log.lost)
  {
    PresenceIff(s, acts, p);
    AbsenceWindow(s, acts, p);
  }

  // ---- What the created nodes are

  /** In every run a block that was not there at the start is an object, and refuses every write
      because of its class. */
  lemma CreatedBlocksAreObjects(s: State, acts: seq<Action>, p: Pair, v: Variant)
    requires Starting(s)
    requires FbId(p) !in s.space && FbId(p) in Run(s, acts).space
    ensures var t := Run(s, acts);
            && t.space[FbId(p)].kind == ObjectNode && t.space[FbId(p)].value == None
            && WriteCheck(t.space, FbId(p), v) == BadNodeClassInvalid
            && WriteValue(t.space, FbId(p), v) == t.space
  {
    var ps := set i | 0 <= i < |s.blocks| :: s.blocks[i].pair;
    RunSpares(s, acts, ps);
    forall q ensures VarId(q) != FbId(p) {
      VarStringIsNoName(q, p.fb);
    }
    assert Grown(ps, FbId(p), FreshFb(), Run(s, acts).space[FbId(p)]);
  }

  /** In every run a variable that was not there at the start, or of which a delete has arrived, takes
      writes of type index 1, the one it was created with, and refuses every other type. */
  lemma CreatedVariablesTakeTheirType(s: State, acts: seq<Action>, p: Pair, v: Variant)
    requires Starting(s) && VarId(p) in Run(s, acts).space
    requires VarId(p) !in s.space || p in Run(s, acts).log.cleared
    ensures var t := Run(s, acts);
            && t.space[VarId(p)].kind == VariableNode && t.space[VarId(p)].value == Some(Variant(1, 0))
            && WriteCheck(t.space, VarId(p), v) == (if v.typeIndex == 1 then Good else BadTypeMismatch)
            && (v.typeIndex == 1 ==> WriteValue(t.space, VarId(p), v)[VarId(p)].value == Some(v))
            && (v.typeIndex != 1 ==> WriteValue(t.space, VarId(p), v) == t.space)
  {
    StaleIff(s, acts, p);
  }

  // ---- What the network has to deliver

  /** Connects are answered; creates and deletes reach the server; searches are answered. */
  datatype Demand = Connects | Creations | Deletions | Searches

  predicate MeetsOne(call: PC, fate: Outcome, d: Demand) {
    match d
    case Connects => call == Connecting ==> fate == Delivered
    case Creations => call == AddingFb || call.AddingVar? ==> fate != RequestLost
    case Deletions => call == Deleting ==> fate != RequestLost
    case Searches => call == BrowsingRoot || call == BrowsingFb ==> fate == Delivered
  }

  /** The run's calls meet these demands; nothing is asked of any other call. */
  predicate Met(s: State, acts: seq<Action>, ds: set<Demand>)
    decreases |acts|
  {
    acts == [] ||
    (&& (Enabled(s, acts[0]) ==> forall d :: d in ds ==> MeetsOne(CallOf(s.blocks[acts[0].who]), acts[0].fate, d))
     && Met(Step(s, acts[0]), acts[1..], ds))
  }

  lemma {:induction false} MetFewer(s: State, acts: seq<Action>, ds: set<Demand>, es: set<Demand>)
    requires Met(s, acts, ds) && es <= ds
    ensures Met(s, acts, es)
    decreases |acts|
  {
    if acts != [] {
      MetFewer(Step(s, acts[0]), acts[1..], ds, es);
    }
  }

  lemma {:induction false} NothingLost(s: State, acts: seq<Action>)
    requires s.log.lost == {} && Met(s, acts, {Creations})
    ensures Run(s, acts).log.lost == {}
    decreases |acts|
  {
    if acts != [] {
      assert Enabled(s, acts[0]) ==> MeetsOne(CallOf(s.blocks[acts[0].who]), acts[0].fate, Creations);
      NothingLost(Step(s, acts[0]), acts[1..]);
    }
  }

  /** If every create reaches the server the window is all there is: no variable stays lost,
      whichever other calls fail. */
  lemma NothingOrphaned(s: State, acts: seq<Action>, p: Pair)
    requires Starting(s) && Met(s, acts, {Creations})
    requires VarId(p) in s.space || p in Run(s, acts).log.done
    ensures var t := Run(s, acts); VarId(p) in t.space <==> p !in t.log.gone
    ensures VarId(p) !in Run(s, acts).space ==> InWindow(Run(s, acts), p)
  {
    PresenceIff(s, acts, p);
    AbsenceWindow(s, acts, p);
    NothingLost(s, acts);
  }

  // ---- Convergence

  /** Whoever has passed its search knows its block is there; whoever has confirmed has created. */
  ghost predicate Established(s: State) {
    forall i :: 0 <= i < |s.blocks| ==> BlockEstablished(s, s.blocks[i])
  }

  ghost predicate BlockEstablished(s: State, b: Block) {
    && (b.pc.BrowsingFb? || b.pc.Deleting? || b.pc.AddingVar? ==> FbId(b.pair) in s.space)
    && (b.confirmed > 0 ==> b.pair in s.log.done)
  }

  lemma MoverEstablishes(s: State, a: Action, pairs: set<Pair>)
    requires Sound(s, pairs) && Established(s) && Enabled(s, a)
    requires forall d :: d in {Connects, Creations} ==> MeetsOne(CallOf(s.blocks[a.who]), a.fate, d)
    ensures BlockEstablished(Step(s, a), Step(s, a).blocks[a.who])
  {
    var b := s.blocks[a.who];
    assert BlockEstablished(s, b);
    assert MeetsOne(CallOf(b), a.fate, Connects) && MeetsOne(CallOf(b), a.fate, Creations);
    ExecOnPair(s.space, b.pair, CallOf(b), a.fate, a.dangling, b.pair);
    SearchFindsFb(s.space, b.pair, a.dangling, pairs);
  }

  lemma StepEstablishes(s: State, a: Action, pairs: set<Pair>)
    requires Sound(s, pairs) && Established(s)
    requires Met(s, [a], {Connects, Creations})
    ensures Established(Step(s, a))
  {
    if Enabled(s, a) {
      var b, t := s.blocks[a.who], Step(s, a);
      MoverEstablishes(s, a, pairs);
      forall i | 0 <= i < |t.blocks| ensures BlockEstablished(t, t.blocks[i]) {
        if i != a.who {
          assert BlockEstablished(s, s.blocks[i]) && t.blocks[i] == s.blocks[i];
          ExecOnPair(s.space, b.pair, CallOf(b), a.fate, a.dangling, s.blocks[i].pair);
        }
      }
    }
  }

  lemma {:induction false} RunEstablishes(s: State, acts: seq<Action>, pairs: set<Pair>)
    requires Sound(s, pairs) && Established(s) && Met(s, acts, {Connects, Creations})
    ensures Established(Run(s, acts))
    decreases |acts|
  {
    if acts != [] {
      assert Met(Step(s, acts[0]), [acts[0]][1..], {Connects, Creations});
      StepEstablishes(s, acts[0], pairs);
      StepKeepsSound(s, acts[0], pairs);
      RunEstablishes(Step(s, acts[0]), acts[1..], pairs);
    }
  }

  /** If connects are answered and creates reach the server, then whatever the interleaving and
      whatever happens to searches and deletes, once all blocks have finished every requested
      variable exists under its block, which hangs under Objects, even when several blocks publish
      the same variable. It holds the configured value exactly unless it was there at the start with
      another one and no delete of it ever arrived. */
  lemma Convergence(s: State, acts: seq<Action>, i: nat, pairs: set<Pair>)
    requires Initial(s, pairs) && Met(s, acts, {Connects, Creations})
    requires Quiescent(Run(s, acts))
    requires i < |s.blocks| && s.blocks[i].pending > 0
    ensures var sp := Run(s, acts).space; var p := s.blocks[i].pair;
            && VarId(p) in sp && FbId(p) in sp && Child(VarId(p)) in sp[FbId(p)].refs
            && OBJECTS in sp && Child(FbId(p)) in sp[OBJECTS].refs
            && (sp[VarId(p)] == FreshVar(p) <==> !(Stale(s.space, p) && p !in Run(s, acts).log.cleared))
  {
    var p := s.blocks[i].pair;
    RunKeepsSound(s, acts, pairs);
    RunEstablishes(s, acts, pairs);
    OneConfirmationPerRequest(s, acts, i);
    assert BlockEstablished(Run(s, acts), Run(s, acts).blocks[i]);
    MetFewer(s, acts, {Connects, Creations}, {Creations});
    NothingOrphaned(s, acts, p);
    StaleIff(s, acts, p);
    assert Linked(Run(s, acts).space, p);
  }

  // ---- Convergence to the configured value

  const ALL := {Connects, Creations, Deletions, Searches}

  /** Once its search is answered a block has no stale variable to leave behind. */
  ghost predicate Refreshed(s: State) {
    && (forall p :: p in s.log.done ==> !Stale(s.space, p))
    && forall i :: 0 <= i < |s.blocks| && (s.blocks[i].pc.AddingFb? || s.blocks[i].pc.AddingVar?) ==>
         !Stale(s.space, s.blocks[i].pair)
  }

  lemma MoverRefreshes(s: State, a: Action, pairs: set<Pair>)
    requires Sound(s, pairs) && Refreshed(s) && Enabled(s, a)
    requires forall d :: d in ALL ==> MeetsOne(CallOf(s.blocks[a.who]), a.fate, d)
    ensures var t := Step(s, a); var b := t.blocks[a.who];
            (b.pc.AddingFb? || b.pc.AddingVar? || b.pair in t.log.done) ==> !Stale(t.space, b.pair)
  {
    var b := s.blocks[a.who];
    assert MeetsOne(CallOf(b), a.fate, Deletions) && MeetsOne(CallOf(b), a.fate, Searches);
    ExecOnPair(s.space, b.pair, CallOf(b), a.fate, a.dangling, b.pair);
    SearchFindsFb(s.space, b.pair, a.dangling, pairs);
    SearchFindsVar(s.space, b.pair, a.dangling, pairs);
    assert Linked(s.space, b.pair);
  }

  lemma StepRefreshes(s: State, a: Action, pairs: set<Pair>)
    requires Sound(s, pairs) && Refreshed(s)
    requires Met(s, [a], ALL)
    ensures Refreshed(Step(s, a))
  {
    if Enabled(s, a) {
      var b, t := s.blocks[a.who], Step(s, a);
      MoverRefreshes(s, a, pairs);
      forall p | p in t.log.done ensures !Stale(t.space, p) {
        ExecOnPair(s.space, b.pair, CallOf(b), a.fate, a.dangling, p);
      }
      forall i | 0 <= i < |t.blocks| && (t.blocks[i].pc.AddingFb? || t.blocks[i].pc.AddingVar?)
        ensures !Stale(t.space, t.blocks[i].pair)
      {
        if i != a.who {
          assert t.blocks[i] == s.blocks[i];
          ExecOnPair(s.space, b.pair, CallOf(b), a.fate, a.dangling, s.blocks[i].pair);
        }
      }
    }
  }

  lemma {:induction false} RunRefreshes(s: State, acts: seq<Action>, pairs: set<Pair>)
    requires Sound(s, pairs) && Refreshed(s) && Met(s, acts, ALL)
    ensures Refreshed(Run(s, acts))
    decreases |acts|
  {
    if acts != [] {
      assert Met(Step(s, acts[0]), [acts[0]][1..], ALL);
      StepRefreshes(s, acts[0], pairs);
      StepKeepsSound(s, acts[0], pairs);
      RunRefreshes(Step(s, acts[0]), acts[1..], pairs);
    }
  }

  /** If moreover searches are answered and deletes reach the server, every requested variable ends
      with the configured value, whatever was there before. */
  lemma ConvergesFresh(s: State, acts: seq<Action>, i: nat, pairs: set<Pair>)
    requires Initial(s, pairs) && Met(s, acts, ALL)
    requires Quiescent(Run(s, acts))
    requires i < |s.blocks| && s.blocks[i].pending > 0
    ensures VarId(s.blocks[i].pair) in Run(s, acts).space
    ensures Run(s, acts).space[VarId(s.blocks[i].pair)] == FreshVar(s.blocks[i].pair)
  {
    MetFewer(s, acts, ALL, {Connects, Creations});
    Convergence(s, acts, i, pairs);
    RunKeepsSound(s, acts, pairs);
    RunEstablishes(s, acts, pairs);
    RunRefreshes(s, acts, pairs);
    OneConfirmationPerRequest(s, acts, i);
    assert BlockEstablished(Run(s, acts), Run(s, acts).blocks[i]);
  }

  // ---- Every interleaving ends in the sequential upsert

  ghost function Requested(s: State): set<Pair> {
    set i | 0 <= i < |s.blocks| && s.blocks[i].pending > 0 :: s.blocks[i].pair
  }

  /** The end of a run that published `ps`: everything else spared, every variable of `ps` fresh and
      linked under a linked block. */
  ghost predicate Settled(ps: set<Pair>, before: Space, after: Space) {
    && OBJECTS in before && OBJECTS in after
    && Spared(ps, before, after)
    && forall p :: p in ps ==> VarId(p) in after && after[VarId(p)] == FreshVar(p) && Linked(after, p)
  }

  lemma SettledKeys(ps: set<Pair>, before: Space, after: Space)
    requires Settled(ps, before, after)
    ensures after.Keys == before.Keys + Ids(ps)
  {
    forall n | n in after ensures n in before.Keys + Ids(ps) {
      if n !in before && !IsVar(ps, n) {
        assert IsBlock(ps, n);
      }
    }
    forall n | n in before.Keys + Ids(ps) ensures n in after {
      if IsVar(ps, n) {
        var p :| p in ps && VarId(p) == n;
        assert VarId(p) in after;
      } else if n !in before {
        var p :| p in ps && FbId(p) == n;
        assert Linked(after, p) && VarId(p) in after;
      }
    }
  }

  lemma GrownView(ps: set<Pair>, id: NodeId, before: Node, after: Node)
    requires Grown(ps, id, before, after)
    requires forall r :: r in Children(ps, id) ==> r in after.refs
    ensures ViewNode(after) == ViewNode(before).(refs := ViewNode(before).refs + Children(ps, id))
  {
    forall r | r in after.refs ensures r in before.refs || r in Children(ps, id) {
      var k :| 0 <= k < |after.refs| && after.refs[k] == r;
      if k < |before.refs| {
        assert after.refs[k] == before.refs[k];
      }
    }
    forall r | r in before.refs ensures r in after.refs {
      var k :| 0 <= k < |before.refs| && before.refs[k] == r;
      assert after.refs[k] == before.refs[k];
    }
    assert ViewNode(after).refs == ViewNode(before).refs + Children(ps, id);
  }

  lemma SettledCell(ps: set<Pair>, before: Space, after: Space, id: NodeId)
    requires Settled(ps, before, after) && id in after
    ensures ViewNode(after[id]) == Cell(Base(View(before), id), ps, id)
  {
    if IsVar(ps, id) {
      OwnerIs(ps, Owner(ps, id));
    } else {
      forall r | r in Children(ps, id) ensures r in after[id].refs {
        var p :| p in ps && ((FbId(p) == id && r == Child(VarId(p))) || (OBJECTS == id && r == Child(FbId(p))));
        assert Linked(after, p) && VarId(p) in after;
      }
      GrownView(ps, id, if id in before then before[id] else FreshFb(), after[id]);
    }
  }

  lemma SettledIsUpsert(ps: set<Pair>, before: Space, after: Space)
    requires Settled(ps, before, after)
    ensures View(after) == Upserted(View(before), ps)
  {
    SettledKeys(ps, before, after);
    ViewKeys(before);
    ViewKeys(after);
    UpsertedKeys(View(before), ps);
    forall id | id in View(after) ensures View(after)[id] == Upserted(View(before), ps)[id] {
      SettledCell(ps, before, after, id);
    }
    SameMap(View(after), Upserted(View(before), ps));
  }

  /** Linearisation: however the blocks were interleaved, once all requests are served the address
      space is the one-shot upsert of the requested pairs, up to order and multiplicity of
      references, as if the requests had been served one at a time in any order. */
  lemma RunIsUpsert(s: State, acts: seq<Action>, pairs: set<Pair>)
    requires Initial(s, pairs) && Met(s, acts, ALL) && Quiescent(Run(s, acts))
    ensures View(Run(s, acts).space) == Upserted(View(s.space), Requested(s))
  {
    var ps, sp := Requested(s), Run(s, acts).space;
    RunKeepsSound(s, acts, pairs);
    RunSpares(s, acts, ps);
    forall p | p in ps ensures VarId(p) in sp && sp[VarId(p)] == FreshVar(p) && Linked(sp, p) {
      var i :| 0 <= i < |s.blocks| && s.blocks[i].pending > 0 && s.blocks[i].pair == p;
      ConvergesFresh(s, acts, i, pairs);
    }
    SettledIsUpsert(ps, s.space, sp);
  }

  /** In particular it is what publishing the requested pairs one after the other gives. */
  lemma RunIsSequential(s: State, acts: seq<Action>, ps: seq<Pair>, dangling: bool, pairs: set<Pair>)
    requires Initial(s, pairs) && Met(s, acts, ALL) && Quiescent(Run(s, acts))
    requires PairsOf(ps) == Requested(s)
    ensures View(Run(s, acts).space) == View(PublishAll(s.space, ps, dangling))
  {
    RunIsUpsert(s, acts, pairs);
    PublishAllIsUpsert(s.space, ps, dangling, pairs);
  }

  // ---- A request on its own is a run

  function Alone(i: nat, net: nat -> Outcome, k: nat, n: nat, dangling: bool): seq<Action> {
    seq(n, j requires 0 <= j => Action(i, net(k + j), dangling))
  }

  lemma AloneRun(s: State, i: nat, net: nat -> Outcome, k: nat, m: nat, dangling: bool)
    ensures Run(s, Alone(i, net, k, m + 1, dangling))
            == Run(Step(s, Action(i, net(k), dangling)), Alone(i, net, k + 1, m, dangling))
  {
    var acts := Alone(i, net, k, m + 1, dangling);
    assert acts[0] == Action(i, net(k), dangling);
    assert acts[1..] == Alone(i, net, k + 1, m, dangling);
  }

  lemma SoloStep(s: State, a: Action, net: nat -> Outcome, k: nat)
    requires Enabled(s, a) && a.fate == net(k)
    ensures var b := s.blocks[a.who]; var t := Step(s, a); var pc' := t.blocks[a.who].pc;
            && Solo(s.space, b.pair, CallOf(b), net, k, a.dangling)
               == Solo(t.space, b.pair, pc', net, k + 1, a.dangling)
            && CallsLeft(pc') < CallsLeft(CallOf(b))
            && t.blocks == s.blocks[a.who := t.blocks[a.who]]
            && t.blocks[a.who].pair == b.pair
            && t.blocks[a.who].confirmed == b.confirmed + (if pc' == Finished then 1 else 0)
  {
    var b := s.blocks[a.who];
    assert CallOf(b) != Finished;
  }

  /** A block that is left alone for the calls of one request does what Solo says. */
  lemma {:induction false} SoloIsRun(s: State, i: nat, net: nat -> Outcome, k: nat, dangling: bool)
    returns (n: nat)
    requires i < |s.blocks| && (s.blocks[i].pc != Finished || s.blocks[i].pending > 0)
    ensures n <= CallsLeft(CallOf(s.blocks[i]))
    ensures var t := Run(s, Alone(i, net, k, n, dangling));
            && t.space == Solo(s.space, s.blocks[i].pair, CallOf(s.blocks[i]), net, k, dangling)
            && |t.blocks| == |s.blocks|
            && t.blocks[i].pc == Finished
            && t.blocks[i].confirmed == s.blocks[i].confirmed + 1
            && forall j :: 0 <= j < |s.blocks| && j != i ==> t.blocks[j] == s.blocks[j]
    decreases CallsLeft(CallOf(s.blocks[i]))
  {
    var b := s.blocks[i];
    var a := Action(i, net(k), dangling);
    var s' := Step(s, a);
    SoloStep(s, a, net, k);
    if s'.blocks[i].pc == Finished {
      n := 1;
      AloneRun(s, i, net, k, 0, dangling);
    } else {
      var m := SoloIsRun(s', i, net, k + 1, dangling);
      n := m + 1;
      AloneRun(s, i, net, k, m, dangling);
    }
  }
}
