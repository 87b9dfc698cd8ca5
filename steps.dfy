/** What each entry point and label of runtime/mercury_minimal_model.c does
    to the engine's whole state: MR_setup_subgoal, the suspend entry, the
    eight labels of the resume entry, and MR_table_nondet_commit. Each is a
    function from a World to the next one and where control goes. */
module Steps {
  import opened Outcomes
  import opened Stacks
  import opened Pruning
  import opened Snapshots
  import opened Tables

  // ---------------------------------------------------------------------
  // Subgoal setup

  /** A new subgoal at address `self` for the trie node t, as
      MR_setup_subgoal fills it in: inactive, no leader, itself as its only
      follower, no answers, no consumers, and the current frame as its
      generator frame and deepest common ancestor. */
  function NewSubgoal(t: Word, self: Word, curfr: Word): Subgoal {
    Subgoal(t, Inactive, None, Some(self), None, 0, 0, [], [], curfr, curfr, None)
  }

  /** MR_setup_subgoal: the trie node's subgoal, created first if the node
      has none yet. */
  function SetupSubgoal(w: World, t: Word): (Word, World) {
    if t in w.trie then (w.trie[t], w)
    else
      var a := w.nextAddr;
      (a, w.(subgoals := w.subgoals[a := NewSubgoal(t, a, w.live.state.curfr)],
             trie := w.trie[t := a], nextAddr := a + 1))
  }

  // ---------------------------------------------------------------------
  // Suspension

  /** The suspend entry: push a frame with one framevar whose redoip is
      MR_do_fail, then fall through to its Call label. */
  function Suspend(w: World): Step {
    if !HasRoom(w.live.state, NONDET_FIXED_SIZE + 1) then Step(Abort("nondet stack overflow"), w)
    else SuspendCall(w.(live := w.live.(state := AfterMkframe(w.live.state, 1, DO_FAIL))))
  }

  /** The suspend entry's Call label: a new consumer of the subgoal in r1,
      with the state saved against the subgoal's generator frame, is
      registered (AddConsumer); then fail. */
  function SuspendCall(w: World): Step {
    var s := w.r1;
    if s !in w.subgoals then Step(Abort("suspension of an unknown subgoal"), w)
    else
      var saved := Save(w.live, w.subgoals[s].generatorFr);
      if saved.None? then Step(Abort("save_state reads outside the stacks"), w)
      else
        var r := AddConsumer(w.live, Registry(w.subgoals, w.consumers), s, saved.value);
        if r.Refused? then Step(Abort(r.msg), w)
        else
          var w1 := w.(live := r.live, subgoals := r.reg.subgoals, consumers := r.reg.consumers);
          if !CanFail(r.live.state) then Step(Abort("MR_fail outside the nondet stack"), w1)
          else
            var t := AfterFail(r.live.state);
            Step(Goto(t.target), w1.(live := r.live.(state := t.state)))
  }

  /** The tables and stacks after a consumer is added, or why it could not
      be. */
  datatype Registered = Registered(live: Live<Word, nat>, reg: Registry) | Refused(msg: string)

  /** The pruning walk over the nondet copy of ss, the state saved for a
      new consumer of s: a suspension's walk, with nothing already pruned. */
  function ConsumerWalk(l: Live<Word, nat>, s: Word, ss: SavedState): Walk<Word> {
    Prune(Env(ss.nonRealStart, false, l.gens, l.cuts, Some(s)), ss.nonBlock, 0, ss.genNext)
  }

  /** The body of the suspend entry's Call label for the subgoal s and the
      state ss saved for its new consumer: the consumer is registered with
      the innermost pneg context, the subgoal's deepest common ancestor is
      lowered if need be, the saved copy is pruned (merging the generators
      found into s's component) and the consumer, with nothing returned yet,
      goes at the end of s's consumer list. The merges run after the walk
      rather than from inside its loop; since they change neither the copy
      being walked nor the generator and cut stacks, the outcome is the same,
      except that when both a merge and a later step of the walk fail the
      walk's fault is the one reported. The new consumer joins the consumers
      only after the merges, as it joins s's list only then in the source,
      so no merge can extend its saved state. */
  function AddConsumer(l: Live<Word, nat>, reg: Registry, s: Word, ss: SavedState): (r: Registered)
    requires s in reg.subgoals
  {
    var g := reg.subgoals[s];
    var c := |reg.consumers|;
    var live := RegisterSuspension(l, c);
    var nca := if ss.commonAncestorFr < g.deepestNcaFr then ss.commonAncestorFr else g.deepestNcaFr;
    var sg := reg.subgoals[s := g.(deepestNcaFr := nca)];
    var p := ConsumerWalk(live, s, ss);
    if p.fault.Fatal? then Refused(p.fault.msg)
    else
      var merged := MergeAll(live, Registry(sg, reg.consumers), p.merges, s);
      if merged.None? then Refused("make_subgoal_follow_leader failed")
      else
        var m := merged.value;
        Registered(live, Registry(m.subgoals[s := m.subgoals[s].(consumers := m.subgoals[s].consumers + [c])],
                                  m.consumers + [Consumer(s, PrunedSave(live, s, ss), 0, 0)]))
  }

  // ---------------------------------------------------------------------
  // Resumption

  /** Consumer c exists and its subgoal exists. */
  predicate Resolves(sg: map<Word, Subgoal>, cs: seq<Consumer>, c: nat) {
    c < |cs| && cs[c].subgoal in sg
  }

  /** Consumer c has answers it has not been given yet. */
  predicate Unreturned(sg: map<Word, Subgoal>, cs: seq<Consumer>, c: nat)
    requires Resolves(sg, cs, c)
  {
    cs[c].cursor < |sg[cs[c].subgoal].answers|
  }

  /** The resume info of the current leader, when the leader exists and has
      one. */
  function LeaderInfo(w: World): Option<ResumeInfo> {
    if w.curLeader in w.subgoals then w.subgoals[w.curLeader].resumeInfo else None
  }

  /** The current leader's resume info replaced. */
  function WithInfo(w: World, ri: ResumeInfo): World
    requires w.curLeader in w.subgoals
  {
    w.(subgoals := w.subgoals[w.curLeader := w.subgoals[w.curLeader].(resumeInfo := Some(ri))])
  }

  /** The resume entry: the subgoal of the top generator becomes the current
      leader. */
  function ResumeEntry(w: World): Step {
    Step(Jump(StartCompletionOp), w.(curLeader := TopGeneratorTable(w.live)))
  }

  /** StartCompletionOp: a leader that follows another pops its generator
      and redoes, leaving its answers to its own leader. Otherwise it keeps
      the resume info it has, or starts one with the state saved against its
      generator frame, its follower list to walk, and the current succip. */
  function StartCompletion(w: World): Step {
    var l := w.curLeader;
    if l !in w.subgoals then Step(Abort("no current leader"), w)
    else
      var g := w.subgoals[l];
      if g.leader.Some? then
        var popped := PopGenerator(w.live);
        if popped.None? then Step(Abort("generator stack underflow"), w)
        else if !CanRedo(popped.value.state) then Step(Abort("MR_redo outside the nondet stack"), w)
        else
          var t := AfterRedo(popped.value.state);
          Step(Goto(t.target), w.(live := popped.value.(state := t.state)))
      else if g.resumeInfo.Some? then Step(Jump(LoopOverSubgoals), w)
      else
        var saved := Save(w.live, g.generatorFr);
        if saved.None? then Step(Abort("save_state reads outside the stacks"), w)
        else
          Step(Jump(LoopOverSubgoals),
               WithInfo(w, ResumeInfo(saved.value, g.followers, None, None, None, w.live.state.succip)))
  }

  /** LoopOverSubgoals: take the next subgoal of the list as the current
      one, with its consumer list to walk; at the end of the list, go to the
      fixpoint check. */
  function LoopOverSubgoalsStep(w: World): Step {
    var ri := LeaderInfo(w);
    if ri.None? then Step(Abort("no resume info"), w)
    else if ri.value.subgoalList.None? then Step(Jump(FixPointCheck), w)
    else
      var x := ri.value.subgoalList.value;
      if x !in w.subgoals then Step(Abort("follower list cell of an unknown subgoal"), w)
      else
        var cons := w.subgoals[x].consumers;
        Step(Jump(LoopOverSuspensions),
             WithInfo(w, ri.value.(curSubgoal := Some(x), subgoalList := w.subgoals[x].followerNext,
                                   consumerList := if |cons| > 0 then Some(0) else None)))
  }

  /** LoopOverSuspensions: take the next consumer of the current subgoal as
      the current one. If it has answers it has not been given, restore its
      saved state, check that the restored top frame is the suspend frame
      with its one framevar, and make a redo into that frame come back to
      RedoPoint for this leader; then return an answer. At the end of the
      list, go on to the next subgoal. */
  function LoopOverSuspensionsStep(w: World): (r: Step)
    ensures r.world.(live := w.live) == w ||
            (w.curLeader in w.subgoals && LeaderInfo(r.world).Some? &&
             r.world.(live := w.live) == WithInfo(w, LeaderInfo(r.world).value))
  {
    var ri := LeaderInfo(w);
    if ri.None? then Step(Abort("no resume info"), w)
    else if ri.value.consumerList.None? then Step(Jump(LoopOverSubgoals), w)
    else
      var i := ri.value.consumerList.value;
      var cur := ri.value.curSubgoal;
      if cur.None? || cur.value !in w.subgoals || i >= |w.subgoals[cur.value].consumers| then
        Step(Abort("consumer list cell out of place"), w)
      else
        var cons := w.subgoals[cur.value].consumers;
        var c := cons[i];
        var w1 := WithInfo(w, ri.value.(curConsumer := Some(c),
                                         consumerList := if i + 1 < |cons| then Some(i + 1) else None));
        if !Resolves(w.subgoals, w.consumers, c) then Step(Abort("unknown consumer"), w1)
        else if !Unreturned(w.subgoals, w.consumers, c) then Step(Jump(LoopOverSuspensions), w1)
        else ResumeConsumer(w1, c)
  }

  /** The consumer c resumed: its saved state restored, the restored top
      frame checked to be the suspend frame with its one framevar, and that
      frame set up so that a redo into it comes back to RedoPoint for the
      current leader; then ReturnAnswer. Only the stacks change. */
  function ResumeConsumer(w: World, c: nat): (r: Step)
    requires c < |w.consumers|
    ensures r.world == w.(live := r.world.live)
  {
    if !Restorable(w.live, w.consumers[c].saved) then Step(Abort("restore_state writes outside the stacks"), w)
    else PrepareRedo(w.(live := Restore(w.live, w.consumers[c].saved)))
  }

  /** The restored top frame, checked to be the suspend frame with its one
      framevar, set up so that a redo into it comes back to RedoPoint for
      the current leader; then ReturnAnswer. Only the nondet stack
      changes. */
  function PrepareRedo(w: World): (r: Step)
    ensures r.world == w.(live := r.world.live)
  {
    var top := w.live.state.maxfr;
    var nondet := w.live.state.nondet;
    if !(0 <= top < |nondet|) then Step(Abort("restored maxfr outside the nondet stack"), w)
    else if top - PrevFr(nondet, top) != NONDET_FIXED_SIZE + 1 then
      Step(Abort("restored top frame does not have exactly one framevar"), w)
    else if top < NONDET_FIXED_SIZE then Step(Abort("restored top frame outside the nondet stack"), w)
    else
      var nd := nondet[top + REDOIP := REDO_POINT][top + REDOFR := top][FramevarIndex(top, 1) := w.curLeader];
      Step(Jump(ReturnAnswer), w.(live := w.live.(state := w.live.state.(nondet := nd))))
  }

  /** ReturnAnswer: give the current consumer its next answer in r1, and
      succeed out of its suspend call. */
  function ReturnAnswerStep(w: World): Step {
    var ri := LeaderInfo(w);
    if ri.None? || ri.value.curConsumer.None? then Step(Abort("no current consumer"), w)
    else
      var c := ri.value.curConsumer.value;
      if !Resolves(w.subgoals, w.consumers, c) || !Unreturned(w.subgoals, w.consumers, c) then
        Step(Abort("no answer to return"), w)
      else
        var con := w.consumers[c];
        var w1 := w.(r1 := w.subgoals[con.subgoal].answers[con.cursor],
                     consumers := w.consumers[c := con.(cursor := con.cursor + 1,
                                                        numReturnedAnswers := con.numReturnedAnswers + 1)]);
        if !CanSucceed(w.live.state) then Step(Abort("MR_succeed outside the nondet stack"), w1)
        else
          var t := AfterSucceed(w.live.state);
          Step(Goto(t.target), w1.(live := w.live.(state := t.state)))
  }

  /** RedoPoint: a consumer wants its next answer; the leader is found in
      the suspend frame's framevar. */
  function RedoPointStep(w: World): Step {
    var s := w.live.state;
    if !(0 <= FramevarIndex(s.maxfr, 1) && s.maxfr < |s.nondet|) then
      Step(Abort("framevar outside the nondet stack"), w)
    else Step(Jump(RestartPoint), w.(curLeader := s.nondet[FramevarIndex(s.maxfr, 1)]))
  }

  /** RestartPoint: return another answer if the current consumer has one,
      otherwise go on to the next consumer. */
  function RestartPointStep(w: World): Step {
    var ri := LeaderInfo(w);
    if ri.None? || ri.value.curConsumer.None? then Step(Abort("no current consumer"), w)
    else if !Resolves(w.subgoals, w.consumers, ri.value.curConsumer.value) then Step(Abort("unknown consumer"), w)
    else if Unreturned(w.subgoals, w.consumers, ri.value.curConsumer.value) then Step(Jump(ReturnAnswer), w)
    else Step(Jump(LoopOverSuspensions), w)
  }

  /** Every consumer of the subgoals xs exists with its subgoal. */
  predicate AllResolve(sg: map<Word, Subgoal>, cs: seq<Consumer>, xs: seq<Word>) {
    forall i, k :: 0 <= i < |xs| && xs[i] in sg && 0 <= k < |sg[xs[i]].consumers| ==>
      Resolves(sg, cs, sg[xs[i]].consumers[k])
  }

  /** Some consumer of the subgoals xs has answers it has not been given. */
  predicate AnyUnreturned(sg: map<Word, Subgoal>, cs: seq<Consumer>, xs: seq<Word>)
    requires forall i :: 0 <= i < |xs| ==> xs[i] in sg
    requires AllResolve(sg, cs, xs)
  {
    exists i, k :: 0 <= i < |xs| && 0 <= k < |sg[xs[i]].consumers| &&
      Unreturned(sg, cs, sg[xs[i]].consumers[k])
  }

  /** FixPointCheck: if any consumer of any subgoal of the leader's
      component has answers it has not been given, walk the component again;
      otherwise the fixpoint is reached. */
  function FixPointCheckStep(w: World): (r: Step)
    ensures r.world == w ||
            (w.curLeader in w.subgoals && LeaderInfo(r.world).Some? && r.world == WithInfo(w, LeaderInfo(r.world).value))
  {
    var l := w.curLeader;
    if l !in w.subgoals then Step(Abort("no current leader"), w)
    else
      var chain := FollowerChain(w.subgoals, w.subgoals[l].followers, |w.subgoals|);
      if chain.None? then Step(Abort("follower list does not end"), w)
      else if !AllResolve(w.subgoals, w.consumers, chain.value) then Step(Abort("unknown consumer"), w)
      else if AnyUnreturned(w.subgoals, w.consumers, chain.value) then
        var ri := w.subgoals[l].resumeInfo;
        if ri.None? then Step(Abort("no resume info"), w)
        else Step(Jump(StartCompletionOp), WithInfo(w, ri.value.(subgoalList := w.subgoals[l].followers)))
      else Step(Jump(ReachedFixpoint), w)
  }

  /** The subgoals xs marked complete. */
  function MarkComplete(sg: map<Word, Subgoal>, xs: seq<Word>): (r: map<Word, Subgoal>)
    ensures r.Keys == sg.Keys && SameAnswersAndConsumers(sg, r)
  {
    map a | a in sg :: if a in xs then sg[a].(status := Complete) else sg[a]
  }

  /** ReachedFixpoint: every subgoal of the component is complete; the state
      saved when the leader started completing is restored, with the saved
      succip; the leader drops its resume info, its generator is popped, and
      control returns to the saved succip. */
  function ReachedFixpointStep(w: World): Step {
    var l := w.curLeader;
    if l !in w.subgoals then Step(Abort("no current leader"), w)
    else
      var chain := FollowerChain(w.subgoals, w.subgoals[l].followers, |w.subgoals|);
      if chain.None? then Step(Abort("follower list does not end"), w)
      else
        var sg := MarkComplete(w.subgoals, chain.value);
        var ri := sg[l].resumeInfo;
        if ri.None? then Step(Abort("no resume info"), w)
        else LeaveCompletion(w.(subgoals := sg), ri.value)
  }

  /** The end of ReachedFixpoint for the current leader, whose resume info
      is ri: the state saved when it started completing is restored with the
      saved succip, the leader drops its resume info, its generator is
      popped, and control returns to the saved succip. */
  function LeaveCompletion(w: World, ri: ResumeInfo): (r: Step)
    requires w.curLeader in w.subgoals
    ensures r.world.trie == w.trie && r.world.nextAddr == w.nextAddr && r.world.consumers == w.consumers
    ensures SameAnswersAndConsumers(w.subgoals, r.world.subgoals)
  {
    if !Restorable(w.live, ri.leaderState) then Step(Abort("restore_state writes outside the stacks"), w)
    else
      var live := Restore(w.live, ri.leaderState);
      var popped := PopGenerator(live);
      if popped.None? then Step(Abort("generator stack underflow"), w)
      else
        var l := w.curLeader;
        Step(Goto(ri.savedSuccip),
             w.(live := popped.value.(state := live.state.(succip := ri.savedSuccip)),
                subgoals := w.subgoals[l := w.subgoals[l].(resumeInfo := None)]))
  }

  /** One label of the resume entry. */
  function Resume(w: World, at: Label): Step {
    match at
    case StartCompletionOp => StartCompletion(w)
    case LoopOverSubgoals => LoopOverSubgoalsStep(w)
    case LoopOverSuspensions => LoopOverSuspensionsStep(w)
    case ReturnAnswer => ReturnAnswerStep(w)
    case RedoPoint => RedoPointStep(w)
    case RestartPoint => RestartPointStep(w)
    case FixPointCheck => FixPointCheckStep(w)
    case ReachedFixpoint => ReachedFixpointStep(w)
  }

  /** MR_table_nondet_commit: commit the top cut and fail. */
  function TableNondetCommit(w: World): Step {
    var l := CommitCut(w.live);
    if l.None? then Step(Abort("cut stack underflow"), w)
    else if !CanFail(l.value.state) then Step(Abort("MR_fail outside the nondet stack"), w)
    else
      var t := AfterFail(l.value.state);
      Step(Goto(t.target), w.(live := l.value.(state := t.state)))
  }

  // ---------------------------------------------------------------------
  // Answers

  /** A new answer a for the subgoal s, as the code that tables answers
      (outside this model) adds it between steps: appended to s's answer
      list and counted. */
  function AddAnswer(w: World, s: Word, a: Word): World
    requires s in w.subgoals
  {
    var g := w.subgoals[s];
    w.(subgoals := w.subgoals[s := g.(answers := g.answers + [a], numAns := g.numAns + 1)])
  }

  // ---------------------------------------------------------------------
  // Properties

  /** The subgoal tables agree on which subgoals exist and on every
      subgoal's answers and consumers. */
  predicate SameAnswersAndConsumers(sg: map<Word, Subgoal>, sg2: map<Word, Subgoal>) {
    sg2.Keys == sg.Keys &&
    forall a :: a in sg ==> sg2[a].answers == sg[a].answers && sg2[a].consumers == sg[a].consumers
  }

  /** Changes to anything but the trie, the subgoals' answers and consumers,
      and the consumers' subgoals and cursors keep the tables well formed. */
  lemma WellFormedAcross(w: World, w2: World)
    requires WellFormed(w)
    requires w2.trie == w.trie && w2.nextAddr == w.nextAddr
    requires SameAnswersAndConsumers(w.subgoals, w2.subgoals)
    requires |w2.consumers| == |w.consumers|
    requires forall c :: 0 <= c < |w.consumers| ==>
      w2.consumers[c].subgoal == w.consumers[c].subgoal && w2.consumers[c].cursor == w.consumers[c].cursor
    ensures WellFormed(w2)
  {
    forall c | 0 <= c < |w2.consumers|
      ensures w2.consumers[c].cursor <= |w2.subgoals[w2.consumers[c].subgoal].answers|
    {
      assert w.consumers[c].subgoal in w.subgoals;
    }
  }

  /** Setting up a subgoal twice for the same trie node gives the same
      subgoal and changes nothing the second time. */
  lemma SetupSubgoalIdempotent(w: World, t: Word)
    ensures var (a, w1) := SetupSubgoal(w, t); SetupSubgoal(w1, t) == (a, w1)
  {
  }

  /** MR_setup_subgoal returns a subgoal recorded for the trie node; a node
      that had one keeps it and nothing changes; a node that had none gets a
      subgoal at an address no subgoal had, filled in as NewSubgoal says,
      with every other subgoal untouched; the tables stay well formed. */
  lemma SetupSubgoalEffect(w: World, t: Word)
    requires WellFormed(w)
    ensures var (a, w1) := SetupSubgoal(w, t);
      WellFormed(w1) && t in w1.trie && w1.trie[t] == a && a in w1.subgoals &&
      (t in w.trie ==> a == w.trie[t] && w1 == w) &&
      (t !in w.trie ==>
         a !in w.subgoals && w1.subgoals == w.subgoals[a := NewSubgoal(t, a, w.live.state.curfr)] &&
         w1.subgoals[a].followers == Some(a) && w1.subgoals[a].status == Inactive &&
         w1.subgoals[a].answers == [] && w1.subgoals[a].consumers == [] &&
         w1.consumers == w.consumers && w1.live == w.live)
  {
    var (a, w1) := SetupSubgoal(w, t);
    if t !in w.trie {
      forall c | 0 <= c < |w1.consumers|
        ensures w1.consumers[c].cursor <= |w1.subgoals[w1.consumers[c].subgoal].answers|
      {
        assert w.consumers[c].subgoal in w.subgoals;
      }
    }
  }

  /** What adding a consumer does: one consumer more, of s, with nothing
      returned yet, at the end of s's consumer list; s's deepest common
      ancestor may only have been lowered; every older consumer has at most
      its saved state changed (by being extended), and every subgoal at most
      its links (by being merged into s's component). */
  lemma AddConsumerEffect(l: Live<Word, nat>, reg: Registry, s: Word, ss: SavedState)
    requires s in reg.subgoals
    requires AddConsumer(l, reg, s, ss).Registered?
    ensures var r := AddConsumer(l, reg, s, ss).reg; var c := |reg.consumers|;
      r.subgoals.Keys == reg.subgoals.Keys && |r.consumers| == c + 1 &&
      r.consumers[c].subgoal == s && r.consumers[c].cursor == 0 && r.consumers[c].numReturnedAnswers == 0 &&
      r.subgoals[s].consumers == reg.subgoals[s].consumers + [c] &&
      r.subgoals[s].deepestNcaFr <= reg.subgoals[s].deepestNcaFr &&
      (forall a :: a in reg.subgoals && a != s ==> SameButLinks(reg.subgoals[a], r.subgoals[a])) &&
      SameButLinks(reg.subgoals[s].(consumers := r.subgoals[s].consumers, deepestNcaFr := r.subgoals[s].deepestNcaFr),
                   r.subgoals[s]) &&
      (forall k :: 0 <= k < c ==> r.consumers[k] == reg.consumers[k].(saved := r.consumers[k].saved))
  {
    var g := reg.subgoals[s];
    var c := |reg.consumers|;
    var live := RegisterSuspension(l, c);
    var nca := if ss.commonAncestorFr < g.deepestNcaFr then ss.commonAncestorFr else g.deepestNcaFr;
    var sg := reg.subgoals[s := g.(deepestNcaFr := nca)];
    var p := Prune(Env(ss.nonRealStart, false, live.gens, live.cuts, Some(s)), ss.nonBlock, 0, ss.genNext);
    MergeAllKeepsFields(live, Registry(sg, reg.consumers), p.merges, s);
  }

  /** The state saved for a new consumer of s, with its nondet copy pruned
      by ConsumerWalk. */
  function PrunedSave(l: Live<Word, nat>, s: Word, ss: SavedState): SavedState {
    var p := ConsumerWalk(l, s, ss);
    ss.(nonBlock := p.block, genNext := p.genNext)
  }

  /** A state saved at a suspension and then pruned can be restored into
      the stacks it was saved from, and restoring it there gives back that
      machine but for the redoip slots the walk rewrote and the generator
      entries above the suspended subgoal's own generator. */
  lemma PrunedSaveRestores(l: Live<Word, nat>, s: Word, genFr: Word)
    requires Save(l, genFr).Some? && ConsumerWalk(l, s, Save(l, genFr).value).fault.Ok?
    ensures var ss := Save(l, genFr).value; var p := ConsumerWalk(l, s, ss);
      Restorable(l, PrunedSave(l, s, ss)) && 0 <= p.genNext <= |l.gens| &&
      (var back := Restore(l, PrunedSave(l, s, ss));
       back.state == l.state.(nondet := back.state.nondet) && back.gens == l.gens[..p.genNext] &&
       back.cuts == l.cuts && back.pnegs == l.pnegs &&
       forall i :: 0 <= i < |l.state.nondet| && back.state.nondet[i] != l.state.nondet[i] ==>
         exists j :: 0 <= j < |p.visits| && Written(p.visits[j].action).Some? &&
                     i == ss.nonRealStart + p.visits[j].fr + REDOIP)
  {
    var ss := Save(l, genFr).value;
    var env := Env(ss.nonRealStart, false, l.gens, l.cuts, Some(s));
    var p := ConsumerWalk(l, s, ss);
    var pruned := PrunedSave(l, s, ss);
    RestoreAfterSave(l, genFr);
    PruneRewritesOnlyRedoips(env, ss.nonBlock, 0, ss.genNext);
    PruneRespectsMode(env, ss.nonBlock, 0, ss.genNext);
    assert Restorable(l, pruned);
    var back := Restore(l, pruned);
    forall i | 0 <= i < |l.state.nondet| && back.state.nondet[i] != l.state.nondet[i]
      ensures exists j :: 0 <= j < |p.visits| && Written(p.visits[j].action).Some? &&
                          i == ss.nonRealStart + p.visits[j].fr + REDOIP
    {
      var k := i - ss.nonRealStart;
      assert Restore(l, ss).state.nondet[i] == l.state.nondet[i];
      assert !NotWritten(p.visits, k);
    }
    assert back.state == l.state.(nondet := back.state.nondet) by {
      assert back.state.det == Restore(l, ss).state.det;
    }
  }

  /** The saved state a new consumer gets is exactly PrunedSave of the one
      given, since the merges of the same call run before it is added; every
      older consumer's saved state is as it was or extended once against the
      generator frame of s. */
  lemma AddConsumerSaves(l: Live<Word, nat>, reg: Registry, s: Word, ss: SavedState)
    requires s in reg.subgoals
    requires AddConsumer(l, reg, s, ss).Registered?
    ensures var r := AddConsumer(l, reg, s, ss).reg; var c := |reg.consumers|; var f := reg.subgoals[s].generatorFr;
      ConsumerWalk(l, s, ss).fault.Ok? &&
      |r.consumers| == c + 1 && r.consumers[c].saved == PrunedSave(l, s, ss) &&
      forall k :: 0 <= k < c ==> ExtendedOnce(l, f, reg.consumers[k].saved, r.consumers[k].saved)
  {
    var c := |reg.consumers|;
    var live := RegisterSuspension(l, c);
    var p := ConsumerWalk(l, s, ss);
    assert ConsumerWalk(live, s, ss) == p;
    var g := reg.subgoals[s];
    var nca := if ss.commonAncestorFr < g.deepestNcaFr then ss.commonAncestorFr else g.deepestNcaFr;
    var sg := reg.subgoals[s := g.(deepestNcaFr := nca)];
    var f := g.generatorFr;
    MergeAllExtendsOnce(live, Registry(sg, reg.consumers), p.merges, s);
    var r := AddConsumer(l, reg, s, ss).reg;
    var m := MergeAll(live, Registry(sg, reg.consumers), p.merges, s).value;
    assert r.consumers == m.consumers + [Consumer(s, PrunedSave(l, s, ss), 0, 0)];
    forall k | 0 <= k < c ensures ExtendedOnce(l, f, reg.consumers[k].saved, r.consumers[k].saved) {
      ExtendConsumerStateIgnoresPnegs(l, live, reg.consumers[k].saved, f);
    }
  }

  /** A suspension that fails normally has added one consumer, of the
      subgoal in r1, as AddConsumerEffect describes, and left the trie
      alone. */
  lemma SuspendEffect(w: World)
    requires !Suspend(w).next.Abort?
    ensures var w1 := Suspend(w).world; var s := w.r1; var c := |w.consumers|;
      s in w.subgoals && s in w1.subgoals && w1.subgoals.Keys == w.subgoals.Keys &&
      w1.trie == w.trie && w1.nextAddr == w.nextAddr &&
      |w1.consumers| == c + 1 &&
      w1.consumers[c].subgoal == s && w1.consumers[c].cursor == 0 && w1.consumers[c].numReturnedAnswers == 0 &&
      w1.subgoals[s].consumers == w.subgoals[s].consumers + [c] &&
      w1.subgoals[s].deepestNcaFr <= w.subgoals[s].deepestNcaFr &&
      (forall a :: a in w.subgoals && a != s ==> SameButLinks(w.subgoals[a], w1.subgoals[a])) &&
      SameButLinks(w.subgoals[s].(consumers := w1.subgoals[s].consumers, deepestNcaFr := w1.subgoals[s].deepestNcaFr),
                   w1.subgoals[s]) &&
      (forall k :: 0 <= k < c ==> w1.consumers[k] == w.consumers[k].(saved := w1.consumers[k].saved))
  {
    var w0 := w.(live := w.live.(state := AfterMkframe(w.live.state, 1, DO_FAIL)));
    var ss := Save(w0.live, w0.subgoals[w.r1].generatorFr).value;
    AddConsumerEffect(w0.live, Registry(w0.subgoals, w0.consumers), w.r1, ss);
  }

  /** A suspension that does not abort then fails: MR_fail pops the frame
      the suspend entry pushed, so control goes to the redoip of the frame
      that was on top when suspend was called, in that frame's redofr, as
      backtracking out of the call would. */
  lemma SuspendBacktracks(w: World)
    requires !Suspend(w).next.Abort?
    ensures var v := w.live.state; var w1 := Suspend(w).world;
      HasRoom(v, NONDET_FIXED_SIZE + 1) && CanRedo(v) && CanFail(AfterMkframe(v, 1, DO_FAIL)) &&
      Suspend(w).next == Goto(AfterFail(AfterMkframe(v, 1, DO_FAIL)).target) &&
      w1.live.state == AfterFail(AfterMkframe(v, 1, DO_FAIL)).state &&
      Suspend(w).next == Goto(RedoIp(v.nondet, v.maxfr)) &&
      w1.live.state.maxfr == v.maxfr && w1.live.state.curfr == RedoFr(v.nondet, v.maxfr)
  {
    var v := w.live.state;
    var pushed := AfterMkframe(v, 1, DO_FAIL);
    var w0 := w.(live := w.live.(state := pushed));
    var ss := Save(w0.live, w0.subgoals[w.r1].generatorFr).value;
    var c := |w0.consumers|;
    var r := AddConsumer(w0.live, Registry(w0.subgoals, w0.consumers), w.r1, ss);
    assert r.live == RegisterSuspension(w0.live, c);
    assert r.live.state == pushed;
    assert CanRedo(v);
    FailUndoesMkframe(v, 1, DO_FAIL);
  }

  /** The consumer a suspension adds gets the state saved on the stacks with
      the suspend frame pushed, pruned (and so restorable there, as
      PrunedSaveRestores describes) and nothing more; every
      older consumer's saved state is as it was or extended once against the
      suspended subgoal's generator frame. */
  lemma SuspendSaves(w: World)
    requires !Suspend(w).next.Abort?
    ensures var v := w.live.state; var s := w.r1;
      HasRoom(v, NONDET_FIXED_SIZE + 1) && s in w.subgoals &&
      (var l := w.live.(state := AfterMkframe(v, 1, DO_FAIL)); var f := w.subgoals[s].generatorFr;
       Save(l, f).Some? && ConsumerWalk(l, s, Save(l, f).value).fault.Ok? &&
       (var w1 := Suspend(w).world; var c := |w.consumers|;
        |w1.consumers| == c + 1 &&
        w1.consumers[c].saved == PrunedSave(l, s, Save(l, f).value) &&
        forall k :: 0 <= k < c ==> ExtendedOnce(l, f, w.consumers[k].saved, w1.consumers[k].saved)))
  {
    var w0 := w.(live := w.live.(state := AfterMkframe(w.live.state, 1, DO_FAIL)));
    var ss := Save(w0.live, w0.subgoals[w.r1].generatorFr).value;
    AddConsumerSaves(w0.live, Registry(w0.subgoals, w0.consumers), w.r1, ss);
  }

  /** Suspension keeps the tables well formed. */
  lemma SuspendKeepsWellFormed(w: World)
    requires WellFormed(w)
    requires !Suspend(w).next.Abort?
    ensures WellFormed(Suspend(w).world)
  {
    SuspendEffect(w);
    AddingConsumerKeepsWellFormed(w, Suspend(w).world, w.r1);
  }

  /** A world that differs from a well formed one as a suspension leaves it
      is well formed. */
  lemma AddingConsumerKeepsWellFormed(w: World, w1: World, s: Word)
    requires WellFormed(w)
    requires s in w.subgoals && w1.subgoals.Keys == w.subgoals.Keys
    requires w1.trie == w.trie && w1.nextAddr == w.nextAddr
    requires |w1.consumers| == |w.consumers| + 1
    requires w1.consumers[|w.consumers|].subgoal == s && w1.consumers[|w.consumers|].cursor == 0
    requires w1.subgoals[s].consumers == w.subgoals[s].consumers + [|w.consumers|]
    requires forall a :: a in w.subgoals && a != s ==> SameButLinks(w.subgoals[a], w1.subgoals[a])
    requires w1.subgoals[s].answers == w.subgoals[s].answers
    requires forall k :: 0 <= k < |w.consumers| ==> w1.consumers[k] == w.consumers[k].(saved := w1.consumers[k].saved)
    ensures WellFormed(w1)
  {
    var c := |w.consumers|;
    forall k | 0 <= k < |w1.consumers|
      ensures w1.consumers[k].subgoal in w1.subgoals &&
              w1.consumers[k].cursor <= |w1.subgoals[w1.consumers[k].subgoal].answers|
    {
      if k < c {
        assert w.consumers[k].subgoal in w.subgoals;
      }
    }
    forall a, k | a in w1.subgoals && 0 <= k < |w1.subgoals[a].consumers|
      ensures w1.subgoals[a].consumers[k] < |w1.consumers|
    {
      if a != s || k < |w.subgoals[s].consumers| {
        assert w1.subgoals[a].consumers[k] == w.subgoals[a].consumers[k];
      }
    }
  }

  /** Replacing the leader's resume info changes no answers, consumers or
      links. */
  lemma WithInfoKeepsTables(w: World, ri: ResumeInfo)
    requires w.curLeader in w.subgoals
    ensures SameAnswersAndConsumers(w.subgoals, WithInfo(w, ri).subgoals)
    ensures forall a :: a in w.subgoals ==> WithInfo(w, ri).subgoals[a].followerNext == w.subgoals[a].followerNext
    ensures LeaderInfo(WithInfo(w, ri)) == Some(ri)
  {
  }

  /** A follower that is asked to complete pops its generator and redoes,
      changing no table. A leader keeps a resume info it has, or gets one
      that walks its follower list from the start, with no current subgoal
      or consumer, the current succip, and a saved state that restores the
      stacks exactly as they are now. */
  lemma StartCompletionEffect(w: World)
    requires !StartCompletion(w).next.Abort?
    ensures var l := w.curLeader; var w1 := StartCompletion(w).world; var next := StartCompletion(w).next;
      l in w.subgoals && w1.consumers == w.consumers && w1.trie == w.trie &&
      (w.subgoals[l].leader.Some? ==>
         w1.subgoals == w.subgoals && |w.live.gens| > 0 &&
         w1.live.gens == w.live.gens[..|w.live.gens| - 1] && w1.live.cuts == w.live.cuts &&
         next == Goto(RedoIp(w.live.state.nondet, w.live.state.maxfr))) &&
      (w.subgoals[l].leader.None? ==>
         next == Jump(LoopOverSubgoals) && LeaderInfo(w1).Some? &&
         (w.subgoals[l].resumeInfo.Some? ==> w1 == w) &&
         (w.subgoals[l].resumeInfo.None? ==>
            var ri := LeaderInfo(w1).value;
            w1.live == w.live &&
            ri.subgoalList == w.subgoals[l].followers && ri.curSubgoal.None? && ri.consumerList.None? &&
            ri.curConsumer.None? && ri.savedSuccip == w.live.state.succip &&
            Restorable(w.live, ri.leaderState) && Restore(w.live, ri.leaderState) == w.live))
  {
    var l := w.curLeader;
    if w.subgoals[l].leader.None? && w.subgoals[l].resumeInfo.None? {
      RestoreAfterSave(w.live, w.subgoals[l].generatorFr);
    }
  }

  /** LoopOverSubgoals walks the follower list of the resume info: at its
      end it goes to the fixpoint check; otherwise the first subgoal on it
      becomes the current one, the rest of the list is left to walk, and the
      current subgoal's consumers are walked from the first. */
  lemma LoopOverSubgoalsWalks(w: World, fuel: nat, xs: seq<Word>)
    requires LeaderInfo(w).Some?
    requires FollowerChain(w.subgoals, LeaderInfo(w).value.subgoalList, fuel) == Some(xs)
    ensures xs == [] ==> LoopOverSubgoalsStep(w) == Step(Jump(FixPointCheck), w)
    ensures xs != [] ==>
      var r := LoopOverSubgoalsStep(w); var ri := LeaderInfo(r.world);
      r.next == Jump(LoopOverSuspensions) && ri.Some? && ri.value.curSubgoal == Some(xs[0]) &&
      fuel > 0 && FollowerChain(r.world.subgoals, ri.value.subgoalList, fuel - 1) == Some(xs[1..]) &&
      (ri.value.consumerList.Some? <==> |w.subgoals[xs[0]].consumers| > 0) &&
      (ri.value.consumerList.Some? ==> ri.value.consumerList.value == 0) &&
      SameAnswersAndConsumers(w.subgoals, r.world.subgoals) && r.world.consumers == w.consumers &&
      r.world.live == w.live
  {
    if xs != [] {
      var ri := LeaderInfo(w).value;
      var x := xs[0];
      var cons := w.subgoals[x].consumers;
      var ri1 := ri.(curSubgoal := Some(x), subgoalList := w.subgoals[x].followerNext,
                     consumerList := if |cons| > 0 then Some(0) else None);
      WithInfoKeepsTables(w, ri1);
      FollowerChainSameLinks(w.subgoals, WithInfo(w, ri1).subgoals, w.subgoals[x].followerNext, fuel - 1);
    }
  }

  /** LoopOverSuspensions makes the next consumer of the current subgoal
      current, and returns an answer to it exactly when it has answers it has
      not been given; otherwise the walk goes on to the next consumer. At the
      end of the list it goes on, with nothing changed, to the next subgoal. */
  lemma LoopOverSuspensionsDecides(w: World)
    requires !LoopOverSuspensionsStep(w).next.Abort?
    ensures var r := LoopOverSuspensionsStep(w); var w1 := r.world;
      w1.curLeader == w.curLeader &&
      (r.next == Jump(ReturnAnswer) || r.next == Jump(LoopOverSuspensions) || r.next == Jump(LoopOverSubgoals)) &&
      (r.next == Jump(LoopOverSubgoals) ==> w1 == w) &&
      (r.next != Jump(LoopOverSubgoals) ==>
         LeaderInfo(w).Some? && LeaderInfo(w).value.consumerList.Some? &&
         LeaderInfo(w).value.curSubgoal.Some? && LeaderInfo(w).value.curSubgoal.value in w.subgoals &&
         var i := LeaderInfo(w).value.consumerList.value;
         var cons := w.subgoals[LeaderInfo(w).value.curSubgoal.value].consumers;
         i < |cons| && LeaderInfo(w1).Some? && LeaderInfo(w1).value.curConsumer == Some(cons[i]) &&
         Resolves(w.subgoals, w.consumers, cons[i]) &&
         (r.next == Jump(ReturnAnswer) <==> Unreturned(w.subgoals, w.consumers, cons[i])))
  {
  }

  /** When LoopOverSuspensions returns an answer, the current consumer's
      saved state has been restored, with the restored top frame rewritten so
      that a redo into it resumes at RedoPoint in that same frame, and
      RedoPoint then finds the current leader again. */
  lemma LoopOverSuspensionsPreparesRedo(w: World)
    requires LoopOverSuspensionsStep(w).next == Jump(ReturnAnswer)
    ensures var w1 := LoopOverSuspensionsStep(w).world; var s := w1.live.state;
      LeaderInfo(w1).Some? && LeaderInfo(w1).value.curConsumer.Some? &&
      var c := LeaderInfo(w1).value.curConsumer.value;
      c < |w.consumers| && Restorable(w.live, w.consumers[c].saved) &&
      w1.live.gens == Restore(w.live, w.consumers[c].saved).gens &&
      s.maxfr == Restore(w.live, w.consumers[c].saved).state.maxfr &&
      CanRedo(s) && AfterRedo(s).target == REDO_POINT && AfterRedo(s).state.curfr == s.maxfr &&
      RedoPointStep(w1.(live := w1.live.(state := AfterRedo(s).state))) ==
        Step(Jump(RestartPoint), w1.(live := w1.live.(state := AfterRedo(s).state)))
  {
  }

  /** ReturnAnswer gives the current consumer the answer at its cursor in
      r1 and moves the cursor past it, counting it; nothing else in the
      tables changes, and control returns out of the consumer's suspend call
      to its caller. */
  lemma ReturnAnswerDelivers(w: World)
    requires !ReturnAnswerStep(w).next.Abort?
    ensures LeaderInfo(w).Some? && LeaderInfo(w).value.curConsumer.Some?
    ensures var c := LeaderInfo(w).value.curConsumer.value; var w1 := ReturnAnswerStep(w).world;
      Resolves(w.subgoals, w.consumers, c) && Unreturned(w.subgoals, w.consumers, c) &&
      var con := w.consumers[c];
      w1.r1 == w.subgoals[con.subgoal].answers[con.cursor] &&
      |w1.consumers| == |w.consumers| &&
      w1.consumers[c] == con.(cursor := con.cursor + 1, numReturnedAnswers := con.numReturnedAnswers + 1) &&
      (forall k :: 0 <= k < |w.consumers| && k != c ==> w1.consumers[k] == w.consumers[k]) &&
      w1.subgoals == w.subgoals && w1.curLeader == w.curLeader &&
      ReturnAnswerStep(w).next == Goto(SuccIp(w.live.state.nondet, w.live.state.curfr)) &&
      w1.live == w.live.(state := w.live.state.(curfr := SuccFr(w.live.state.nondet, w.live.state.curfr)))
  {
  }

  /** RestartPoint changes nothing, and returns another answer exactly when
      the current consumer has one; otherwise it goes on to the next
      consumer. */
  lemma RestartPointDecides(w: World)
    requires !RestartPointStep(w).next.Abort?
    ensures var r := RestartPointStep(w);
      r.world == w && LeaderInfo(w).Some? && LeaderInfo(w).value.curConsumer.Some? &&
      var c := LeaderInfo(w).value.curConsumer.value;
      Resolves(w.subgoals, w.consumers, c) &&
      (r.next == Jump(ReturnAnswer) <==> Unreturned(w.subgoals, w.consumers, c)) &&
      (r.next != Jump(ReturnAnswer) ==> r.next == Jump(LoopOverSuspensions))
  {
  }

  /** Whenever RestartPoint chooses ReturnAnswer, ReturnAnswer has an answer
      to give, and the only way it can then stop is a current frame outside
      the nondet stack. */
  lemma RestartThenReturn(w: World)
    requires RestartPointStep(w).next == Jump(ReturnAnswer)
    requires CanSucceed(w.live.state)
    ensures ReturnAnswerStep(RestartPointStep(w).world).next.Goto?
  {
  }

  /** FixPointCheck walks the leader's component again exactly when a
      consumer of one of its subgoals has answers it has not been given,
      restarting the walk of the follower list; otherwise it goes on, with
      nothing changed, to complete the component. */
  lemma FixPointCheckDecides(w: World)
    requires !FixPointCheckStep(w).next.Abort?
    ensures var l := w.curLeader; var r := FixPointCheckStep(w);
      l in w.subgoals && FollowerChain(w.subgoals, w.subgoals[l].followers, |w.subgoals|).Some? &&
      var chain := FollowerChain(w.subgoals, w.subgoals[l].followers, |w.subgoals|).value;
      AllResolve(w.subgoals, w.consumers, chain) &&
      (r.next == Jump(StartCompletionOp) <==> AnyUnreturned(w.subgoals, w.consumers, chain)) &&
      (r.next == Jump(StartCompletionOp) ==>
         LeaderInfo(w).Some? && LeaderInfo(r.world) == Some(LeaderInfo(w).value.(subgoalList := w.subgoals[l].followers)) &&
         SameAnswersAndConsumers(w.subgoals, r.world.subgoals) && r.world.consumers == w.consumers) &&
      (r.next != Jump(StartCompletionOp) ==> r == Step(Jump(ReachedFixpoint), w))
  {
    var l := w.curLeader;
    var chain := FollowerChain(w.subgoals, w.subgoals[l].followers, |w.subgoals|).value;
    if AnyUnreturned(w.subgoals, w.consumers, chain) {
      WithInfoKeepsTables(w, w.subgoals[l].resumeInfo.value.(subgoalList := w.subgoals[l].followers));
    }
  }

  /** ReachedFixpoint marks every subgoal of the leader's component complete
      and no other; the leader drops its resume info; the stacks are those
      saved when the leader started completing, less the leader's generator,
      with the saved succip; and control goes to that succip. */
  lemma ReachedFixpointCompletes(w: World)
    requires !ReachedFixpointStep(w).next.Abort?
    ensures var l := w.curLeader; var r := ReachedFixpointStep(w); var w1 := r.world;
      l in w.subgoals && FollowerChain(w.subgoals, w.subgoals[l].followers, |w.subgoals|).Some? &&
      var chain := FollowerChain(w.subgoals, w.subgoals[l].followers, |w.subgoals|).value;
      w1.subgoals.Keys == w.subgoals.Keys &&
      (forall a :: a in w.subgoals ==> (w1.subgoals[a].status == Complete <==> a in chain || w.subgoals[a].status == Complete)) &&
      w1.subgoals[l].resumeInfo.None? && w1.consumers == w.consumers &&
      w.subgoals[l].resumeInfo.Some? &&
      var ri := w.subgoals[l].resumeInfo.value;
      var restored := Restore(w.live, ri.leaderState);
      r.next == Goto(ri.savedSuccip) && w1.live.state.succip == ri.savedSuccip &&
      |restored.gens| > 0 && w1.live.gens == restored.gens[..|restored.gens| - 1] &&
      w1.live.cuts == restored.cuts && w1.live.state.nondet == restored.state.nondet &&
      w1.live.state.maxfr == restored.state.maxfr && w1.live.state.curfr == restored.state.curfr
  {
  }

  /** MR_table_nondet_commit drops the top cut stack entry and the
      generators it covers, changes no table, and fails. */
  lemma TableNondetCommitEffect(w: World)
    requires !TableNondetCommit(w).next.Abort?
    ensures var w1 := TableNondetCommit(w).world; var cuts := w.live.cuts;
      |cuts| > 0 && 0 <= cuts[|cuts| - 1].genNext <= |w.live.gens| &&
      w1.live.cuts == cuts[..|cuts| - 1] && w1.live.gens == w.live.gens[..cuts[|cuts| - 1].genNext] &&
      w1.live.pnegs == w.live.pnegs &&
      w1.subgoals == w.subgoals && w1.consumers == w.consumers && w1.trie == w.trie &&
      TableNondetCommit(w).next == Goto(RedoIp(w.live.state.nondet, PrevFr(w.live.state.nondet, w.live.state.maxfr)))
  {
  }

  /** The resume entry and MR_table_nondet_commit keep the tables well
      formed. */
  lemma EntryAndCommitKeepWellFormed(w: World)
    requires WellFormed(w)
    ensures WellFormed(ResumeEntry(w).world) && WellFormed(TableNondetCommit(w).world)
  {
    WellFormedAcross(w, TableNondetCommit(w).world);
  }

  /** Every label of the resume entry keeps the tables well formed. */
  lemma ResumeKeepsWellFormed(w: World, at: Label)
    requires WellFormed(w)
    ensures WellFormed(Resume(w, at).world)
  {
    match at {
      case StartCompletionOp => StartCompletionKeepsWellFormed(w);
      case LoopOverSubgoals => LoopOverSubgoalsKeepsWellFormed(w);
      case LoopOverSuspensions => LoopOverSuspensionsKeepsWellFormed(w);
      case ReturnAnswer => ReturnAnswerKeepsWellFormed(w);
      case RedoPoint => assert RedoPointStep(w).world.(curLeader := w.curLeader) == w;
      case RestartPoint => assert RestartPointStep(w).world == w;
      case FixPointCheck => FixPointCheckKeepsWellFormed(w);
      case ReachedFixpoint => ReachedFixpointKeepsWellFormed(w);
    }
  }

  lemma StartCompletionKeepsWellFormed(w: World)
    requires WellFormed(w)
    ensures WellFormed(StartCompletion(w).world)
  {
    var l := w.curLeader;
    if l in w.subgoals && w.subgoals[l].leader.None? && w.subgoals[l].resumeInfo.None? {
      var saved := Save(w.live, w.subgoals[l].generatorFr);
      if saved.Some? {
        WithInfoKeepsTables(w, ResumeInfo(saved.value, w.subgoals[l].followers, None, None, None, w.live.state.succip));
        WellFormedAcross(w, StartCompletion(w).world);
      }
    }
  }

  lemma LoopOverSubgoalsKeepsWellFormed(w: World)
    requires WellFormed(w)
    ensures WellFormed(LoopOverSubgoalsStep(w).world)
  {
    var ri := LeaderInfo(w);
    if ri.Some? && ri.value.subgoalList.Some? && ri.value.subgoalList.value in w.subgoals {
      var x := ri.value.subgoalList.value;
      var cons := w.subgoals[x].consumers;
      WithInfoKeepsTables(w, ri.value.(curSubgoal := Some(x), subgoalList := w.subgoals[x].followerNext,
                                       consumerList := if |cons| > 0 then Some(0) else None));
      WellFormedAcross(w, LoopOverSubgoalsStep(w).world);
    }
  }

  lemma LoopOverSuspensionsKeepsWellFormed(w: World)
    requires WellFormed(w)
    ensures WellFormed(LoopOverSuspensionsStep(w).world)
  {
    LoopOverSuspensionsKeepsTables(w);
    WellFormedAcross(w, LoopOverSuspensionsStep(w).world);
  }

  /** LoopOverSuspensions changes nothing but the leader's resume info and
      the stacks. */
  lemma LoopOverSuspensionsKeepsTables(w: World)
    ensures var w1 := LoopOverSuspensionsStep(w).world;
      SameAnswersAndConsumers(w.subgoals, w1.subgoals) && w1.consumers == w.consumers &&
      w1.trie == w.trie && w1.nextAddr == w.nextAddr
  {
    var w1 := LoopOverSuspensionsStep(w).world;
    if w1.(live := w.live) != w {
      WithInfoKeepsTables(w, LeaderInfo(w1).value);
    }
  }

  lemma ReturnAnswerKeepsWellFormed(w: World)
    requires WellFormed(w)
    ensures WellFormed(ReturnAnswerStep(w).world)
  {
    var w1 := ReturnAnswerStep(w).world;
    var ri := LeaderInfo(w);
    if ri.Some? && ri.value.curConsumer.Some? {
      var c := ri.value.curConsumer.value;
      if Resolves(w.subgoals, w.consumers, c) && Unreturned(w.subgoals, w.consumers, c) {
        forall k | 0 <= k < |w1.consumers|
          ensures w1.consumers[k].subgoal in w1.subgoals &&
                  w1.consumers[k].cursor <= |w1.subgoals[w1.consumers[k].subgoal].answers|
        {
        }
      }
    }
  }

  lemma FixPointCheckKeepsWellFormed(w: World)
    requires WellFormed(w)
    ensures WellFormed(FixPointCheckStep(w).world)
  {
    FixPointCheckKeepsTables(w);
    WellFormedAcross(w, FixPointCheckStep(w).world);
  }

  /** FixPointCheck changes nothing but the leader's resume info. */
  lemma FixPointCheckKeepsTables(w: World)
    ensures var w1 := FixPointCheckStep(w).world;
      SameAnswersAndConsumers(w.subgoals, w1.subgoals) && w1.consumers == w.consumers &&
      w1.trie == w.trie && w1.nextAddr == w.nextAddr
  {
    var w1 := FixPointCheckStep(w).world;
    if w1 != w {
      WithInfoKeepsTables(w, LeaderInfo(w1).value);
    }
  }

  lemma ReachedFixpointKeepsWellFormed(w: World)
    requires WellFormed(w)
    ensures WellFormed(ReachedFixpointStep(w).world)
  {
    if !ReachedFixpointStep(w).next.Abort? {
      WellFormedAcross(w, ReachedFixpointStep(w).world);
    }
  }

  /** A new answer keeps the tables well formed, is the last answer of its
      subgoal, and leaves every consumer of that subgoal with an answer it
      has not been given; no other consumer's answers change. */
  lemma AddAnswerWakesConsumers(w: World, s: Word, a: Word)
    requires WellFormed(w) && s in w.subgoals
    ensures var w1 := AddAnswer(w, s, a);
      WellFormed(w1) && w1.subgoals[s].answers == w.subgoals[s].answers + [a] &&
      (forall c :: 0 <= c < |w.consumers| ==>
         (Resolves(w1.subgoals, w1.consumers, c) &&
          (Unreturned(w1.subgoals, w1.consumers, c) <==>
             w.consumers[c].subgoal == s || Unreturned(w.subgoals, w.consumers, c))))
  {
    var w1 := AddAnswer(w, s, a);
    forall c | 0 <= c < |w1.consumers|
      ensures w1.consumers[c].subgoal in w1.subgoals &&
              w1.consumers[c].cursor <= |w1.subgoals[w1.consumers[c].subgoal].answers|
    {
      assert w.consumers[c].subgoal in w.subgoals;
    }
  }

  /** In well formed tables every consumer of every subgoal exists, with
      its subgoal. */
  lemma WellFormedResolves(w: World, xs: seq<Word>)
    requires WellFormed(w)
    ensures AllResolve(w.subgoals, w.consumers, xs)
  {
    forall i, k | 0 <= i < |xs| && xs[i] in w.subgoals && 0 <= k < |w.subgoals[xs[i]].consumers|
      ensures Resolves(w.subgoals, w.consumers, w.subgoals[xs[i]].consumers[k])
    {
      ConsumerOfWellFormed(w, xs[i], k);
    }
  }

  /** In well formed tables consumer k of subgoal a exists, with its
      subgoal. */
  lemma ConsumerOfWellFormed(w: World, a: Word, k: int)
    requires WellFormed(w) && a in w.subgoals && 0 <= k < |w.subgoals[a].consumers|
    ensures Resolves(w.subgoals, w.consumers, w.subgoals[a].consumers[k])
  {
  }

  /** An answer for a subgoal of the leader's component that has a
      consumer of its own makes the fixpoint check walk the component
      again. */
  lemma AddAnswerReopensFixpoint(w: World, s: Word, a: Word, xs: seq<Word>, i: int, k: int)
    requires WellFormed(w)
    requires w.curLeader in w.subgoals && w.subgoals[w.curLeader].resumeInfo.Some?
    requires FollowerChain(w.subgoals, w.subgoals[w.curLeader].followers, |w.subgoals|) == Some(xs)
    requires 0 <= i < |xs| && xs[i] == s && 0 <= k < |w.subgoals[s].consumers|
    requires w.consumers[w.subgoals[s].consumers[k]].subgoal == s
    ensures FixPointCheckStep(AddAnswer(w, s, a)).next == Jump(StartCompletionOp)
  {
    var w1 := AddAnswer(w, s, a);
    var l := w.curLeader;
    assert w1.subgoals.Keys == w.subgoals.Keys && w1.subgoals[l].followers == w.subgoals[l].followers;
    FollowerChainSameLinks(w.subgoals, w1.subgoals, w.subgoals[l].followers, |w.subgoals|);
    AddAnswerWakesConsumers(w, s, a);
    WellFormedResolves(w1, xs);
    assert Unreturned(w1.subgoals, w1.consumers, w1.subgoals[xs[i]].consumers[k]);
  }
}
