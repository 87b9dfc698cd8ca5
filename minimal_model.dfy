/** The minimal model tabling engine of runtime/mercury_minimal_model.c as
    an object: the machine registers and stacks, the generator, cut and pneg
    stacks, and the subgoal and consumer tables, with one method per entry
    point, label and helper of the source. Each method is proved to do what
    the corresponding function of modules Tables and Steps says. */
module MinimalModel {
  import opened Outcomes
  import opened Stacks
  import opened Segments
  import opened Pruning
  import opened Snapshots
  import opened Tables
  import opened Steps

  // ---------------------------------------------------------------------
  // Block copies

  /** MR_table_copy_words out of a stack: a fresh array holding the words
      from start to top, both inclusive. */
  method CopyOut(src: array<Word>, start: int, top: int) returns (b: array<Word>)
    requires InStack(src[..], start, SegmentSize(start, top))
    ensures fresh(b)
    ensures b[..] == Snapshot(src[..], start, top)
  {
    var len := SegmentSize(start, top);
    b := new Word[len];
    var k := 0;
    while k < len
      invariant 0 <= k <= len
      invariant forall j :: 0 <= j < k ==> b[j] == src[start + j]
    {
      b[k] := src[start + k];
      k := k + 1;
    }
  }

  /** MR_table_copy_words back into a stack: the words of b written from
      start on. */
  method CopyIn(dst: array<Word>, start: int, b: seq<Word>)
    requires InStack(dst[..], start, |b|)
    modifies dst
    ensures dst[..] == CopyInto(old(dst[..]), start, b)
  {
    var k := 0;
    while k < |b|
      invariant 0 <= k <= |b|
      invariant forall i :: 0 <= i < dst.Length ==>
                  dst[i] == (if start <= i < start + k then b[i - start] else old(dst[i]))
    {
      dst[start + k] := b[k];
      k := k + 1;
    }
  }

  /** The block extend_consumer_stacks allocates: the live words of src from
      start up to end, followed by the old block. */
  method CopyExtended(src: array<Word>, start: int, end: int, oldBlock: seq<Word>) returns (b: array<Word>)
    requires 0 <= start < end <= src.Length
    ensures fresh(b)
    ensures b[..] == Extend(src[..], start, end, oldBlock)
  {
    var n := end - start;
    b := new Word[n + |oldBlock|];
    var k := 0;
    while k < n
      invariant 0 <= k <= n
      invariant forall j :: 0 <= j < k ==> b[j] == src[start + j]
    {
      b[k] := src[start + k];
      k := k + 1;
    }
    while k < n + |oldBlock|
      invariant n <= k <= n + |oldBlock|
      invariant forall j :: 0 <= j < n ==> b[j] == src[start + j]
      invariant forall j :: n <= j < k ==> b[j] == oldBlock[j - n]
    {
      b[k] := oldBlock[k - n];
      k := k + 1;
    }
  }

  /** The list xs put in front of a list that may be missing. */
  function Prefixed(xs: seq<Word>, r: Option<seq<Word>>): Option<seq<Word>> {
    if r.None? then None else Some(xs + r.value)
  }

  // ---------------------------------------------------------------------
  // The engine

  /** The engine's global state: the machine, MR_gen_stack, MR_cut_stack and
      MR_pneg_stack (their live entries), the trie nodes' subgoal pointers,
      the subgoals and consumers, MR_cur_leader and MR_r1. */
  class Engine {
    const m: Machine
    var gens: seq<GenStackFrame<Word>>
    var cuts: seq<CutStackFrame<Word>>
    var pnegs: seq<PNegStackFrame<nat>>
    var trie: map<Word, Word>
    var subgoals: map<Word, Subgoal>
    var consumers: seq<Consumer>
    var nextAddr: Word
    var curLeader: Word
    var r1: Word

    /** The two stacks are different arrays. */
    ghost predicate Valid()
      reads this, m
    {
      m.nondet != m.det
    }

    /** The machine and the generator, cut and pneg stacks, as a value. */
    ghost function LiveState(): Live<Word, nat>
      reads this`gens, this`cuts, this`pnegs, m, m.nondet, m.det
    {
      Live(m.State(), gens, cuts, pnegs)
    }

    /** The whole engine as a value. */
    ghost function Model(): World
      reads this, m, m.nondet, m.det
    {
      World(LiveState(), trie, subgoals, consumers, nextAddr, curLeader, r1)
    }

    /** An engine with empty stacks of the given sizes and empty tables. */
    constructor (nondetWords: nat, detWords: nat)
      ensures Valid() && fresh(m) && fresh(m.nondet) && fresh(m.det)
      ensures m.nondet.Length == nondetWords && m.det.Length == detWords
      ensures gens == [] && cuts == [] && pnegs == [] && trie == map[] && subgoals == map[] && consumers == []
      ensures nextAddr == 1 && WellFormed(Model())
    {
      m := new Machine(nondetWords, detWords);
      gens, cuts, pnegs := [], [], [];
      trie, subgoals, consumers := map[], map[], [];
      nextAddr, curLeader, r1 := 1, 0, 0;
    }

    /** nearest_common_ancestor: while the two frames differ, step the higher
        one to its succfr. */
    method NearestCommonAncestor(fr1: Word, fr2: Word) returns (r: Option<Word>)
      ensures r == Nca(m.nondet[..], fr1, fr2)
    {
      var a, b := fr1, fr2;
      var stuck := false;
      while a != b && !stuck
        invariant !stuck ==> Nca(m.nondet[..], a, b) == Nca(m.nondet[..], fr1, fr2)
        invariant stuck ==> Nca(m.nondet[..], fr1, fr2).None?
        decreases Height(a) + Height(b), if stuck then 0 else 1
      {
        if a > b {
          if 4 <= a < m.nondet.Length && 0 <= m.nondet[a + SUCCFR] < a {
            a := m.nondet[a + SUCCFR];
          } else {
            stuck := true;
          }
        } else {
          if 4 <= b < m.nondet.Length && 0 <= m.nondet[b + SUCCFR] < b {
            b := m.nondet[b + SUCCFR];
          } else {
            stuck := true;
          }
        }
      }
      r := if stuck then None else Some(a);
    }

    /** save_state against the generator frame genFr. */
    method SaveState(genFr: Word) returns (r: Option<SavedState>, arena: array<Word>)
      ensures fresh(arena)
      ensures r == Save(LiveState(), genFr)
      ensures r.Some? ==> arena[..] == r.value.nonBlock
    {
      ghost var l := LiveState();
      var nca := NearestCommonAncestor(m.curfr, genFr);
      r, arena := None, new Word[0];
      assert LiveState() == l;
      if nca.Some? && 5 <= nca.value < m.nondet.Length {
        var startNon := m.nondet[nca.value + PREVFR] + 1;
        var startDet := m.nondet[nca.value + TABLE_DETFR] + 1;
        if InStack(m.nondet[..], startNon, SegmentSize(startNon, m.maxfr)) &&
           InStack(m.det[..], startDet, SegmentSize(startDet, m.sp)) {
          arena := CopyOut(m.nondet, startNon, m.maxfr);
          var db := CopyOut(m.det, startDet, m.sp);
          assert LiveState() == l;
          r := Some(Image(m.succip, m.sp, m.curfr, m.maxfr, nca.value,
                          startNon, arena[..], startDet, db[..],
                          |gens|, gens, |cuts|, cuts, |pnegs|, pnegs));
        }
      }
    }

    /** restore_state. */
    method RestoreState(img: SavedState)
      requires Valid() && Restorable(LiveState(), img)
      modifies this`gens, this`cuts, this`pnegs, m, m.nondet, m.det
      ensures Valid() && LiveState() == Restore(old(LiveState()), img)
    {
      CopyIn(m.nondet, img.nonRealStart, img.nonBlock);
      CopyIn(m.det, img.detRealStart, img.detBlock);
      m.maxfr, m.curfr, m.sp, m.succip := img.maxfr, img.curfr, img.sp, img.succip;
      gens := img.genBlock[..img.genNext];
      cuts := img.cutBlock[..img.cutNext];
      pnegs := img.pnegBlock[..img.pnegNext];
    }

    /** One segment of extend_consumer_stacks: when the new start lies below
        the saved segment's start, the source asserts the widened segment
        still ends at the saved top and allocates a block holding the live
        words in between followed by the old block; otherwise the segment is
        kept. arena is the block allocated (empty when none is). */
    method WidenSegment(s: array<Word>, newStart: Word, oldStart: Word, oldBlock: seq<Word>, top: Word)
      returns (r: Option<(Word, seq<Word>)>, arena: array<Word>)
      ensures fresh(arena)
      ensures r == ExtendSegment(s[..], newStart, oldStart, oldBlock, top)
      ensures r.Some? && newStart < oldStart ==> arena[..] == r.value.1
    {
      if newStart >= oldStart {
        r, arena := Some((oldStart, oldBlock)), new Word[0];
      } else if oldStart + |oldBlock| != top + 1 || !(0 <= newStart && oldStart <= s.Length) {
        r, arena := None, new Word[0];
      } else {
        arena := CopyExtended(s, newStart, oldStart, oldBlock);
        r := Some((newStart, arena[..]));
      }
    }

    /** extend_consumer_stacks up to its pruning step: the new common
        ancestor of the saved one and leaderFr, and both segments widened
        down to it. arena is the nondet block allocated (empty when the
        nondet segment is kept). */
    method ExtendStacks(img: SavedState, leaderFr: Word) returns (e: Option<SavedState>, arena: array<Word>)
      ensures fresh(arena)
      ensures e == ExtendImage(LiveState(), img, leaderFr)
      ensures e.Some? && e.value.nonRealStart < img.nonRealStart ==> arena[..] == e.value.nonBlock
    {
      ghost var l := LiveState();
      var nca := NearestCommonAncestor(img.commonAncestorFr, leaderFr);
      if nca.None? || !(5 <= nca.value < m.nondet.Length) {
        return None, new Word[0];
      }
      var det, _ := WidenSegment(m.det, m.nondet[nca.value + TABLE_DETFR] + 1, img.detRealStart, img.detBlock, img.sp);
      var non;
      non, arena := WidenSegment(m.nondet, m.nondet[nca.value + PREVFR] + 1, img.nonRealStart, img.nonBlock, img.maxfr);
      assert LiveState() == l;
      if det.None? || non.None? {
        e := None;
      } else {
        e := Some(img.(commonAncestorFr := nca.value, detRealStart := det.value.0, detBlock := det.value.1,
                       nonRealStart := non.value.0, nonBlock := non.value.1));
      }
    }

    /** extend_consumer_stacks on the saved state img, against a leader whose
        generator frame is leaderFr: the stacks widened, then the new part
        of the nondet block pruned with no subgoal. None where the source's
        assertions fail or it reads outside the stacks. */
    method ExtendConsumerStacks(img: SavedState, leaderFr: Word) returns (r: Option<SavedState>)
      ensures r == ExtendConsumerState(LiveState(), img, leaderFr)
    {
      var e, arena := ExtendStacks(img, leaderFr);
      if e.Some? && e.value.nonRealStart < img.nonRealStart {
        var genNext, _, fault := PruneRightBranches(Env(e.value.nonRealStart, |img.nonBlock| > 0, gens, cuts, None),
                                                    arena, |img.nonBlock|, e.value.genNext);
        r := if fault.Fatal? then None else Some(e.value.(nonBlock := arena[..], genNext := genNext));
      } else {
        r := e;
      }
    }

    /** The inner loop of make_subgoal_follow_leader: the saved states of
        the consumers ids extended in turn against leaderFr, starting from
        the consumers cs. None at the first unknown consumer or failing
        extension. */
    method ExtendConsumers(cs: seq<Consumer>, ids: seq<nat>, leaderFr: Word) returns (r: Option<seq<Consumer>>)
      ensures r == ExtendAll(Against(LiveState(), leaderFr), cs, ids)
    {
      var acc := cs;
      var j := 0;
      while j < |ids|
        invariant 0 <= j <= |ids|
        invariant ExtendAll(Against(LiveState(), leaderFr), cs, ids) == ExtendAll(Against(LiveState(), leaderFr), acc, ids[j..])
      {
        assert ids[j..][0] == ids[j] && ids[j..][1..] == ids[j + 1..];
        var id := ids[j];
        if id >= |acc| {
          return None;
        }
        var e := ExtendConsumerStacks(acc[id].saved, leaderFr);
        if e.None? {
          return None;
        }
        acc := acc[id := acc[id].(saved := e.value)];
        j := j + 1;
      }
      r := Some(acc);
    }

    /** The loop of make_subgoal_follow_leader from the cell start: for
        each subgoal on the follower list, extend the saved state of every
        consumer on its consumer list against the leader's generator frame,
        then give the subgoal the leader. The result is the subgoals and
        consumers it leaves; None where the source would fail (an unknown
        subgoal or consumer, a failing extension) or never end (a list
        longer than there are subgoals). */
    method FollowLeaderLoop(start: Option<Word>, leader: Word, leaderFr: Word)
      returns (r: Option<(map<Word, Subgoal>, seq<Consumer>)>)
      ensures r == FollowLoop(Against(LiveState(), leaderFr), subgoals, consumers, start, |subgoals|, leader)
    {
      ghost var ext := Against(LiveState(), leaderFr);
      var sg, cs, cur := subgoals, consumers, start;
      var fuel: nat := |sg|;
      while cur.Some?
        invariant FollowLoop(ext, subgoals, consumers, start, |subgoals|, leader) == FollowLoop(ext, sg, cs, cur, fuel, leader)
        decreases fuel
      {
        if fuel == 0 || cur.value !in sg {
          return None;
        }
        var x := cur.value;
        var extended := ExtendConsumers(cs, sg[x].consumers, leaderFr);
        if extended.None? {
          return None;
        }
        cs := extended.value;
        cur, fuel := sg[x].followerNext, fuel - 1;
        sg := sg[x := sg[x].(leader := Some(leader))];
      }
      r := Some((sg, cs));
    }

    /** make_subgoal_follow_leader: the loop over the follower's follower
        list, then the splice. ok is false where the source would fail or
        never end. */
    method MakeSubgoalFollowLeader(follower: Word, leader: Word) returns (ok: bool)
      modifies this`subgoals, this`consumers
      ensures var f := FollowLeader(LiveState(), old(Registry(subgoals, consumers)), follower, leader);
        ok == f.Some? && (ok ==> subgoals == f.value.subgoals && consumers == f.value.consumers)
    {
      ghost var l, reg := LiveState(), Registry(subgoals, consumers);
      if follower !in subgoals || leader !in subgoals {
        return false;
      }
      FollowLeaderByLoop(l, reg, follower, leader);
      var walked := FollowLeaderLoop(subgoals[follower].followers, leader, subgoals[leader].generatorFr);
      if walked.None? {
        return false;
      }
      var sg := walked.value.0;
      sg := sg[follower := sg[follower].(leader := Some(leader))];
      sg := sg[leader := sg[leader].(followerNext := sg[follower].followers)];
      sg := sg[follower := sg[follower].(followers := None)];
      assert FollowLeader(l, reg, follower, leader) == Some(Registry(sg, walked.value.1));
      subgoals, consumers := sg, walked.value.1;
      ok := true;
    }

    /** The merges a suspension's pruning walk asked for: the subgoals
        followers made to follow leader in turn. ok is false at the first
        merge that fails. */
    method MergeFollowers(followers: seq<Word>, leader: Word) returns (ok: bool)
      modifies this`subgoals, this`consumers
      ensures var r := MergeAll(LiveState(), old(Registry(subgoals, consumers)), followers, leader);
        ok == r.Some? && (ok ==> Registry(subgoals, consumers) == r.value)
    {
      ghost var l, reg := LiveState(), Registry(subgoals, consumers);
      var i := 0;
      while i < |followers|
        invariant 0 <= i <= |followers|
        invariant LiveState() == l
        invariant MergeAll(l, reg, followers, leader) ==
                  MergeAll(l, Registry(subgoals, consumers), followers[i..], leader)
      {
        assert followers[i..][0] == followers[i] && followers[i..][1..] == followers[i + 1..];
        var merged := MakeSubgoalFollowLeader(followers[i], leader);
        if !merged {
          return false;
        }
        i := i + 1;
      }
      ok := true;
    }

    /** MR_setup_subgoal: the subgoal of the trie node t, created first if
        the node has none, at the next free address. */
    method SetupSubgoal(t: Word) returns (s: Word)
      modifies this`subgoals, this`trie, this`nextAddr
      ensures (s, Model()) == Steps.SetupSubgoal(old(Model()), t)
    {
      if t in trie {
        return trie[t];
      }
      s := nextAddr;
      subgoals := subgoals[s := NewSubgoal(t, s, m.curfr)];
      trie := trie[t := s];
      nextAddr := s + 1;
    }

    /** MR_register_suspension: the consumer c joins the innermost possibly
        negated context, when there is one. */
    method RegisterSuspension(c: nat)
      modifies this`pnegs
      ensures LiveState() == Tables.RegisterSuspension(old(LiveState()), c)
    {
      if |pnegs| > 0 {
        var top := pnegs[|pnegs| - 1];
        pnegs := pnegs[|pnegs| - 1 := top.(consumers := [c] + top.consumers)];
      }
    }

    /** A new answer a for the subgoal s, from the code that tables
        answers. */
    method AddAnswer(s: Word, a: Word)
      requires s in subgoals
      modifies this`subgoals
      ensures Model() == Steps.AddAnswer(old(Model()), s, a)
      ensures subgoals.Keys == old(subgoals).Keys
      ensures subgoals[s].answers == old(subgoals[s].answers) + [a]
      ensures subgoals[s].numAns == old(subgoals[s].numAns) + 1
      ensures forall t :: t in old(subgoals) && t != s ==> subgoals[t] == old(subgoals[t])
    {
      var g := subgoals[s];
      subgoals := subgoals[s := g.(answers := g.answers + [a], numAns := g.numAns + 1)];
    }

    /** The consumer part of the suspend entry's Call label for subgoal s,
        whose saved state ss holds the nondet block arena: register the
        consumer with the innermost pneg context, lower the subgoal's
        deepest common ancestor, prune arena in place, merge the generators
        the walk found, and put the consumer on s's list. refused holds the
        error where the source fails. */
    method AddConsumer(s: Word, ss: SavedState, arena: array<Word>) returns (refused: Option<string>)
      requires s in subgoals && arena != m.nondet && arena != m.det && arena[..] == ss.nonBlock
      modifies this`pnegs, this`subgoals, this`consumers, arena
      ensures var r := Steps.AddConsumer(old(LiveState()), old(Registry(subgoals, consumers)), s, ss);
        (r.Refused? ==> refused == Some(r.msg)) &&
        (r.Registered? ==> refused.None? && LiveState() == r.live && Registry(subgoals, consumers) == r.reg)
    {
      ghost var l, reg := LiveState(), Registry(subgoals, consumers);
      var g := subgoals[s];
      var c := |consumers|;
      RegisterSuspension(c);
      ghost var live := LiveState();
      var nca := if ss.commonAncestorFr < g.deepestNcaFr then ss.commonAncestorFr else g.deepestNcaFr;
      subgoals := subgoals[s := g.(deepestNcaFr := nca)];
      ghost var p := Prune(Env(ss.nonRealStart, false, live.gens, live.cuts, Some(s)), ss.nonBlock, 0, ss.genNext);
      var genNext, merges, fault := PruneRightBranches(Env(ss.nonRealStart, false, gens, cuts, Some(s)), arena, 0, ss.genNext);
      assert LiveState() == live;
      if fault.Fatal? {
        assert Steps.AddConsumer(l, reg, s, ss) == Refused(p.fault.msg);
        return Some(fault.msg);
      }
      ghost var merging := Registry(subgoals, consumers);
      var merged := MergeFollowers(merges, s);
      ghost var mm := MergeAll(live, merging, p.merges, s);
      if !merged {
        assert Steps.AddConsumer(l, reg, s, ss) == Refused("make_subgoal_follow_leader failed");
        return Some("make_subgoal_follow_leader failed");
      }
      consumers := consumers + [Consumer(s, ss.(nonBlock := arena[..], genNext := genNext), 0, 0)];
      subgoals := subgoals[s := subgoals[s].(consumers := subgoals[s].consumers + [c])];
      assert Steps.AddConsumer(l, reg, s, ss) == Registered(live, Registry(subgoals, consumers));
      refused := None;
    }

    /** The suspend entry's Call label: a consumer of the subgoal in r1 with
        the state saved against the subgoal's generator frame, then fail. */
    method SuspendCall() returns (next: Next)
      requires Valid()
      modifies this, m
      ensures Valid()
      ensures var st := Steps.SuspendCall(old(Model()));
        next == st.next && (!next.Abort? ==> Model() == st.world)
    {
      ghost var w := Model();
      var s := r1;
      if s !in subgoals {
        return Abort("suspension of an unknown subgoal");
      }
      var saved, arena := SaveState(subgoals[s].generatorFr);
      if saved.None? {
        return Abort("save_state reads outside the stacks");
      }
      ghost var r := Steps.AddConsumer(w.live, Registry(w.subgoals, w.consumers), s, saved.value);
      var refused := AddConsumer(s, saved.value, arena);
      if refused.Some? {
        return Abort(refused.value);
      }
      ghost var w1 := w.(live := r.live, subgoals := r.reg.subgoals, consumers := r.reg.consumers);
      assert Model() == w1;
      if !(0 <= m.maxfr < m.nondet.Length && 2 <= m.nondet[m.maxfr] < m.nondet.Length) {
        return Abort("MR_fail outside the nondet stack");
      }
      var target := m.Fail();
      next := Goto(target);
      assert Model() == w1.(live := r.live.(state := m.State()));
    }

    /** The suspend entry: a frame with one framevar whose redoip is
        MR_do_fail, then its Call label. */
    method Suspend() returns (next: Next)
      requires Valid()
      modifies this, m, m.nondet
      ensures Valid()
      ensures var st := Steps.Suspend(old(Model()));
        next == st.next && (!next.Abort? ==> Model() == st.world)
    {
      if !(-1 <= m.maxfr && m.maxfr + NONDET_FIXED_SIZE + 1 < m.nondet.Length) {
        return Abort("nondet stack overflow");
      }
      m.Mkframe(1, DO_FAIL);
      next := SuspendCall();
    }
    /** The saved state img fits the live stacks, so restore_state stays
        inside them. */
    predicate CanRestore(img: SavedState)
      reads this, m, m.nondet, m.det
      ensures CanRestore(img) == Restorable(LiveState(), img)
    {
      InStack(m.nondet[..], img.nonRealStart, |img.nonBlock|) &&
      InStack(m.det[..], img.detRealStart, |img.detBlock|) &&
      0 <= img.genNext <= |img.genBlock| && 0 <= img.cutNext <= |img.cutBlock| &&
      0 <= img.pnegNext <= |img.pnegBlock|
    }

    /** The resume entry: the top generator's subgoal becomes the current
        leader. */
    method ResumeEntry() returns (next: Next)
      modifies this`curLeader
      ensures var st := Steps.ResumeEntry(old(Model())); next == st.next && Model() == st.world
    {
      curLeader := if |gens| == 0 then 0 else gens[|gens| - 1].subgoal;
      next := Jump(StartCompletionOp);
    }

    /** StartCompletionOp. */
    method StartCompletion() returns (next: Next)
      requires Valid()
      modifies this`gens, this`subgoals, m
      ensures Valid()
      ensures var st := Steps.StartCompletion(old(Model()));
        next == st.next && (!next.Abort? ==> Model() == st.world)
    {
      var l := curLeader;
      if l !in subgoals {
        return Abort("no current leader");
      }
      var g := subgoals[l];
      if g.leader.Some? {
        if |gens| == 0 {
          return Abort("generator stack underflow");
        }
        gens := gens[..|gens| - 1];
        if !(2 <= m.maxfr < m.nondet.Length) {
          return Abort("MR_redo outside the nondet stack");
        }
        var target := m.Redo();
        return Goto(target);
      }
      if g.resumeInfo.Some? {
        return Jump(LoopOverSubgoals);
      }
      var saved, _ := SaveState(g.generatorFr);
      if saved.None? {
        return Abort("save_state reads outside the stacks");
      }
      subgoals := subgoals[l := g.(resumeInfo := Some(ResumeInfo(saved.value, g.followers, None, None, None, m.succip)))];
      next := Jump(LoopOverSubgoals);
    }

    /** LoopOverSubgoals. */
    method LoopOverSubgoalsStep() returns (next: Next)
      modifies this`subgoals
      ensures var st := Steps.LoopOverSubgoalsStep(old(Model()));
        next == st.next && (!next.Abort? ==> Model() == st.world)
    {
      if curLeader !in subgoals || subgoals[curLeader].resumeInfo.None? {
        return Abort("no resume info");
      }
      var ri := subgoals[curLeader].resumeInfo.value;
      if ri.subgoalList.None? {
        return Jump(FixPointCheck);
      }
      var x := ri.subgoalList.value;
      if x !in subgoals {
        return Abort("follower list cell of an unknown subgoal");
      }
      var cons := subgoals[x].consumers;
      var ri' := ri.(curSubgoal := Some(x), subgoalList := subgoals[x].followerNext,
                     consumerList := if |cons| > 0 then Some(0) else None);
      subgoals := subgoals[curLeader := subgoals[curLeader].(resumeInfo := Some(ri'))];
      next := Jump(LoopOverSuspensions);
    }

    /** LoopOverSuspensions. */
    method LoopOverSuspensionsStep() returns (next: Next)
      requires Valid()
      modifies this`gens, this`cuts, this`pnegs, this`subgoals, m, m.nondet, m.det
      ensures Valid()
      ensures var st := Steps.LoopOverSuspensionsStep(old(Model()));
        next == st.next && (!next.Abort? ==> Model() == st.world)
    {
      if curLeader !in subgoals || subgoals[curLeader].resumeInfo.None? {
        return Abort("no resume info");
      }
      var ri := subgoals[curLeader].resumeInfo.value;
      if ri.consumerList.None? {
        return Jump(LoopOverSubgoals);
      }
      var i := ri.consumerList.value;
      var cur := ri.curSubgoal;
      if cur.None? || cur.value !in subgoals || i >= |subgoals[cur.value].consumers| {
        return Abort("consumer list cell out of place");
      }
      var cons := subgoals[cur.value].consumers;
      var c := cons[i];
      var ri' := ri.(curConsumer := Some(c), consumerList := if i + 1 < |cons| then Some(i + 1) else None);
      subgoals := subgoals[curLeader := subgoals[curLeader].(resumeInfo := Some(ri'))];
      if !(c < |consumers| && consumers[c].subgoal in subgoals) {
        return Abort("unknown consumer");
      }
      if consumers[c].cursor >= |subgoals[consumers[c].subgoal].answers| {
        return Jump(LoopOverSuspensions);
      }
      next := ResumeConsumer(c);
    }

    /** The rest of LoopOverSuspensions for the consumer c: restore its
        saved state and set up the restored suspend frame. */
    method ResumeConsumer(c: nat) returns (next: Next)
      requires Valid() && c < |consumers|
      modifies this`gens, this`cuts, this`pnegs, m, m.nondet, m.det
      ensures Valid()
      ensures var st := Steps.ResumeConsumer(old(Model()), c);
        next == st.next && (!next.Abort? ==> Model() == st.world)
    {
      var img := consumers[c].saved;
      if !CanRestore(img) {
        return Abort("restore_state writes outside the stacks");
      }
      RestoreState(img);
      next := PrepareRedo();
    }

    /** The part of LoopOverSuspensions after the restore: check the top
        frame and point its redoip and redofr at RedoPoint, with the current
        leader in its framevar. */
    method PrepareRedo() returns (next: Next)
      requires Valid()
      modifies m.nondet
      ensures var st := Steps.PrepareRedo(old(Model()));
        next == st.next && (!next.Abort? ==> Model() == st.world)
    {
      var top := m.maxfr;
      if !(0 <= top < m.nondet.Length) {
        return Abort("restored maxfr outside the nondet stack");
      }
      if top - m.nondet[top + PREVFR] != NONDET_FIXED_SIZE + 1 {
        return Abort("restored top frame does not have exactly one framevar");
      }
      if top < NONDET_FIXED_SIZE {
        return Abort("restored top frame outside the nondet stack");
      }
      ghost var nd := m.nondet[..][top + REDOIP := REDO_POINT][top + REDOFR := top][FramevarIndex(top, 1) := curLeader];
      m.nondet[top + REDOIP] := REDO_POINT;
      m.nondet[top + REDOFR] := top;
      m.nondet[FramevarIndex(top, 1)] := curLeader;
      assert m.nondet[..] == nd;
      next := Jump(ReturnAnswer);
    }
    /** ReturnAnswer: the current consumer's next answer goes in r1, then
        succeed. */
    method ReturnAnswerStep() returns (next: Next)
      modifies this`consumers, this`r1, m
      ensures var st := Steps.ReturnAnswerStep(old(Model()));
        next == st.next && (!next.Abort? ==> Model() == st.world)
    {
      if curLeader !in subgoals || subgoals[curLeader].resumeInfo.None? ||
         subgoals[curLeader].resumeInfo.value.curConsumer.None? {
        return Abort("no current consumer");
      }
      var c := subgoals[curLeader].resumeInfo.value.curConsumer.value;
      if !(c < |consumers| && consumers[c].subgoal in subgoals) ||
         consumers[c].cursor >= |subgoals[consumers[c].subgoal].answers| {
        return Abort("no answer to return");
      }
      var con := consumers[c];
      r1 := subgoals[con.subgoal].answers[con.cursor];
      consumers := consumers[c := con.(cursor := con.cursor + 1, numReturnedAnswers := con.numReturnedAnswers + 1)];
      if !(4 <= m.curfr < m.nondet.Length) {
        return Abort("MR_succeed outside the nondet stack");
      }
      var target := m.Succeed();
      next := Goto(target);
    }

    /** RedoPoint: the current leader is read back from the suspend frame's
        framevar. */
    method RedoPointStep() returns (next: Next)
      modifies this`curLeader
      ensures var st := Steps.RedoPointStep(old(Model()));
        next == st.next && (!next.Abort? ==> Model() == st.world)
    {
      if !(0 <= FramevarIndex(m.maxfr, 1) && m.maxfr < m.nondet.Length) {
        return Abort("framevar outside the nondet stack");
      }
      curLeader := m.nondet[FramevarIndex(m.maxfr, 1)];
      next := Jump(RestartPoint);
    }

    /** RestartPoint: another answer for the current consumer, or the next
        consumer. Nothing changes. */
    method RestartPointStep() returns (next: Next)
      ensures var st := Steps.RestartPointStep(Model()); next == st.next && st.world == Model()
    {
      if curLeader !in subgoals || subgoals[curLeader].resumeInfo.None? ||
         subgoals[curLeader].resumeInfo.value.curConsumer.None? {
        return Abort("no current consumer");
      }
      var c := subgoals[curLeader].resumeInfo.value.curConsumer.value;
      if !(c < |consumers| && consumers[c].subgoal in subgoals) {
        return Abort("unknown consumer");
      }
      if consumers[c].cursor < |subgoals[consumers[c].subgoal].answers| {
        return Jump(ReturnAnswer);
      }
      next := Jump(LoopOverSuspensions);
    }

    /** The subgoals on the follower list from start, walked cell by cell;
        None where the walk meets an unknown subgoal or takes more steps
        than there are subgoals. */
    method FollowerList(start: Option<Word>) returns (xs: Option<seq<Word>>)
      ensures xs == FollowerChain(subgoals, start, |subgoals|)
    {
      ghost var whole := FollowerChain(subgoals, start, |subgoals|);
      assert whole.Some? ==> [] + whole.value == whole.value;
      var acc: seq<Word> := [];
      var cur := start;
      var fuel: nat := |subgoals|;
      while cur.Some?
        invariant FollowerChain(subgoals, start, |subgoals|) == Prefixed(acc, FollowerChain(subgoals, cur, fuel))
        decreases fuel
      {
        if fuel == 0 || cur.value !in subgoals {
          return None;
        }
        var rest := FollowerChain(subgoals, subgoals[cur.value].followerNext, fuel - 1);
        assert rest.Some? ==> acc + ([cur.value] + rest.value) == (acc + [cur.value]) + rest.value;
        acc := acc + [cur.value];
        cur, fuel := subgoals[cur.value].followerNext, fuel - 1;
      }
      assert acc + [] == acc;
      xs := Some(acc);
    }

    /** The two nested loops of FixPointCheck over the subgoals xs and
        their consumers: unknown where some consumer or its subgoal does not
        exist, and otherwise found when some consumer has answers it has not
        been given. */
    method ScanConsumers(xs: seq<Word>) returns (unknown: bool, found: bool)
      requires forall i :: 0 <= i < |xs| ==> xs[i] in subgoals
      ensures unknown == !AllResolve(subgoals, consumers, xs)
      ensures !unknown ==> found == AnyUnreturned(subgoals, consumers, xs)
    {
      found := false;
      var i := 0;
      while i < |xs|
        invariant 0 <= i <= |xs|
        invariant forall i', k :: 0 <= i' < i && 0 <= k < |subgoals[xs[i']].consumers| ==>
                    Resolves(subgoals, consumers, subgoals[xs[i']].consumers[k])
        invariant found <==> exists i', k :: (0 <= i' < i && 0 <= k < |subgoals[xs[i']].consumers| &&
                                               Unreturned(subgoals, consumers, subgoals[xs[i']].consumers[k]))
      {
        var cons := subgoals[xs[i]].consumers;
        var k := 0;
        while k < |cons|
          invariant 0 <= k <= |cons|
          invariant forall i', k' :: 0 <= i' < i && 0 <= k' < |subgoals[xs[i']].consumers| ==>
                      Resolves(subgoals, consumers, subgoals[xs[i']].consumers[k'])
          invariant forall k' :: 0 <= k' < k ==> Resolves(subgoals, consumers, cons[k'])
          invariant found <==> (exists i', k' :: (0 <= i' < i && 0 <= k' < |subgoals[xs[i']].consumers| &&
                                                  Unreturned(subgoals, consumers, subgoals[xs[i']].consumers[k']))) ||
                               exists k' :: 0 <= k' < k && Unreturned(subgoals, consumers, cons[k'])
        {
          var c := cons[k];
          if !(c < |consumers| && consumers[c].subgoal in subgoals) {
            return true, false;
          }
          if consumers[c].cursor < |subgoals[consumers[c].subgoal].answers| {
            found := true;
          }
          k := k + 1;
        }
        i := i + 1;
      }
      unknown := false;
    }

    /** FixPointCheck: walk the component again from the start when some
        consumer of it has answers it has not been given. */
    method FixPointCheckStep() returns (next: Next)
      modifies this`subgoals
      ensures var st := Steps.FixPointCheckStep(old(Model()));
        next == st.next && (!next.Abort? ==> Model() == st.world)
    {
      var l := curLeader;
      if l !in subgoals {
        return Abort("no current leader");
      }
      var chain := FollowerList(subgoals[l].followers);
      if chain.None? {
        return Abort("follower list does not end");
      }
      var unknown, found := ScanConsumers(chain.value);
      if unknown {
        return Abort("unknown consumer");
      }
      if found {
        var ri := subgoals[l].resumeInfo;
        if ri.None? {
          return Abort("no resume info");
        }
        subgoals := subgoals[l := subgoals[l].(resumeInfo := Some(ri.value.(subgoalList := subgoals[l].followers)))];
        return Jump(StartCompletionOp);
      }
      next := Jump(ReachedFixpoint);
    }

    /** The loop of ReachedFixpoint that marks the subgoals xs complete. */
    method MarkCompleteLoop(xs: seq<Word>)
      modifies this`subgoals
      ensures subgoals == MarkComplete(old(subgoals), xs)
    {
      ghost var sg0 := subgoals;
      var i := 0;
      while i < |xs|
        invariant 0 <= i <= |xs|
        invariant subgoals.Keys == sg0.Keys
        invariant forall a :: a in sg0 ==> subgoals[a] == if a in xs[..i] then sg0[a].(status := Complete) else sg0[a]
      {
        assert xs[..i + 1] == xs[..i] + [xs[i]];
        if xs[i] in subgoals {
          subgoals := subgoals[xs[i] := subgoals[xs[i]].(status := Complete)];
        }
        i := i + 1;
      }
      assert xs[..i] == xs;
      ghost var marked := MarkComplete(sg0, xs);
      assert forall a :: a in marked ==> marked[a] == subgoals[a];
    }

    /** ReachedFixpoint: mark the component complete, restore the state
        saved when the leader started completing along with its succip,
        drop the leader's resume info, pop its generator, and proceed. */
    method ReachedFixpointStep() returns (next: Next)
      requires Valid()
      modifies this`gens, this`cuts, this`pnegs, this`subgoals, m, m.nondet, m.det
      ensures Valid()
      ensures var st := Steps.ReachedFixpointStep(old(Model()));
        next == st.next && (!next.Abort? ==> Model() == st.world)
    {
      var l := curLeader;
      if l !in subgoals {
        return Abort("no current leader");
      }
      var chain := FollowerList(subgoals[l].followers);
      if chain.None? {
        return Abort("follower list does not end");
      }
      MarkCompleteLoop(chain.value);
      var ri := subgoals[l].resumeInfo;
      if ri.None? {
        return Abort("no resume info");
      }
      next := LeaveCompletion(ri.value);
    }

    /** The end of ReachedFixpoint for the current leader with resume info
        ri. */
    method LeaveCompletion(ri: ResumeInfo) returns (next: Next)
      requires Valid() && curLeader in subgoals
      modifies this`gens, this`cuts, this`pnegs, this`subgoals, m, m.nondet, m.det
      ensures Valid()
      ensures var st := Steps.LeaveCompletion(old(Model()), ri);
        next == st.next && (!next.Abort? ==> Model() == st.world)
    {
      if !CanRestore(ri.leaderState) {
        return Abort("restore_state writes outside the stacks");
      }
      RestoreState(ri.leaderState);
      m.succip := ri.savedSuccip;
      subgoals := subgoals[curLeader := subgoals[curLeader].(resumeInfo := None)];
      if |gens| == 0 {
        return Abort("generator stack underflow");
      }
      gens := gens[..|gens| - 1];
      next := Goto(ri.savedSuccip);
    }

    /** One label of the resume entry. */
    method Resume(at: Label) returns (next: Next)
      requires Valid()
      modifies this`gens, this`cuts, this`pnegs, this`subgoals, this`consumers, this`r1, this`curLeader
      modifies m, m.nondet, m.det
      ensures Valid()
      ensures var st := Steps.Resume(old(Model()), at);
        next == st.next && (!next.Abort? ==> Model() == st.world)
    {
      match at
      case StartCompletionOp => next := StartCompletion();
      case LoopOverSubgoals => next := LoopOverSubgoalsStep();
      case LoopOverSuspensions => next := LoopOverSuspensionsStep();
      case ReturnAnswer => next := ReturnAnswerStep();
      case RedoPoint => next := RedoPointStep();
      case RestartPoint => next := RestartPointStep();
      case FixPointCheck => next := FixPointCheckStep();
      case ReachedFixpoint => next := ReachedFixpointStep();
    }

    /** MR_table_nondet_commit: commit the top cut, then fail. */
    method TableNondetCommit() returns (next: Next)
      modifies this`gens, this`cuts, m
      ensures var st := Steps.TableNondetCommit(old(Model()));
        next == st.next && (!next.Abort? ==> Model() == st.world)
    {
      if |cuts| == 0 || !(0 <= cuts[|cuts| - 1].genNext <= |gens|) {
        return Abort("cut stack underflow");
      }
      gens := gens[..cuts[|cuts| - 1].genNext];
      cuts := cuts[..|cuts| - 1];
      if !(0 <= m.maxfr < m.nondet.Length && 2 <= m.nondet[m.maxfr] < m.nondet.Length) {
        return Abort("MR_fail outside the nondet stack");
      }
      var target := m.Fail();
      next := Goto(target);
    }
  }
}
