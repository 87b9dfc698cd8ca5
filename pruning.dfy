/** The walk of prune_right_branches (runtime/mercury_minimal_model.c), as a
    pure function on the saved copy of a nondet stack segment. The walk visits
    the frames of the copy from the top down and rewrites the redoip slots of
    some frames on the main branch, so that when the copy is put back on the
    stack, backtracking out of it does not re-enter computations the tabling
    engine has taken over.

    The walk reads the generator and cut stacks but never changes them; its
    only effects outside the copy are the merges it asks for (calls of
    make_subgoal_follow_leader), which the engine performs as they come and
    which touch neither the copy nor those stacks. */
module Pruning {
  import opened Stacks
  import opened Outcomes
  import opened Segments

  // Code addresses the walk writes into redoip slots.
  /** MR_ENTRY(MR_RESUME_ENTRY). */
  const RESUME_ENTRY: Word := -1
  /** MR_ENTRY(MR_do_fail). */
  const DO_FAIL: Word := -2
  /** MR_ENTRY(MR_table_nondet_commit). */
  const TABLE_NONDET_COMMIT: Word := -3

  /** The branch of the walk's if-chain taken at one frame. */
  datatype Action =
    | Pruned          // inside the part an earlier pruning already covered
    | OffMainBranch   // its redofr is not the main branch frame
    | BottomFrame     // the bottom frame of an extension
    | OwnGenerator    // the frame of the generator of the subgoal being suspended
    | OtherGenerator  // the frame of another active generator
    | CutFrame        // the temp frame of an active commit
    | Untouched       // none of the above

  /** The redoip the walk writes for an action, if any. (The fall-through
      branch clobbers the redoip only in debugging builds.) */
  function Written(a: Action): Option<Word> {
    match a
    case BottomFrame => Some(RESUME_ENTRY)
    case OwnGenerator => Some(RESUME_ENTRY)
    case OtherGenerator => Some(DO_FAIL)
    case CutFrame => Some(TABLE_NONDET_COMMIT)
    case _ => None
  }

  /** One visited frame, by its offset in the copy, and what was done to it. */
  datatype Visit = Visit(fr: int, action: Action)

  /** The inputs the walk only reads. */
  datatype Env<S> = Env(
    realStart: int,                // where the copy lives on the real stack
    atBottom: bool,                // generator_is_at_bottom: already_pruned > 0
    gens: seq<GenStackFrame<S>>,   // the live generator stack, MR_gen_next entries
    cuts: seq<CutStackFrame<S>>,   // the live cut stack, MR_cut_next entries
    subgoal: Option<S>)            // the subgoal argument; None is NULL

  /** The walk's state. `fr` is saved_fr as an offset into `block` (offset -1
      is saved_stop_fr); `genNext` is the saved state's gen_next; `merges`
      lists the generators' subgoals the walk made follow `subgoal`, in
      order; `visits` records the frames visited. */
  datatype Walk<S> = Walk(
    block: seq<Word>, fr: int, alreadyPruned: int, mainFr: int,
    curGen: int, curCut: int, genNext: int,
    merges: seq<S>, visits: seq<Visit>, fault: Outcome)

  /** The real address of the walk's current frame: Fatal outside the copy. */
  function RealFr<S>(env: Env<S>, w: Walk<S>): Option<int> {
    SavedToReal(env.realStart, |w.block|, w.fr)
  }

  /** The size of the frame at offset w.fr: its real address less its
      prevfr. */
  function Size<S>(env: Env<S>, w: Walk<S>): int
    requires 0 <= w.fr < |w.block|
  {
    env.realStart + w.fr - w.block[w.fr + PREVFR]
  }

  /** The frame at offset w.fr is tested as a main branch frame: nothing is
      left of the part already pruned and its redofr, which lies in the copy,
      is the main branch frame. */
  predicate OnMainBranch<S>(w: Walk<S>)
    requires 0 <= w.fr < |w.block|
  {
    w.alreadyPruned <= 0 && 2 <= w.fr && w.block[w.fr + REDOFR] == w.mainFr
  }

  /** In an extension's walk, the frame of size frameSize is the bottom frame
      of the copy: the next frame is saved_stop_fr. */
  predicate AtBottomFrame<S>(env: Env<S>, w: Walk<S>, frameSize: int) {
    env.atBottom && w.fr - frameSize == -1
  }

  /** In a suspension's walk, the frame at realFr is that of the generator
      stack entry cur_gen. */
  predicate AtGenerator<S>(env: Env<S>, w: Walk<S>, realFr: int) {
    !env.atBottom && 0 <= w.curGen < |env.gens| && realFr == env.gens[w.curGen].frame
  }

  /** In an extension's walk, the frame at realFr is that of the cut stack
      entry cur_cut, which is not entry 0. */
  predicate AtCut<S>(env: Env<S>, w: Walk<S>, realFr: int) {
    env.atBottom && 0 < w.curCut < |env.cuts| && realFr == env.cuts[w.curCut].frame
  }

  /** The branch taken at the frame at offset w.fr, whose real address is
      realFr and whose size is frameSize: each branch exactly under the
      condition of its arm of the source's if-chain, tested in order. None
      when the branch condition reads the redofr slot from below the copy, or
      reads MR_gen_stack[cur_gen] with cur_gen outside the live entries
      (below entry 0 once the walk has passed them all). */
  function Classify<S(==)>(env: Env<S>, w: Walk<S>, realFr: int, frameSize: int): (a: Option<Action>)
    requires 0 <= w.fr < |w.block|
    ensures a == Some(Pruned) <==> w.alreadyPruned > 0
    ensures a == Some(OffMainBranch) <==> w.alreadyPruned <= 0 && 2 <= w.fr && w.block[w.fr + REDOFR] != w.mainFr
    ensures a == Some(BottomFrame) <==> OnMainBranch(w) && AtBottomFrame(env, w, frameSize)
    ensures a == Some(OwnGenerator) <==>
              OnMainBranch(w) && AtGenerator(env, w, realFr) && env.subgoal == Some(env.gens[w.curGen].subgoal)
    ensures a == Some(OtherGenerator) <==>
              OnMainBranch(w) && AtGenerator(env, w, realFr) && env.subgoal != Some(env.gens[w.curGen].subgoal)
    ensures a == Some(CutFrame) <==> OnMainBranch(w) && !AtBottomFrame(env, w, frameSize) && AtCut(env, w, realFr)
    ensures a == Some(Untouched) <==>
              OnMainBranch(w) && !AtBottomFrame(env, w, frameSize) && !AtCut(env, w, realFr) &&
              (env.atBottom || (0 <= w.curGen < |env.gens| && realFr != env.gens[w.curGen].frame))
    ensures a.None? <==>
              w.alreadyPruned <= 0 &&
              (w.fr < 2 || (w.block[w.fr + REDOFR] == w.mainFr && !env.atBottom && !(0 <= w.curGen < |env.gens|)))
  {
    if w.alreadyPruned > 0 then Some(Pruned)
    else if w.fr + REDOFR < 0 then None
    else if w.block[w.fr + REDOFR] != w.mainFr then Some(OffMainBranch)
    else if env.atBottom && w.fr - frameSize == -1 then Some(BottomFrame)
    else if !env.atBottom && !(0 <= w.curGen < |env.gens|) then None
    else if !env.atBottom && realFr == env.gens[w.curGen].frame then
      (if env.subgoal == Some(env.gens[w.curGen].subgoal) then Some(OwnGenerator) else Some(OtherGenerator))
    else if env.atBottom && 0 < w.curCut < |env.cuts| && realFr == env.cuts[w.curCut].frame then Some(CutFrame)
    else Some(Untouched)
  }

  /** The step's outcome once the branch is known. `asWritten` selects the
      other-generator assertion as the source writes it, which translates
      the stop pointer one word below the copy and therefore always fails;
      otherwise the assertion compares against the real address just below
      the copy, as its authors evidently intended. */
  function Apply<S(==)>(env: Env<S>, w: Walk<S>, a: Action, realFr: int, frameSize: int, asWritten: bool): (r: Walk<S>)
    requires 0 <= w.fr < |w.block| && w.fault.Ok? && frameSize > 0
    requires a == OwnGenerator || a == OtherGenerator ==> 0 <= w.curGen < |env.gens|
    requires a == OwnGenerator ==> env.subgoal.Some?
    requires a == CutFrame ==> 0 < w.curCut
    requires a == Pruned ==> w.alreadyPruned > 0
    requires a == OffMainBranch ==> 2 <= w.fr && w.block[w.fr + REDOFR] != w.mainFr
    requires a == BottomFrame || a == CutFrame ==> env.atBottom
    requires a == OwnGenerator || a == OtherGenerator ==> !env.atBottom
    ensures |r.block| == |w.block| && r.fr <= w.fr && r.curGen <= w.curGen
    ensures r.fault.Ok? ==> Advances(w, r) && r.visits[|w.visits|].action == a
    ensures r.fault.Ok? && a != OwnGenerator ==> r.genNext == w.genNext
    ensures r.fault.Ok? && a != OtherGenerator ==> r.merges == w.merges
    ensures r.fault.Ok? && a == OwnGenerator ==> 0 < r.genNext <= |env.gens|
    ensures r.fault.Ok? && a == OtherGenerator ==> env.subgoal.Some?
    ensures r.fault.Fatal? ==> r == w.(fault := r.fault)
  {
    var ordinary := frameSize >= NONDET_FIXED_SIZE;
    var moved := w.(fr := w.fr - frameSize, visits := w.visits + [Visit(w.fr, a)]);
    if Written(a).Some? && w.fr + REDOIP < 0 then
      w.(fault := Fatal("redoip slot below the saved block"))
    else
      match a
      case Pruned =>
        if realFr == w.mainFr && ordinary then
          (if w.fr + SUCCFR < 0 then w.(fault := Fatal("succfr slot below the saved block"))
           else moved.(alreadyPruned := w.alreadyPruned - frameSize, mainFr := w.block[w.fr + SUCCFR]))
        else moved.(alreadyPruned := w.alreadyPruned - frameSize)
      case OffMainBranch => moved
      case BottomFrame => moved.(block := w.block[w.fr + REDOIP := RESUME_ENTRY])
      case OwnGenerator =>
        if !ordinary then w.(fault := Fatal("assertion failed: ordinary"))
        else moved.(block := w.block[w.fr + REDOIP := RESUME_ENTRY],
                    genNext := w.curGen + 1, curGen := w.curGen - 1)
      case OtherGenerator =>
        if env.subgoal.None? then w.(fault := Fatal("assertion failed: subgoal != NULL"))
        else if !ordinary then w.(fault := Fatal("assertion failed: ordinary"))
        else if asWritten then w.(fault := Fatal("saved_to_real_nondet_stack: out of bounds"))
        else if w.block[w.fr + PREVFR] == env.realStart - 1 then
          w.(fault := Fatal("assertion failed: prevfr is not the stop frame"))
        else moved.(block := w.block[w.fr + REDOIP := DO_FAIL],
                    merges := w.merges + [env.gens[w.curGen].subgoal], curGen := w.curGen - 1)
      case CutFrame =>
        if ordinary then w.(fault := Fatal("assertion failed: ! ordinary"))
        else moved.(block := w.block[w.fr + REDOIP := TABLE_NONDET_COMMIT], curCut := w.curCut - 1)
      case Untouched => moved
  }

  /** w moved down past its frame of size frameSize, which is recorded as
      visited with the action a. */
  function Moved<S>(w: Walk<S>, frameSize: int, a: Action): Walk<S> {
    w.(fr := w.fr - frameSize, visits := w.visits + [Visit(w.fr, a)])
  }

  /** The visits b continue the visits a. */
  predicate Extends(a: seq<Visit>, b: seq<Visit>) {
    |a| <= |b| && forall j :: 0 <= j < |a| ==> b[j] == a[j]
  }

  /** r is w one frame further down: the frame at w.fr is recorded as
      visited, and the copy differs at most at that frame's redoip slot, which
      holds the code address its branch writes. */
  ghost predicate Advances<S>(w: Walk<S>, r: Walk<S>) {
    r.fr < w.fr < |w.block| == |r.block| && |r.visits| == |w.visits| + 1 &&
    Extends(w.visits, r.visits) && r.visits[|w.visits|].fr == w.fr &&
    (var a := r.visits[|w.visits|].action;
     if Written(a).Some? then 1 <= w.fr && r.block == w.block[w.fr + REDOIP := Written(a).value]
     else r.block == w.block)
  }

  /** Why the branch of the frame at offset w.fr cannot be found. */
  function ClassifyFault<S>(w: Walk<S>): string {
    if w.fr + REDOFR < 0 then "redofr slot below the saved block" else "MR_gen_stack read outside its live entries"
  }

  /** One iteration of the walk's loop, at the frame at offset w.fr. */
  function StepWith<S(==)>(env: Env<S>, w: Walk<S>, asWritten: bool): (r: Walk<S>)
    requires w.fault.Ok? && 0 <= w.fr < |w.block|
    ensures |r.block| == |w.block| && r.fr <= w.fr
    ensures r.fault.Ok? ==> Advances(w, r)
    ensures r.fault.Ok? && r.visits[|w.visits|].action == Pruned ==> w.alreadyPruned > 0
    ensures r.fault.Ok? && r.visits[|w.visits|].action == OffMainBranch ==>
              2 <= w.fr && w.block[w.fr + REDOFR] != w.mainFr
    ensures r.fault.Ok? && env.atBottom ==>
              r.merges == w.merges && r.genNext == w.genNext &&
              r.visits[|w.visits|].action != OwnGenerator && r.visits[|w.visits|].action != OtherGenerator
    ensures r.fault.Ok? && !env.atBottom ==>
              (r.genNext == w.genNext || 0 < r.genNext <= |env.gens|) &&
              r.visits[|w.visits|].action != BottomFrame && r.visits[|w.visits|].action != CutFrame
    ensures r.fault.Ok? && env.subgoal.None? ==> r.merges == w.merges
    ensures r.curGen <= w.curGen
    ensures r.fault.Fatal? ==> r == w.(fault := r.fault)
  {
    var realAddr := RealFr(env, w);
    if realAddr.None? then w.(fault := Fatal("saved_to_real_nondet_stack: out of bounds"))
    else
      var frameSize := realAddr.value - w.block[w.fr + PREVFR];
      if frameSize == 0 then w.(fault := Fatal("frame of size zero: the walk would not move"))
      else if frameSize < 0 then w.(fault := Fatal("prevfr above the frame: the walk would move up"))
      else
        var a := Classify(env, w, realAddr.value, frameSize);
        if a.None? then w.(fault := Fatal(ClassifyFault(w)))
        else Apply(env, w, a.value, realAddr.value, frameSize, asWritten)
  }

  /** The loop of prune_right_branches: step while saved_fr is above
      saved_stop_fr, stopping at the first fatal error. */
  function RunWith<S(==)>(env: Env<S>, w: Walk<S>, asWritten: bool): (r: Walk<S>)
    requires w.fr < |w.block|
    ensures |r.block| == |w.block|
    ensures r.fault.Ok? ==> r.fr < 0
    decreases Height(w.fr + 1)
  {
    if w.fault.Fatal? || w.fr < 0 then w
    else
      var next := StepWith(env, w, asWritten);
      if next.fault.Fatal? then next else RunWith(env, next, asWritten)
  }

  /** The walk's state on entry: at the top frame of the copy, whose real
      address is the first main branch frame; Fatal when the copy is empty,
      since that translation is then out of bounds. */
  function Start<S>(env: Env<S>, block: seq<Word>, alreadyPruned: int, genNext: int): (w: Walk<S>)
    ensures w.fr < |w.block| && w.block == block && w.visits == [] && w.merges == []
    ensures w.fault.Ok? <==> |block| > 0
    ensures w.fault.Ok? ==> w.fr == |block| - 1 && w.mainFr == env.realStart + |block| - 1
    ensures w.curGen == |env.gens| - 1 && w.curCut == |env.cuts| - 1 && w.genNext == genNext
  {
    var main := SavedToReal(env.realStart, |block|, |block| - 1);
    Walk(block, |block| - 1, alreadyPruned, if main.Some? then main.value else 0,
         |env.gens| - 1, |env.cuts| - 1, genNext, [], [],
         if main.Some? then Ok else Fatal("saved_to_real_nondet_stack: out of bounds"))
  }

  /** prune_right_branches with the assertion as its authors intended. */
  function Prune<S(==)>(env: Env<S>, block: seq<Word>, alreadyPruned: int, genNext: int): Walk<S> {
    RunWith(env, Start(env, block, alreadyPruned, genNext), false)
  }

  /** prune_right_branches exactly as written. */
  function PruneAsWritten<S(==)>(env: Env<S>, block: seq<Word>, alreadyPruned: int, genNext: int): Walk<S> {
    RunWith(env, Start(env, block, alreadyPruned, genNext), true)
  }

  // ---------------------------------------------------------------------
  // Each arm of the loop body

  /** Inside the part already pruned, the frame is only counted off, and a
      main branch frame of ordinary size passes the main branch on to its
      succfr. */
  lemma StepPruned<S>(env: Env<S>, w: Walk<S>, asWritten: bool)
    requires w.fault.Ok? && 0 <= w.fr < |w.block| && Size(env, w) > 0
    requires w.alreadyPruned > 0
    ensures var n := Size(env, w); var r := StepWith(env, w, asWritten);
      var next := env.realStart + w.fr == w.mainFr && n >= NONDET_FIXED_SIZE;
      (next && w.fr + SUCCFR < 0 ==> r.fault.Fatal?) &&
      (!(next && w.fr + SUCCFR < 0) ==>
         r == Moved(w, n, Pruned).(alreadyPruned := w.alreadyPruned - n,
                                   mainFr := if next then w.block[w.fr + SUCCFR] else w.mainFr))
  {
    assert RealFr(env, w) == Some(env.realStart + w.fr);
  }

  /** A frame whose redofr is not the main branch frame is passed over. */
  lemma StepOffMain<S>(env: Env<S>, w: Walk<S>, asWritten: bool)
    requires w.fault.Ok? && 0 <= w.fr < |w.block| && Size(env, w) > 0
    requires w.alreadyPruned <= 0 && 2 <= w.fr && w.block[w.fr + REDOFR] != w.mainFr
    ensures StepWith(env, w, asWritten) == Moved(w, Size(env, w), OffMainBranch)
  {
    assert RealFr(env, w) == Some(env.realStart + w.fr);
  }

  /** In an extension's walk, the bottom frame of the copy, on the main
      branch, gets the resume entry as its redoip, so that backtracking into
      the restored copy schedules completion. */
  lemma StepBottomFrame<S>(env: Env<S>, w: Walk<S>, asWritten: bool)
    requires w.fault.Ok? && 0 <= w.fr < |w.block| && Size(env, w) > 0
    requires OnMainBranch(w) && AtBottomFrame(env, w, Size(env, w))
    ensures StepWith(env, w, asWritten) ==
              Moved(w, Size(env, w), BottomFrame).(block := w.block[w.fr + REDOIP := RESUME_ENTRY])
  {
    assert RealFr(env, w) == Some(env.realStart + w.fr);
  }

  /** In a suspension's walk, the frame of the generator of the subgoal
      being suspended gets the resume entry as its redoip, and the saved
      gen_next becomes one past that generator's entry; a frame of temp size
      there fails the source's assertion. */
  lemma StepOwnGenerator<S>(env: Env<S>, w: Walk<S>, asWritten: bool)
    requires w.fault.Ok? && 0 <= w.fr < |w.block| && Size(env, w) > 0
    requires OnMainBranch(w) && AtGenerator(env, w, env.realStart + w.fr)
    requires env.subgoal == Some(env.gens[w.curGen].subgoal)
    ensures var r := StepWith(env, w, asWritten);
      (Size(env, w) >= NONDET_FIXED_SIZE ==>
         r == Moved(w, Size(env, w), OwnGenerator).(block := w.block[w.fr + REDOIP := RESUME_ENTRY],
                                                    genNext := w.curGen + 1, curGen := w.curGen - 1)) &&
      (Size(env, w) < NONDET_FIXED_SIZE ==> r.fault == Fatal("assertion failed: ordinary"))
  {
    assert RealFr(env, w) == Some(env.realStart + w.fr);
  }

  /** In a suspension's walk, the frame of any other generator gets do_fail
      as its redoip and that generator's subgoal is asked to follow the
      subgoal being suspended, provided the source's three assertions hold:
      there is a subgoal, the frame is ordinary, and its prevfr is not the
      stop frame. */
  lemma StepOtherGenerator<S>(env: Env<S>, w: Walk<S>)
    requires w.fault.Ok? && 0 <= w.fr < |w.block| && Size(env, w) > 0
    requires OnMainBranch(w) && AtGenerator(env, w, env.realStart + w.fr)
    requires env.subgoal != Some(env.gens[w.curGen].subgoal)
    ensures var r := StepWith(env, w, false);
      var holds := env.subgoal.Some? && Size(env, w) >= NONDET_FIXED_SIZE &&
                   w.block[w.fr + PREVFR] != env.realStart - 1;
      (holds ==>
         r == Moved(w, Size(env, w), OtherGenerator).(block := w.block[w.fr + REDOIP := DO_FAIL],
                                                      merges := w.merges + [env.gens[w.curGen].subgoal],
                                                      curGen := w.curGen - 1)) &&
      (!holds ==> r.fault.Fatal? && r.merges == w.merges)
  {
    assert RealFr(env, w) == Some(env.realStart + w.fr);
  }

  /** In an extension's walk, the temp frame of an active commit (other
      than cut stack entry 0) gets table_nondet_commit as its redoip; a frame
      of ordinary size there fails the source's assertion. */
  lemma StepCutFrame<S>(env: Env<S>, w: Walk<S>, asWritten: bool)
    requires w.fault.Ok? && 0 <= w.fr < |w.block| && Size(env, w) > 0
    requires OnMainBranch(w) && !AtBottomFrame(env, w, Size(env, w)) && AtCut(env, w, env.realStart + w.fr)
    ensures var r := StepWith(env, w, asWritten);
      (Size(env, w) < NONDET_FIXED_SIZE ==>
         r == Moved(w, Size(env, w), CutFrame).(block := w.block[w.fr + REDOIP := TABLE_NONDET_COMMIT],
                                                curCut := w.curCut - 1)) &&
      (Size(env, w) >= NONDET_FIXED_SIZE ==> r.fault == Fatal("assertion failed: ! ordinary"))
  {
    assert RealFr(env, w) == Some(env.realStart + w.fr);
  }

  /** Any other main branch frame is left as it is. */
  lemma StepUntouched<S>(env: Env<S>, w: Walk<S>, asWritten: bool)
    requires w.fault.Ok? && 0 <= w.fr < |w.block| && Size(env, w) > 0
    requires OnMainBranch(w) && !AtBottomFrame(env, w, Size(env, w)) && !AtCut(env, w, env.realStart + w.fr)
    requires env.atBottom || (0 <= w.curGen < |env.gens| && env.realStart + w.fr != env.gens[w.curGen].frame)
    ensures StepWith(env, w, asWritten) == Moved(w, Size(env, w), Untouched)
  {
    assert RealFr(env, w) == Some(env.realStart + w.fr);
  }

  /** The step stops with a fatal error at a frame whose size is not
      positive, at a frame too low in the copy for its redofr to be read, and
      at a main branch frame of a suspension's walk once the generator stack
      has been passed. */
  lemma StepStops<S>(env: Env<S>, w: Walk<S>, asWritten: bool)
    requires w.fault.Ok? && 0 <= w.fr < |w.block|
    ensures Size(env, w) <= 0 ==> StepWith(env, w, asWritten).fault.Fatal?
    ensures Size(env, w) > 0 && w.alreadyPruned <= 0 && w.fr < 2 ==>
              StepWith(env, w, asWritten).fault == Fatal("redofr slot below the saved block")
    ensures Size(env, w) > 0 && OnMainBranch(w) && !env.atBottom && !(0 <= w.curGen < |env.gens|) ==>
              StepWith(env, w, asWritten).fault == Fatal("MR_gen_stack read outside its live entries")
  {
    assert RealFr(env, w) == Some(env.realStart + w.fr);
  }

  // ---------------------------------------------------------------------
  // What the walk does to the copy

  /** The visited frames, top down, all below `above`. */
  predicate Descending(visits: seq<Visit>, above: int) {
    (forall j :: 0 <= j < |visits| ==> visits[j].fr < above) &&
    (forall i, j :: 0 <= i < j < |visits| ==> visits[i].fr > visits[j].fr)
  }

  /** The word i is the redoip slot of no visited frame whose action
      writes one. */
  predicate NotWritten(visits: seq<Visit>, i: int) {
    forall j :: 0 <= j < |visits| ==> visits[j].fr + REDOIP != i || Written(visits[j].action).None?
  }

  /** The copy `block` differs from `base` exactly by the redoip writes the
      visits record. */
  predicate WritesRecorded(base: seq<Word>, block: seq<Word>, visits: seq<Visit>) {
    |block| == |base| &&
    (forall j :: 0 <= j < |visits| && Written(visits[j].action).Some? ==>
       0 <= visits[j].fr + REDOIP < |block| && block[visits[j].fr + REDOIP] == Written(visits[j].action).value) &&
    (forall i :: 0 <= i < |block| && NotWritten(visits, i) ==> block[i] == base[i])
  }

  /** A walk in progress from the copy `base`: everything visited so far lies
      above the current frame, in descending order, and the copy differs
      from `base` exactly by the recorded redoip writes. */
  predicate InProgress<S>(base: seq<Word>, w: Walk<S>) {
    w.fr < |w.block| && Descending(w.visits, |w.block|) &&
    (forall j :: 0 <= j < |w.visits| ==> w.visits[j].fr > w.fr) &&
    WritesRecorded(base, w.block, w.visits)
  }

  lemma AdvanceKeepsInProgress<S>(base: seq<Word>, w: Walk<S>, r: Walk<S>)
    requires 0 <= w.fr && InProgress(base, w) && Advances(w, r)
    ensures InProgress(base, r)
  {
    var n := |w.visits|;
    var a := r.visits[n].action;
    forall j | 0 <= j < |r.visits| && Written(r.visits[j].action).Some?
      ensures 0 <= r.visits[j].fr + REDOIP < |r.block|
      ensures r.block[r.visits[j].fr + REDOIP] == Written(r.visits[j].action).value
    {
      if j < n {
        assert r.visits[j] == w.visits[j];
      }
    }
    forall i | 0 <= i < |r.block| && NotWritten(r.visits, i)
      ensures r.block[i] == base[i]
    {
      assert NotWritten(w.visits, i);
      assert r.visits[n].fr + REDOIP != i || Written(a).None?;
    }
  }

  /** The whole walk from a state in progress. */
  lemma {:induction false} RunKeepsInProgress<S>(env: Env<S>, base: seq<Word>, w: Walk<S>, asWritten: bool)
    requires InProgress(base, w)
    ensures InProgress(base, RunWith(env, w, asWritten))
    ensures Extends(w.visits, RunWith(env, w, asWritten).visits)
    ensures w.fault.Ok? && 0 <= w.fr && |RunWith(env, w, asWritten).visits| > |w.visits| ==>
              RunWith(env, w, asWritten).visits[|w.visits|].fr == w.fr
    decreases Height(w.fr + 1)
  {
    if w.fault.Ok? && 0 <= w.fr {
      var w1 := StepWith(env, w, asWritten);
      if w1.fault.Ok? {
        assert RunWith(env, w, asWritten) == RunWith(env, w1, asWritten);
        AdvanceKeepsInProgress(base, w, w1);
        RunKeepsInProgress(env, base, w1, asWritten);
      } else {
        assert RunWith(env, w, asWritten) == w1;
      }
    }
  }

  /** The branch the walk takes at the frame at offset w.fr, when the
      frame's size is positive and its branch can be found. */
  function ActionAt<S(==)>(env: Env<S>, w: Walk<S>): Option<Action>
    requires 0 <= w.fr < |w.block|
  {
    if Size(env, w) <= 0 then None else Classify(env, w, env.realStart + w.fr, Size(env, w))
  }

  /** The states of the walk from w at which a step was taken and did not
      stop it, in order. */
  function Trace<S(==)>(env: Env<S>, w: Walk<S>, asWritten: bool): seq<Walk<S>>
    requires w.fr < |w.block|
    decreases Height(w.fr + 1)
  {
    if w.fault.Fatal? || w.fr < 0 then []
    else
      var next := StepWith(env, w, asWritten);
      if next.fault.Fatal? then [] else [w] + Trace(env, next, asWritten)
  }

  /** From the state t the walk took a step that did not stop it, and
      recorded the visit v: t's frame with the branch ActionAt finds there. */
  ghost predicate Taken<S>(env: Env<S>, t: Walk<S>, v: Visit, asWritten: bool) {
    t.fault.Ok? && 0 <= t.fr < |t.block| && StepWith(env, t, asWritten).fault.Ok? &&
    ActionAt(env, t).Some? && v == Visit(t.fr, ActionAt(env, t).value)
  }

  /** A step that does not stop the walk records its frame with the branch
      ActionAt finds there. */
  lemma StepRecordsAction<S>(env: Env<S>, w: Walk<S>, asWritten: bool)
    requires w.fault.Ok? && 0 <= w.fr < |w.block| && StepWith(env, w, asWritten).fault.Ok?
    ensures Taken(env, w, StepWith(env, w, asWritten).visits[|w.visits|], asWritten)
  {
    assert RealFr(env, w) == Some(env.realStart + w.fr);
  }

  /** The trace from a state that takes a step is that state followed by
      the trace from the step, and the walk from it is the walk from the
      step. */
  lemma TraceUnfolds<S>(env: Env<S>, w: Walk<S>, asWritten: bool)
    requires w.fault.Ok? && 0 <= w.fr < |w.block| && StepWith(env, w, asWritten).fault.Ok?
    ensures Trace(env, w, asWritten) == [w] + Trace(env, StepWith(env, w, asWritten), asWritten)
    ensures RunWith(env, w, asWritten) == RunWith(env, StepWith(env, w, asWritten), asWritten)
  {
  }

  /** Each state of the trace is the step from the one before, and the
      trace starts at w. */
  lemma {:induction false} TraceSteps<S>(env: Env<S>, w: Walk<S>, asWritten: bool)
    requires w.fr < |w.block|
    ensures var ts := Trace(env, w, asWritten);
      (|ts| > 0 ==> ts[0] == w) &&
      forall i :: 0 <= i < |ts| - 1 ==>
        (ts[i].fault.Ok? && 0 <= ts[i].fr < |ts[i].block| && ts[i + 1] == StepWith(env, ts[i], asWritten))
    decreases Height(w.fr + 1)
  {
    if w.fault.Ok? && 0 <= w.fr && StepWith(env, w, asWritten).fault.Ok? {
      var next := StepWith(env, w, asWritten);
      var rest := Trace(env, next, asWritten);
      TraceUnfolds(env, w, asWritten);
      TraceSteps(env, next, asWritten);
      var ts := [w] + rest;
      forall i | 0 <= i < |ts| - 1
        ensures ts[i].fault.Ok? && 0 <= ts[i].fr < |ts[i].block| && ts[i + 1] == StepWith(env, ts[i], asWritten)
      {
        if i > 0 {
          assert ts[i] == rest[i - 1] && ts[i + 1] == rest[i];
        }
      }
    }
  }

  /** The walk from w keeps the visits of w and records one more for each
      state of its trace. */
  lemma {:induction false} TraceLength<S>(env: Env<S>, w: Walk<S>, asWritten: bool)
    requires w.fr < |w.block|
    ensures var r := RunWith(env, w, asWritten);
      |r.visits| == |w.visits| + |Trace(env, w, asWritten)| && Extends(w.visits, r.visits)
    decreases Height(w.fr + 1)
  {
    if w.fault.Ok? && 0 <= w.fr && StepWith(env, w, asWritten).fault.Ok? {
      TraceUnfolds(env, w, asWritten);
      TraceLength(env, StepWith(env, w, asWritten), asWritten);
    }
  }

  /** The states ts recorded the visits vs from offset n on, one each. */
  ghost predicate TakenFrom<S>(env: Env<S>, ts: seq<Walk<S>>, vs: seq<Visit>, n: int, asWritten: bool) {
    0 <= n && n + |ts| <= |vs| && forall i :: 0 <= i < |ts| ==> Taken(env, ts[i], vs[n + i], asWritten)
  }

  /** The whole walk r from w as its trace ts: the i-th frame the walk
      visits is the frame of the i-th state of the trace, visited with the
      branch ActionAt finds there. */
  lemma {:induction false} TraceOfRun<S>(env: Env<S>, w: Walk<S>, asWritten: bool, r: Walk<S>, ts: seq<Walk<S>>)
    requires w.fr < |w.block| && r == RunWith(env, w, asWritten) && ts == Trace(env, w, asWritten)
    ensures |r.visits| == |w.visits| + |ts| && TakenFrom(env, ts, r.visits, |w.visits|, asWritten)
    decreases Height(w.fr + 1)
  {
    TraceLength(env, w, asWritten);
    if w.fault.Ok? && 0 <= w.fr && StepWith(env, w, asWritten).fault.Ok? {
      var next := StepWith(env, w, asWritten);
      TraceUnfolds(env, w, asWritten);
      var rest := Trace(env, next, asWritten);
      TraceOfRun(env, next, asWritten, r, rest);
      RunRecordsAction(env, w, asWritten);
      TakenShifts(env, w, |w.visits|, |next.visits|, r.visits, rest, ts, asWritten);
    } else {
      TraceStops(env, w, asWritten);
    }
  }

  /** A state that takes no step has an empty trace. */
  lemma TraceStops<S>(env: Env<S>, w: Walk<S>, asWritten: bool)
    requires w.fr < |w.block|
    requires !(w.fault.Ok? && 0 <= w.fr && StepWith(env, w, asWritten).fault.Ok?)
    ensures Trace(env, w, asWritten) == []
  {
  }

  /** The first visit the walk from w records is the one its first step
      records. */
  lemma RunRecordsAction<S>(env: Env<S>, w: Walk<S>, asWritten: bool)
    requires w.fault.Ok? && 0 <= w.fr < |w.block| && StepWith(env, w, asWritten).fault.Ok?
    ensures |RunWith(env, w, asWritten).visits| > |w.visits|
    ensures Taken(env, w, RunWith(env, w, asWritten).visits[|w.visits|], asWritten)
  {
    var next := StepWith(env, w, asWritten);
    TraceUnfolds(env, w, asWritten);
    TraceLength(env, next, asWritten);
    StepRecordsAction(env, w, asWritten);
    assert RunWith(env, w, asWritten).visits[|w.visits|] == next.visits[|w.visits|];
  }

  /** The visits recorded from the states t0, t1, ... shift by one when a
      state is put in front. */
  lemma TakenShifts<S>(env: Env<S>, w: Walk<S>, n: int, m: int, vs: seq<Visit>, rest: seq<Walk<S>>,
                       ts: seq<Walk<S>>, asWritten: bool)
    requires ts == [w] + rest && 0 <= n && m == n + 1
    requires n < |vs| && Taken(env, w, vs[n], asWritten) && TakenFrom(env, rest, vs, m, asWritten)
    ensures TakenFrom(env, ts, vs, n, asWritten)
  {
    forall i | 0 <= i < |ts| ensures Taken(env, ts[i], vs[n + i], asWritten) {
      if i > 0 {
        assert ts[i] == rest[i - 1] && n + i == m + (i - 1);
      }
    }
  }

  /** The walk visits frames of the copy from the top down; it changes only
      the redoip slots of the frames whose branch writes one, each to the code
      address of that branch; every other word of the copy, in particular the
      redoip of every frame off the main branch, keeps its value. */
  lemma PruneRewritesOnlyRedoips<S>(env: Env<S>, block: seq<Word>, alreadyPruned: int, genNext: int)
    ensures var r := Prune(env, block, alreadyPruned, genNext);
      Descending(r.visits, |block|) &&
      (|r.visits| > 0 ==> r.visits[0].fr == |block| - 1) &&
      WritesRecorded(block, r.block, r.visits)
    ensures var r := Prune(env, block, alreadyPruned, genNext);
      forall j :: 0 <= j < |r.visits| && Written(r.visits[j].action).None? && 1 <= r.visits[j].fr ==>
        r.block[r.visits[j].fr + REDOIP] == block[r.visits[j].fr + REDOIP]
  {
    var w := Start(env, block, alreadyPruned, genNext);
    var r := Prune(env, block, alreadyPruned, genNext);
    RunKeepsInProgress(env, block, w, false);
    UnwrittenRedoipsKept(block, r.block, r.visits, |block|);
  }

  /** When the visited frames are distinct, the redoip of a visited frame
      whose branch writes nothing is as it was in the base. */
  lemma UnwrittenRedoipsKept(base: seq<Word>, block: seq<Word>, visits: seq<Visit>, above: int)
    requires Descending(visits, above) && WritesRecorded(base, block, visits)
    ensures forall j :: 0 <= j < |visits| && Written(visits[j].action).None? && 1 <= visits[j].fr < |block| + 1 ==>
              block[visits[j].fr + REDOIP] == base[visits[j].fr + REDOIP]
  {
    forall j | 0 <= j < |visits| && Written(visits[j].action).None? && 1 <= visits[j].fr < |block| + 1
      ensures block[visits[j].fr + REDOIP] == base[visits[j].fr + REDOIP]
    {
      forall k | 0 <= k < |visits|
        ensures visits[k].fr + REDOIP != visits[j].fr + REDOIP || Written(visits[k].action).None?
      {
        if k != j {
          assert visits[k].fr != visits[j].fr;
        }
      }
      assert NotWritten(visits, visits[j].fr + REDOIP);
    }
  }

  /** Each frame the walk visits gets the branch the if-chain (Classify)
      gives it in the walk's state at that frame: the states form the trace
      from the start, each the step from the one before. */
  lemma PruneVisitsByBranch<S>(env: Env<S>, block: seq<Word>, alreadyPruned: int, genNext: int)
    ensures var r := Prune(env, block, alreadyPruned, genNext);
      var w0 := Start(env, block, alreadyPruned, genNext); var ts := Trace(env, w0, false);
      |r.visits| == |ts| && (|ts| > 0 ==> ts[0] == w0) &&
      forall i :: 0 <= i < |ts| ==>
        (Taken(env, ts[i], r.visits[i], false) && (i + 1 < |ts| ==> ts[i + 1] == StepWith(env, ts[i], false)))
  {
    var w0 := Start(env, block, alreadyPruned, genNext);
    TraceOfRun(env, w0, false, Prune(env, block, alreadyPruned, genNext), Trace(env, w0, false));
    TraceSteps(env, w0, false);
  }

  // ---------------------------------------------------------------------
  // The two modes

  /** What each mode of the walk can and cannot do: an extension's walk
      (generator at the bottom) never merges, never touches a generator's
      frame and never changes the saved gen_next; a suspension's walk never
      marks a bottom frame or a commit frame, and the gen_next it leaves is
      either the one it was given or one past an entry of the generator
      stack; a walk without a subgoal never merges. */
  ghost predicate ModeRespected<S>(env: Env<S>, w0: Walk<S>, r: Walk<S>) {
    (env.subgoal.None? ==> r.merges == w0.merges) &&
    (env.atBottom ==>
       (r.merges == w0.merges && r.genNext == w0.genNext &&
        forall j :: 0 <= j < |r.visits| ==> r.visits[j].action != OwnGenerator && r.visits[j].action != OtherGenerator)) &&
    (!env.atBottom ==>
       ((r.genNext == w0.genNext || 0 < r.genNext <= |env.gens|) &&
        forall j :: 0 <= j < |r.visits| ==> r.visits[j].action != BottomFrame && r.visits[j].action != CutFrame))
  }

  /** One step that keeps to its mode keeps the whole walk to it. */
  lemma AdvanceRespectsMode<S>(env: Env<S>, w0: Walk<S>, w: Walk<S>, r: Walk<S>)
    requires ModeRespected(env, w0, w) && Advances(w, r)
    requires env.subgoal.None? ==> r.merges == w.merges
    requires env.atBottom ==>
               r.merges == w.merges && r.genNext == w.genNext &&
               r.visits[|w.visits|].action != OwnGenerator && r.visits[|w.visits|].action != OtherGenerator
    requires !env.atBottom ==>
               (r.genNext == w.genNext || 0 < r.genNext <= |env.gens|) &&
               r.visits[|w.visits|].action != BottomFrame && r.visits[|w.visits|].action != CutFrame
    ensures ModeRespected(env, w0, r)
  {
    forall j | 0 <= j < |w.visits| ensures r.visits[j] == w.visits[j] { }
  }

  lemma {:induction false} RunRespectsMode<S>(env: Env<S>, w0: Walk<S>, w: Walk<S>, asWritten: bool)
    requires w.fr < |w.block| && w.curGen < |env.gens|
    requires ModeRespected(env, w0, w)
    ensures ModeRespected(env, w0, RunWith(env, w, asWritten))
    decreases Height(w.fr + 1)
  {
    if w.fault.Ok? && 0 <= w.fr {
      var w1 := StepWith(env, w, asWritten);
      if w1.fault.Ok? {
        assert RunWith(env, w, asWritten) == RunWith(env, w1, asWritten);
        AdvanceRespectsMode(env, w0, w, w1);
        RunRespectsMode(env, w0, w1, asWritten);
      } else {
        assert RunWith(env, w, asWritten) == w1;
      }
    }
  }

  lemma PruneRespectsMode<S>(env: Env<S>, block: seq<Word>, alreadyPruned: int, genNext: int)
    ensures ModeRespected(env, Start(env, block, alreadyPruned, genNext), Prune(env, block, alreadyPruned, genNext))
  {
    RunRespectsMode(env, Start(env, block, alreadyPruned, genNext), Start(env, block, alreadyPruned, genNext), false);
  }

  /** An extension's walk has no subgoal, and a walk without a subgoal never
      asks for a merge: merging needs the subgoal the others are to follow. */
  lemma PruneWithoutSubgoalNeverMerges<S>(env: Env<S>, block: seq<Word>, alreadyPruned: int, genNext: int)
    requires env.subgoal.None?
    ensures Prune(env, block, alreadyPruned, genNext).merges == []
  {
    PruneRespectsMode(env, block, alreadyPruned, genNext);
  }

  // ---------------------------------------------------------------------
  // The walk in place

  /** prune_right_branches on a saved nondet block held in an array: the
      source's loop, rewriting redoip slots of the block as it walks down.
      It returns the saved gen_next it leaves, the subgoals it wants to
      follow the given one (in the order found) and whether it stopped with
      a fatal error; all of them, and the block, are what the walk above
      computes. */
  method PruneRightBranches<S(==)>(env: Env<S>, block: array<Word>, alreadyPruned: int, genNext: int)
    returns (newGenNext: int, merges: seq<S>, fault: Outcome)
    modifies block
    ensures var r := Prune(env, old(block[..]), alreadyPruned, genNext);
      block[..] == r.block && newGenNext == r.genNext && merges == r.merges && fault == r.fault
  {
    newGenNext, merges := genNext, [];
    var n := block.Length;
    if n == 0 {
      fault := Fatal("saved_to_real_nondet_stack: out of bounds");
      return;
    }
    var fr, pruned, mainFr := n - 1, alreadyPruned, env.realStart + n - 1;
    var curGen, curCut := |env.gens| - 1, |env.cuts| - 1;
    ghost var visits: seq<Visit> := [];
    fault := Ok;
    ghost var w := Start(env, block[..], alreadyPruned, genNext);
    while fault.Ok? && fr >= 0
      invariant fr < block.Length
      invariant w == Walk(block[..], fr, pruned, mainFr, curGen, curCut, newGenNext, merges, visits, fault)
      invariant RunWith(env, w, false) == Prune(env, old(block[..]), alreadyPruned, genNext)
      decreases fr + 1, if fault.Ok? then 1 else 0
    {
      ghost var next := StepWith(env, w, false);
      assert RunWith(env, w, false) == (if next.fault.Fatal? then next else RunWith(env, next, false));
      fr, pruned, mainFr, curGen, curCut, newGenNext, merges, fault, visits :=
        PruneFrame(env, block, w, fr, pruned, mainFr, curGen, curCut, newGenNext, merges, visits);
      w := next;
    }
  }

  /** One iteration of prune_right_branches, at the frame at offset fr of the
      block: the step of the walk above, done in place. */
  method PruneFrame<S(==)>(env: Env<S>, block: array<Word>, ghost w: Walk<S>, fr: int, pruned: int, mainFr: int,
                           curGen: int, curCut: int, genNext: int, merges: seq<S>, ghost visits: seq<Visit>)
    returns (fr': int, pruned': int, mainFr': int, curGen': int, curCut': int, genNext': int,
             merges': seq<S>, fault: Outcome, ghost visits': seq<Visit>)
    requires 0 <= fr < block.Length
    requires w == Walk(block[..], fr, pruned, mainFr, curGen, curCut, genNext, merges, visits, Ok)
    modifies block
    ensures if fault.Ok? then fr' < fr else fr' == fr
    ensures StepWith(env, w, false) ==
              Walk(block[..], fr', pruned', mainFr', curGen', curCut', genNext', merges', visits', fault)
  {
    var realFr := env.realStart + fr;
    var frameSize := realFr - block[fr + PREVFR];
    if frameSize <= 0 {
      fr', pruned', mainFr', curGen', curCut', genNext', merges', visits' :=
        fr, pruned, mainFr, curGen, curCut, genNext, merges, visits;
      fault := if frameSize == 0 then Fatal("frame of size zero: the walk would not move")
               else Fatal("prevfr above the frame: the walk would move up");
      return;
    }
    var action := Untouched;
    if pruned > 0 {
      action := Pruned;
    } else if fr + REDOFR < 0 {
      fr', pruned', mainFr', curGen', curCut', genNext', merges', visits' :=
        fr, pruned, mainFr, curGen, curCut, genNext, merges, visits;
      fault := Fatal("redofr slot below the saved block");
      return;
    } else if block[fr + REDOFR] != mainFr {
      action := OffMainBranch;
    } else if env.atBottom && fr - frameSize == -1 {
      action := BottomFrame;
    } else if !env.atBottom && !(0 <= curGen < |env.gens|) {
      fr', pruned', mainFr', curGen', curCut', genNext', merges', visits' :=
        fr, pruned, mainFr, curGen, curCut, genNext, merges, visits;
      fault := Fatal("MR_gen_stack read outside its live entries");
      return;
    } else if !env.atBottom && realFr == env.gens[curGen].frame {
      action := if env.subgoal == Some(env.gens[curGen].subgoal) then OwnGenerator else OtherGenerator;
    } else if env.atBottom && 0 < curCut < |env.cuts| && realFr == env.cuts[curCut].frame {
      action := CutFrame;
    }
    assert Classify(env, w, realFr, frameSize) == Some(action);
    StepIsApply(env, w, realFr, frameSize, action);
    fr', pruned', mainFr', curGen', curCut', genNext', merges', fault, visits' :=
      ApplyInPlace(env, block, w, action, realFr, frameSize, fr, pruned, mainFr, curGen, curCut, genNext, merges, visits);
  }

  /** A step in the middle of the copy is its frame's branch. */
  lemma StepIsApply<S>(env: Env<S>, w: Walk<S>, realFr: int, frameSize: int, a: Action)
    requires w.fault.Ok? && 0 <= w.fr < |w.block| && realFr == env.realStart + w.fr
    requires frameSize == realFr - w.block[w.fr + PREVFR] > 0 && Classify(env, w, realFr, frameSize) == Some(a)
    ensures StepWith(env, w, false) == Apply(env, w, a, realFr, frameSize, false)
  {
    var realAddr := RealFr(env, w);
    assert realAddr == Some(realFr);
  }

  /** The frame's branch, once it is known, done in place: the redoip slot it
      rewrites, the assertions it makes and the state it leaves. */
  method ApplyInPlace<S(==)>(env: Env<S>, block: array<Word>, ghost w: Walk<S>, action: Action, realFr: int, frameSize: int,
                             fr: int, pruned: int, mainFr: int, curGen: int, curCut: int, genNext: int,
                             merges: seq<S>, ghost visits: seq<Visit>)
    returns (fr': int, pruned': int, mainFr': int, curGen': int, curCut': int, genNext': int,
             merges': seq<S>, fault: Outcome, ghost visits': seq<Visit>)
    requires 0 <= fr < block.Length && frameSize > 0
    requires w == Walk(block[..], fr, pruned, mainFr, curGen, curCut, genNext, merges, visits, Ok)
    requires Classify(env, w, realFr, frameSize) == Some(action)
    modifies block
    ensures if fault.Ok? then fr' < fr else fr' == fr
    ensures Apply(env, w, action, realFr, frameSize, false) ==
              Walk(block[..], fr', pruned', mainFr', curGen', curCut', genNext', merges', visits', fault)
  {
    fr', pruned', mainFr', curGen', curCut', genNext', merges', visits' :=
      fr, pruned, mainFr, curGen, curCut, genNext, merges, visits;
    var ordinary := frameSize >= NONDET_FIXED_SIZE;
    fault := Ok;
    if Written(action).Some? && fr + REDOIP < 0 {
      fault := Fatal("redoip slot below the saved block");
      return;
    }
    match action {
      case Pruned =>
        if realFr == mainFr && ordinary {
          if fr + SUCCFR < 0 {
            fault := Fatal("succfr slot below the saved block");
            return;
          }
          mainFr' := block[fr + SUCCFR];
        }
        pruned' := pruned - frameSize;
      case OffMainBranch =>
      case BottomFrame =>
        block[fr + REDOIP] := RESUME_ENTRY;
      case OwnGenerator =>
        if !ordinary {
          fault := Fatal("assertion failed: ordinary");
          return;
        }
        block[fr + REDOIP] := RESUME_ENTRY;
        genNext' := curGen + 1;
        curGen' := curGen - 1;
      case OtherGenerator =>
        if env.subgoal.None? {
          fault := Fatal("assertion failed: subgoal != NULL");
          return;
        }
        if !ordinary {
          fault := Fatal("assertion failed: ordinary");
          return;
        }
        if block[fr + PREVFR] == env.realStart - 1 {
          fault := Fatal("assertion failed: prevfr is not the stop frame");
          return;
        }
        block[fr + REDOIP] := DO_FAIL;
        merges' := merges + [env.gens[curGen].subgoal];
        curGen' := curGen - 1;
      case CutFrame =>
        if ordinary {
          fault := Fatal("assertion failed: ! ordinary");
          return;
        }
        block[fr + REDOIP] := TABLE_NONDET_COMMIT;
        curCut' := curCut - 1;
      case Untouched =>
    }
    visits' := visits + [Visit(fr, action)];
    fr' := fr - frameSize;
  }

  // ---------------------------------------------------------------------
  // The other-generator assertion

  /** As written, the assertion guarding a merge translates saved_stop_fr,
      one word below the copy, and that translation is always out of bounds:
      whenever the walk reaches the frame of another generator on the main
      branch, the source stops with a fatal error where the intended check
      lets the merge happen. */
  lemma AsWrittenMergeAlwaysAborts<S>(env: Env<S>, w: Walk<S>)
    requires w.fault.Ok? && 0 <= w.fr < |w.block|
    requires var r := StepWith(env, w, false);
      r.fault.Ok? && r.visits[|w.visits|].action == OtherGenerator
    ensures StepWith(env, w, true).fault == Fatal("saved_to_real_nondet_stack: out of bounds")
  {
  }

  /** The same as a concrete case: a suspension of subgoal 1 whose saved copy
      holds, above the frame of an earlier computation, the frame of the
      generator of subgoal 2. The intended walk makes subgoal 2 follow
      subgoal 1 and gives its frame do_fail; the walk as written aborts. */
  lemma AsWrittenMergeExample()
    ensures Prune(ExampleEnv(), ExampleBlock(), 0, 1).fault.Ok?
    ensures Prune(ExampleEnv(), ExampleBlock(), 0, 1).merges == [2]
    ensures Prune(ExampleEnv(), ExampleBlock(), 0, 1).block[10] == DO_FAIL
    ensures PruneAsWritten(ExampleEnv(), ExampleBlock(), 0, 1).fault.Fatal?
  {
    var env := ExampleEnv();
    var b := ExampleBlock();
    var w0 := Start(env, b, 0, 1);
    var w1 := StepWith(env, w0, false);
    assert w1.visits[0].action == OtherGenerator;
    var w2 := StepWith(env, w1, false);
    assert w2.fr == -1;
    var v1 := StepWith(env, w0, true);
    assert v1.fault.Fatal?;
  }

  /** A copy of two ordinary frames starting at real address 100: a frame of
      six words at offsets 0..5 (real top 105, prevfr 99, the word below the
      copy; its redofr is itself, off the main branch) and the generator
      frame of six words at offsets 6..11 (real top 111, prevfr 105, redofr
      111, itself the main branch frame). */
  function ExampleBlock(): seq<Word> {
    [0, 0, 0, 105, 0, 99,  0, 0, 0, 111, 0, 105]
  }

  function ExampleEnv(): Env<int> {
    Env(100, false, [GenStackFrame(111, 2)], [], Some(1))
  }
}
