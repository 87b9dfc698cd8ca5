/** The det and nondet stacks of the Mercury abstract machine: the slot layout
    of nondet frames and the macros that push, pop and leave frames
    (runtime/mercury_stacks.h). Stack pointers are word indices into the
    stack arrays; like `MR_sp` and `MR_maxfr` they point at the topmost used
    word, so an empty stack has its pointer at -1. */
module Stacks {

  /** A machine word. Data, frame pointers and code addresses all live in
      words; code addresses used by the model are the negative constants of
      the modules that define them. */
  type Word = int

  // Offsets of the fixed slots from a nondet frame pointer (the frame's
  // highest word).
  const PREVFR: int := 0
  const REDOIP: int := -1
  const REDOFR: int := -2
  const SUCCIP: int := -3
  const SUCCFR: int := -4
  /** The saved `MR_sp`, in model_det temp frames only. */
  const TMP_DETFR: int := -3
  /** The saved `MR_sp`, in ordinary frames of the minimal model grade. */
  const TABLE_DETFR: int := -5

  // Frame sizes in words, in the minimal model grade.
  const NONDET_TEMP_SIZE: int := 3
  const DET_TEMP_SIZE: int := 4
  const NONDET_FIXED_SIZE: int := 6
  /** Saved variables start at this offset. */
  const SAVEVAL: int := -NONDET_FIXED_SIZE

  /** The word holding frame variable n of the frame fr. */
  function FramevarIndex(fr: int, n: int): int { fr + SAVEVAL + 1 - n }

  /** The word holding det stack variable n of the frame whose top is sp. */
  function StackvarIndex(sp: int, n: int): int { sp + 1 - n }

  // Reading the fixed slots of the frame fr.
  function PrevFr(s: seq<Word>, fr: int): Word requires 0 <= fr < |s| { s[fr + PREVFR] }
  function RedoIp(s: seq<Word>, fr: int): Word requires 1 <= fr < |s| { s[fr + REDOIP] }
  function RedoFr(s: seq<Word>, fr: int): Word requires 2 <= fr < |s| { s[fr + REDOFR] }
  function SuccIp(s: seq<Word>, fr: int): Word requires 3 <= fr < |s| { s[fr + SUCCIP] }
  function SuccFr(s: seq<Word>, fr: int): Word requires 4 <= fr < |s| { s[fr + SUCCFR] }
  function TmpDetFr(s: seq<Word>, fr: int): Word requires 3 <= fr < |s| { s[fr + TMP_DETFR] }
  function TableDetFr(s: seq<Word>, fr: int): Word requires 5 <= fr < |s| { s[fr + TABLE_DETFR] }

  /** The machine registers and stacks that the frame macros read and write. */
  datatype MachineState = MachineState(nondet: seq<Word>, det: seq<Word>,
                       maxfr: int, curfr: int, sp: int, succip: Word)

  /** A control transfer: the state after the macro and the code address it
      jumps to. */
  datatype Transfer = Transfer(state: MachineState, target: Word)

  /** There is room above `maxfr` for a frame of `size` words. Overflow
      checking is not part of this model; callers guarantee the room. */
  predicate HasRoom(v: MachineState, size: int) {
    -1 <= v.maxfr && v.maxfr + size < |v.nondet|
  }

  /** The stacks are as they were at or below the word `top`. */
  predicate SameBelow(s: seq<Word>, t: seq<Word>, top: int) {
    |s| == |t| && forall i :: 0 <= i <= top && i < |s| ==> s[i] == t[i]
  }

  // ---------------------------------------------------------------------
  // The macros, as functions of the machine state

  /** MR_mkframe in the minimal model grade. */
  function AfterMkframe(v: MachineState, numslots: nat, redoip: Word): (r: MachineState)
    requires HasRoom(v, NONDET_FIXED_SIZE + numslots)
    ensures r.maxfr == v.maxfr + NONDET_FIXED_SIZE + numslots && r.curfr == r.maxfr
    ensures |r.nondet| == |v.nondet|
    ensures PrevFr(r.nondet, r.maxfr) == v.maxfr
    ensures RedoIp(r.nondet, r.maxfr) == redoip
    ensures RedoFr(r.nondet, r.maxfr) == r.maxfr
    ensures SuccIp(r.nondet, r.maxfr) == v.succip
    ensures SuccFr(r.nondet, r.maxfr) == v.curfr
    ensures TableDetFr(r.nondet, r.maxfr) == v.sp
    ensures SameBelow(r.nondet, v.nondet, v.maxfr)
    ensures r.det == v.det && r.sp == v.sp && r.succip == v.succip
  {
    var fr := v.maxfr + NONDET_FIXED_SIZE + numslots;
    var s := v.nondet[fr + REDOIP := redoip][fr + PREVFR := v.maxfr]
                     [fr + SUCCIP := v.succip][fr + SUCCFR := v.curfr]
                     [fr + REDOFR := fr][fr + TABLE_DETFR := v.sp];
    v.(nondet := s, maxfr := fr, curfr := fr)
  }

  /** MR_mktempframe. */
  function AfterMktempframe(v: MachineState, redoip: Word): (r: MachineState)
    requires HasRoom(v, NONDET_TEMP_SIZE)
    ensures r.maxfr == v.maxfr + NONDET_TEMP_SIZE && r.curfr == v.curfr
    ensures |r.nondet| == |v.nondet|
    ensures PrevFr(r.nondet, r.maxfr) == v.maxfr
    ensures RedoIp(r.nondet, r.maxfr) == redoip
    ensures RedoFr(r.nondet, r.maxfr) == v.curfr
    ensures SameBelow(r.nondet, v.nondet, v.maxfr)
    ensures r.det == v.det && r.sp == v.sp && r.succip == v.succip
  {
    var fr := v.maxfr + NONDET_TEMP_SIZE;
    var s := v.nondet[fr + PREVFR := v.maxfr][fr + REDOIP := redoip][fr + REDOFR := v.curfr];
    v.(nondet := s, maxfr := fr)
  }

  /** MR_mkdettempframe. */
  function AfterMkdettempframe(v: MachineState, redoip: Word): (r: MachineState)
    requires HasRoom(v, DET_TEMP_SIZE)
    ensures r.maxfr == v.maxfr + DET_TEMP_SIZE && r.curfr == v.curfr
    ensures |r.nondet| == |v.nondet|
    ensures PrevFr(r.nondet, r.maxfr) == v.maxfr
    ensures RedoIp(r.nondet, r.maxfr) == redoip
    ensures RedoFr(r.nondet, r.maxfr) == v.curfr
    ensures TmpDetFr(r.nondet, r.maxfr) == v.sp
    ensures SameBelow(r.nondet, v.nondet, v.maxfr)
    ensures r.det == v.det && r.sp == v.sp && r.succip == v.succip
  {
    var fr := v.maxfr + DET_TEMP_SIZE;
    var s := v.nondet[fr + PREVFR := v.maxfr][fr + REDOIP := redoip]
                     [fr + REDOFR := v.curfr][fr + TMP_DETFR := v.sp];
    v.(nondet := s, maxfr := fr)
  }

  /** `curfr` is an ordinary frame whose caller slots can be read. */
  predicate CanSucceed(v: MachineState) { 4 <= v.curfr < |v.nondet| }

  /** MR_succeed: return to the caller's frame, leaving the frame in place. */
  function AfterSucceed(v: MachineState): (r: Transfer)
    requires CanSucceed(v)
    ensures r.state == v.(curfr := SuccFr(v.nondet, v.curfr))
    ensures r.target == SuccIp(v.nondet, v.curfr)
  {
    Transfer(v.(curfr := v.nondet[v.curfr + SUCCFR]), v.nondet[v.curfr + SUCCIP])
  }

  /** MR_succeed_discard: return to the caller and pop the frame. */
  function AfterSucceedDiscard(v: MachineState): (r: Transfer)
    requires CanSucceed(v)
    ensures r.state == v.(maxfr := PrevFr(v.nondet, v.curfr), curfr := SuccFr(v.nondet, v.curfr))
    ensures r.target == SuccIp(v.nondet, v.curfr)
  {
    Transfer(v.(maxfr := v.nondet[v.curfr + PREVFR], curfr := v.nondet[v.curfr + SUCCFR]),
             v.nondet[v.curfr + SUCCIP])
  }

  /** The top frame can be popped and the frame below it is readable. */
  predicate CanFail(v: MachineState) {
    0 <= v.maxfr < |v.nondet| && 2 <= v.nondet[v.maxfr] < |v.nondet|
  }

  /** MR_fail: pop the top frame and resume the frame below it. */
  function AfterFail(v: MachineState): (r: Transfer)
    requires CanFail(v)
    ensures r.state.maxfr == PrevFr(v.nondet, v.maxfr)
    ensures r.state == v.(maxfr := r.state.maxfr, curfr := RedoFr(v.nondet, r.state.maxfr))
    ensures r.target == RedoIp(v.nondet, r.state.maxfr)
  {
    var top := v.nondet[v.maxfr + PREVFR];
    Transfer(v.(maxfr := top, curfr := v.nondet[top + REDOFR]), v.nondet[top + REDOIP])
  }

  /** The top frame's redo slots are readable. */
  predicate CanRedo(v: MachineState) { 2 <= v.maxfr < |v.nondet| }

  /** MR_redo: resume the top frame without popping it. */
  function AfterRedo(v: MachineState): (r: Transfer)
    requires CanRedo(v)
    ensures r.state == v.(curfr := RedoFr(v.nondet, v.maxfr))
    ensures r.target == RedoIp(v.nondet, v.maxfr)
  {
    Transfer(v.(curfr := v.nondet[v.maxfr + REDOFR]), v.nondet[v.maxfr + REDOIP])
  }

  // ---------------------------------------------------------------------
  // Layout facts and how the macros combine

  /** The frame sizes are strictly ordered, which is what lets the pruning
      walk tell ordinary frames apart from temp frames by size alone. */
  lemma FrameSizesOrdered()
    ensures NONDET_TEMP_SIZE < DET_TEMP_SIZE < NONDET_FIXED_SIZE
    ensures SAVEVAL == -NONDET_FIXED_SIZE
  {
  }

  /** Frame variables lie inside the frame, below every fixed slot, and
      distinct variables occupy distinct words. */
  lemma FramevarsBelowFixedSlots(fr: int, numslots: nat, n: int, k: int)
    requires 1 <= n <= numslots && 1 <= k <= numslots
    ensures fr - (NONDET_FIXED_SIZE + numslots) < FramevarIndex(fr, n) < fr + TABLE_DETFR
    ensures FramevarIndex(fr, n) == FramevarIndex(fr, k) <==> n == k
  {
  }

  /** After incr_sp(n) the words of the new det frame are stack variables
      1..n, with variable 1 at the top. */
  lemma StackvarsOfNewFrame(sp: int, size: nat, n: int)
    requires 1 <= n <= size
    ensures sp < StackvarIndex(sp + size, n) <= sp + size
    ensures StackvarIndex(sp + size, 1) == sp + size
  {
  }

  /** Failing out of a frame just made by mkframe pops it and resumes the
      frame that was on top before. */
  lemma FailUndoesMkframe(v: MachineState, numslots: nat, redoip: Word)
    requires HasRoom(v, NONDET_FIXED_SIZE + numslots)
    requires CanRedo(v)
    ensures CanFail(AfterMkframe(v, numslots, redoip))
    ensures AfterFail(AfterMkframe(v, numslots, redoip)).state.maxfr == v.maxfr
    ensures AfterFail(AfterMkframe(v, numslots, redoip)) == AfterRedo(v).(state := AfterRedo(v).state.(
              nondet := AfterMkframe(v, numslots, redoip).nondet))
  {
  }

  /** Failing out of a temp frame pops it and resumes the frame below. */
  lemma FailUndoesMktempframe(v: MachineState, redoip: Word)
    requires HasRoom(v, NONDET_TEMP_SIZE)
    requires CanRedo(v)
    ensures CanFail(AfterMktempframe(v, redoip))
    ensures AfterFail(AfterMktempframe(v, redoip)).state.maxfr == v.maxfr
    ensures AfterFail(AfterMktempframe(v, redoip)) == AfterRedo(v).(state := AfterRedo(v).state.(
              nondet := AfterMktempframe(v, redoip).nondet))
  {
  }

  /** Redoing into a temp frame runs its redoip in the frame that was
      current when the temp frame was made. */
  lemma RedoIntoTempframe(v: MachineState, redoip: Word)
    requires HasRoom(v, NONDET_TEMP_SIZE) && 0 <= v.maxfr
    ensures CanRedo(AfterMktempframe(v, redoip))
    ensures AfterRedo(AfterMktempframe(v, redoip)).state.curfr == v.curfr
    ensures AfterRedo(AfterMktempframe(v, redoip)).target == redoip
  {
  }

  /** Redoing into a model_det temp frame does the same. */
  lemma RedoIntoDetTempframe(v: MachineState, redoip: Word)
    requires HasRoom(v, DET_TEMP_SIZE) && 0 <= v.maxfr
    ensures CanRedo(AfterMkdettempframe(v, redoip))
    ensures AfterRedo(AfterMkdettempframe(v, redoip)).state.curfr == v.curfr
    ensures AfterRedo(AfterMkdettempframe(v, redoip)).target == redoip
  {
  }

  /** Redoing into a frame just made by mkframe runs its redoip in it. */
  lemma RedoIntoMkframe(v: MachineState, numslots: nat, redoip: Word)
    requires HasRoom(v, NONDET_FIXED_SIZE + numslots)
    ensures CanRedo(AfterMkframe(v, numslots, redoip))
    ensures AfterRedo(AfterMkframe(v, numslots, redoip)).state == AfterMkframe(v, numslots, redoip)
    ensures AfterRedo(AfterMkframe(v, numslots, redoip)).target == redoip
  {
  }

  /** Succeeding out of a frame just made by mkframe returns to the caller's
      frame and continuation, and keeps the frame for backtracking. */
  lemma SucceedAfterMkframe(v: MachineState, numslots: nat, redoip: Word)
    requires HasRoom(v, NONDET_FIXED_SIZE + numslots)
    ensures CanSucceed(AfterMkframe(v, numslots, redoip))
    ensures AfterSucceed(AfterMkframe(v, numslots, redoip)).state.curfr == v.curfr
    ensures AfterSucceed(AfterMkframe(v, numslots, redoip)).state.maxfr == AfterMkframe(v, numslots, redoip).maxfr
    ensures AfterSucceed(AfterMkframe(v, numslots, redoip)).target == v.succip
  {
  }

  /** succeed_discard after mkframe also pops the frame: the registers are
      back where they were; only the words above the old top differ. */
  lemma SucceedDiscardUndoesMkframe(v: MachineState, numslots: nat, redoip: Word)
    requires HasRoom(v, NONDET_FIXED_SIZE + numslots)
    ensures CanSucceed(AfterMkframe(v, numslots, redoip))
    ensures AfterSucceedDiscard(AfterMkframe(v, numslots, redoip)).state
              == v.(nondet := AfterMkframe(v, numslots, redoip).nondet)
    ensures AfterSucceedDiscard(AfterMkframe(v, numslots, redoip)).target == v.succip
  {
  }

  // ---------------------------------------------------------------------
  // Entries of the generator, cut and possibly-negated-context stacks

  /** A generator stack entry: the home nondet frame of an active generator
      and the generator's subgoal. */
  datatype GenStackFrame<S> = GenStackFrame(frame: Word, subgoal: S)

  /** A cut stack entry: the temp frame of an active commit, the size of the
      generator stack when the commit started, the generators inside it, and
      its depth among the nested commits and negations. */
  datatype CutStackFrame<S> = CutStackFrame(frame: Word, genNext: int, generators: seq<S>, depth: int)

  /** A pneg stack entry: the temp frame of a possibly negated context, the
      size of the generator stack when it started, the consumers inside it,
      and its depth among the nested commits and negations. */
  datatype PNegStackFrame<C> = PNegStackFrame(frame: Word, genNext: int, consumers: seq<C>, depth: int)

  // ---------------------------------------------------------------------
  // The machine

  /** The registers MR_maxfr, MR_curfr, MR_sp and MR_succip and the two
      stacks they point into. */
  class Machine {
    const nondet: array<Word>
    const det: array<Word>
    var maxfr: int
    var curfr: int
    var sp: int
    var succip: Word

    ghost function State(): MachineState
      reads this, nondet, det
    {
      MachineState(nondet[..], det[..], maxfr, curfr, sp, succip)
    }

    /** Two empty stacks of the given sizes. */
    constructor (nondetWords: nat, detWords: nat)
      ensures fresh(nondet) && fresh(det) && nondet != det
      ensures nondet.Length == nondetWords && det.Length == detWords
      ensures maxfr == -1 && curfr == -1 && sp == -1 && succip == 0
    {
      nondet := new Word[nondetWords];
      det := new Word[detWords];
      maxfr, curfr, sp, succip := -1, -1, -1, 0;
    }

    /** MR_incr_sp. */
    method IncrSp(n: int)
      modifies this
      ensures State() == old(State()).(sp := old(sp) + n)
    {
      sp := sp + n;
    }

    /** MR_decr_sp. */
    method DecrSp(n: int)
      modifies this
      ensures State() == old(State()).(sp := old(sp) - n)
    {
      sp := sp - n;
    }

    method Mkframe(numslots: nat, redoip: Word)
      requires nondet != det
      requires HasRoom(State(), NONDET_FIXED_SIZE + numslots)
      modifies this, nondet
      ensures State() == AfterMkframe(old(State()), numslots, redoip)
    {
      var prevfr := maxfr;
      var succfr := curfr;
      maxfr := maxfr + (NONDET_FIXED_SIZE + numslots);
      curfr := maxfr;
      nondet[curfr + REDOIP] := redoip;
      nondet[curfr + PREVFR] := prevfr;
      nondet[curfr + SUCCIP] := succip;
      nondet[curfr + SUCCFR] := succfr;
      nondet[curfr + REDOFR] := curfr;
      nondet[curfr + TABLE_DETFR] := sp;
    }

    method Mktempframe(redoip: Word)
      requires nondet != det
      requires HasRoom(State(), NONDET_TEMP_SIZE)
      modifies this, nondet
      ensures State() == AfterMktempframe(old(State()), redoip)
    {
      var prevfr := maxfr;
      maxfr := maxfr + NONDET_TEMP_SIZE;
      nondet[maxfr + PREVFR] := prevfr;
      nondet[maxfr + REDOIP] := redoip;
      nondet[maxfr + REDOFR] := curfr;
    }

    method Mkdettempframe(redoip: Word)
      requires nondet != det
      requires HasRoom(State(), DET_TEMP_SIZE)
      modifies this, nondet
      ensures State() == AfterMkdettempframe(old(State()), redoip)
    {
      var prevfr := maxfr;
      maxfr := maxfr + DET_TEMP_SIZE;
      nondet[maxfr + PREVFR] := prevfr;
      nondet[maxfr + REDOIP] := redoip;
      nondet[maxfr + REDOFR] := curfr;
      nondet[maxfr + TMP_DETFR] := sp;
    }

    /** MR_succeed; returns the address it jumps to. */
    method Succeed() returns (target: Word)
      requires CanSucceed(State())
      modifies this
      ensures Transfer(State(), target) == AfterSucceed(old(State()))
    {
      var childfr := curfr;
      curfr := nondet[childfr + SUCCFR];
      target := nondet[childfr + SUCCIP];
    }

    method SucceedDiscard() returns (target: Word)
      requires CanSucceed(State())
      modifies this
      ensures Transfer(State(), target) == AfterSucceedDiscard(old(State()))
    {
      var childfr := curfr;
      maxfr := nondet[childfr + PREVFR];
      curfr := nondet[childfr + SUCCFR];
      target := nondet[childfr + SUCCIP];
    }

    method Fail() returns (target: Word)
      requires CanFail(State())
      modifies this
      ensures Transfer(State(), target) == AfterFail(old(State()))
    {
      maxfr := nondet[maxfr + PREVFR];
      curfr := nondet[maxfr + REDOFR];
      target := nondet[maxfr + REDOIP];
    }

    method Redo() returns (target: Word)
      requires CanRedo(State())
      modifies this
      ensures Transfer(State(), target) == AfterRedo(old(State()))
    {
      curfr := nondet[maxfr + REDOFR];
      target := nondet[maxfr + REDOIP];
    }
  }
}
