/** The saved states of runtime/mercury_minimal_model.c as values: what
    save_state copies out of the live stacks, what restore_state copies back,
    and how extend_consumer_stacks widens a saved state when its consumer's
    subgoal joins the component of a lower leader. The engine's SavedState
    objects are tied to these functions. */
module Snapshots {
  import opened Stacks
  import opened Outcomes
  import opened Segments

  /** The contents of an MR_SavedState: the four saved registers, the
      common ancestor frame, the saved nondet and det segments with the live
      addresses they were copied from, and the saved prefixes of the
      generator, cut and pneg stacks. */
  datatype Image<S, C> = Image(
    succip: Word, sp: Word, curfr: Word, maxfr: Word, commonAncestorFr: Word,
    nonRealStart: Word, nonBlock: seq<Word>,
    detRealStart: Word, detBlock: seq<Word>,
    genNext: int, genBlock: seq<GenStackFrame<S>>,
    cutNext: int, cutBlock: seq<CutStackFrame<S>>,
    pnegNext: int, pnegBlock: seq<PNegStackFrame<C>>)

  /** The live machine: registers and stacks, and the live entries of the
      generator, cut and pneg stacks (entry i of MR_gen_stack for i below
      MR_gen_next, and so on; the entries above are never read). */
  datatype Live<S, C> = Live(
    state: MachineState,
    gens: seq<GenStackFrame<S>>, cuts: seq<CutStackFrame<S>>, pnegs: seq<PNegStackFrame<C>>)

  /** The nearest common ancestor the snapshot of a suspension at curfr
      against the generator frame genFr starts from, when the walk to it
      succeeds and lands on a frame whose fixed slots lie in the stack. */
  function AncestorOf(nondet: seq<Word>, curfr: Word, genFr: Word): (r: Option<Word>)
    ensures r.Some? ==> 5 <= r.value < |nondet| && Nca(nondet, curfr, genFr) == r
  {
    var nca := Nca(nondet, curfr, genFr);
    if nca.Some? && 5 <= nca.value < |nondet| then nca else None
  }

  /** save_state: copy from prevfr(nca)+1 up to maxfr, and from
      table_detfr(nca)+1 up to sp, both inclusive, and the live generator,
      cut and pneg entries. None where the source reads or copies outside
      the stacks. */
  function Save<S, C>(l: Live<S, C>, genFr: Word): (r: Option<Image<S, C>>)
    ensures r.Some? ==> AncestorOf(l.state.nondet, l.state.curfr, genFr) == Some(r.value.commonAncestorFr)
    ensures r.Some? ==>
      var nca := r.value.commonAncestorFr;
      r.value.nonRealStart == PrevFr(l.state.nondet, nca) + 1 &&
      r.value.detRealStart == TableDetFr(l.state.nondet, nca) + 1 &&
      InStack(l.state.nondet, r.value.nonRealStart, SegmentSize(r.value.nonRealStart, l.state.maxfr)) &&
      InStack(l.state.det, r.value.detRealStart, SegmentSize(r.value.detRealStart, l.state.sp)) &&
      r.value.nonBlock == Snapshot(l.state.nondet, r.value.nonRealStart, l.state.maxfr) &&
      r.value.detBlock == Snapshot(l.state.det, r.value.detRealStart, l.state.sp)
    ensures r.Some? ==>
      r.value.succip == l.state.succip && r.value.sp == l.state.sp &&
      r.value.curfr == l.state.curfr && r.value.maxfr == l.state.maxfr
    ensures r.Some? ==>
      r.value.genNext == |l.gens| && r.value.genBlock == l.gens &&
      r.value.cutNext == |l.cuts| && r.value.cutBlock == l.cuts &&
      r.value.pnegNext == |l.pnegs| && r.value.pnegBlock == l.pnegs
  {
    var s := l.state;
    var nca := AncestorOf(s.nondet, s.curfr, genFr);
    if nca.None? then None
    else
      var startNon := PrevFr(s.nondet, nca.value) + 1;
      var startDet := TableDetFr(s.nondet, nca.value) + 1;
      if !InStack(s.nondet, startNon, SegmentSize(startNon, s.maxfr)) then None
      else if !InStack(s.det, startDet, SegmentSize(startDet, s.sp)) then None
      else
        Some(Image(s.succip, s.sp, s.curfr, s.maxfr, nca.value,
                   startNon, Snapshot(s.nondet, startNon, s.maxfr),
                   startDet, Snapshot(s.det, startDet, s.sp),
                   |l.gens|, l.gens, |l.cuts|, l.cuts, |l.pnegs|, l.pnegs))
  }

  /** The saved image can be copied back into the stacks l: its segments fit
      and each saved *_next lies within its saved block. */
  predicate Restorable<S, C>(l: Live<S, C>, img: Image<S, C>) {
    InStack(l.state.nondet, img.nonRealStart, |img.nonBlock|) &&
    InStack(l.state.det, img.detRealStart, |img.detBlock|) &&
    0 <= img.genNext <= |img.genBlock| &&
    0 <= img.cutNext <= |img.cutBlock| &&
    0 <= img.pnegNext <= |img.pnegBlock|
  }

  /** restore_state: the saved registers, the saved segments written back
      where they came from, and the saved stack prefixes as the live
      generator, cut and pneg entries. */
  function Restore<S, C>(l: Live<S, C>, img: Image<S, C>): (r: Live<S, C>)
    requires Restorable(l, img)
    ensures r.state.succip == img.succip && r.state.sp == img.sp
    ensures r.state.curfr == img.curfr && r.state.maxfr == img.maxfr
    ensures |r.state.nondet| == |l.state.nondet| && |r.state.det| == |l.state.det|
    ensures forall i :: 0 <= i < |r.state.nondet| ==>
              r.state.nondet[i] == (if img.nonRealStart <= i < img.nonRealStart + |img.nonBlock|
                                    then img.nonBlock[i - img.nonRealStart] else l.state.nondet[i])
    ensures forall i :: 0 <= i < |r.state.det| ==>
              r.state.det[i] == (if img.detRealStart <= i < img.detRealStart + |img.detBlock|
                                 then img.detBlock[i - img.detRealStart] else l.state.det[i])
    ensures r.gens == img.genBlock[..img.genNext] && r.cuts == img.cutBlock[..img.cutNext]
    ensures r.pnegs == img.pnegBlock[..img.pnegNext]
  {
    Live(MachineState(CopyInto(l.state.nondet, img.nonRealStart, img.nonBlock),
                      CopyInto(l.state.det, img.detRealStart, img.detBlock),
                      img.maxfr, img.curfr, img.sp, img.succip),
         img.genBlock[..img.genNext], img.cutBlock[..img.cutNext], img.pnegBlock[..img.pnegNext])
  }

  /** A saved state can always be restored into the stacks it was saved
      from, and doing so straight away changes nothing. */
  lemma RestoreAfterSave<S, C>(l: Live<S, C>, genFr: Word)
    requires Save(l, genFr).Some?
    ensures Restorable(l, Save(l, genFr).value)
    ensures Restore(l, Save(l, genFr).value) == l
  {
    var img := Save(l, genFr).value;
    RestoreUndoesSnapshot(l.state.nondet, img.nonRealStart, l.state.maxfr);
    RestoreUndoesSnapshot(l.state.det, img.detRealStart, l.state.sp);
    assert l.gens[..|l.gens|] == l.gens;
    assert l.cuts[..|l.cuts|] == l.cuts;
    assert l.pnegs[..|l.pnegs|] == l.pnegs;
  }

  // ---------------------------------------------------------------------
  // Extension

  /** One saved segment widened down to newStart, as extend_consumer_stacks
      does for each stack: untouched when newStart is not below the old
      start; otherwise the live words from newStart up to the old start
      followed by the old block, provided the widened block still ends at
      the saved top (the assertion) and the copied words lie in the stack. */
  function ExtendSegment(s: seq<Word>, newStart: Word, oldStart: Word, oldBlock: seq<Word>, top: Word)
    : (r: Option<(Word, seq<Word>)>)
    ensures r.Some? && newStart < oldStart ==>
              0 <= newStart && oldStart <= |s| && r.value.0 == newStart && r.value.1 == Extend(s, newStart, oldStart, oldBlock) &&
              newStart + |r.value.1| == top + 1
    ensures r.Some? && newStart >= oldStart ==> r.value == (oldStart, oldBlock)
    ensures newStart >= oldStart ==> r.Some?
    ensures newStart < oldStart ==>
              (r.Some? <==> oldStart + |oldBlock| == top + 1 && 0 <= newStart && oldStart <= |s|)
  {
    if newStart >= oldStart then Some((oldStart, oldBlock))
    else if newStart + (oldStart - newStart) + |oldBlock| != top + 1 then None
    else if !(0 <= newStart && oldStart <= |s|) then None
    else Some((newStart, Extend(s, newStart, oldStart, oldBlock)))
  }

  /** extend_consumer_stacks without its final pruning step: the common
      ancestor becomes the nearest common ancestor of the old one and the
      leader's generator frame, and the det and nondet segments are widened
      to start just above that frame's table_detfr and prevfr. None where the
      source's assertion fails or it reads outside the stacks. */
  function ExtendImage<S, C>(l: Live<S, C>, img: Image<S, C>, leaderFr: Word): (r: Option<Image<S, C>>)
    ensures r.Some? ==>
      var nca := r.value.commonAncestorFr;
      AncestorOf(l.state.nondet, img.commonAncestorFr, leaderFr) == Some(nca) &&
      nca <= img.commonAncestorFr && nca <= leaderFr
    ensures r.Some? ==>
      r.value == img.(commonAncestorFr := r.value.commonAncestorFr,
                      detRealStart := r.value.detRealStart, detBlock := r.value.detBlock,
                      nonRealStart := r.value.nonRealStart, nonBlock := r.value.nonBlock)
  {
    var s := l.state;
    var nca := AncestorOf(s.nondet, img.commonAncestorFr, leaderFr);
    if nca.None? then None
    else
      var det := ExtendSegment(s.det, TableDetFr(s.nondet, nca.value) + 1, img.detRealStart, img.detBlock, img.sp);
      var non := ExtendSegment(s.nondet, PrevFr(s.nondet, nca.value) + 1, img.nonRealStart, img.nonBlock, img.maxfr);
      if det.None? || non.None? then None
      else
        Some(img.(commonAncestorFr := nca.value,
                  detRealStart := det.value.0, detBlock := det.value.1,
                  nonRealStart := non.value.0, nonBlock := non.value.1))
  }

  /** Each widened segment is the old one with the live words from the new
      start up to the old start in front of it, and still ends at the saved
      top; a segment the new ancestor does not lie below is left as it
      was. */
  lemma ExtendImageSegments<S, C>(l: Live<S, C>, img: Image<S, C>, leaderFr: Word)
    requires ExtendImage(l, img, leaderFr).Some?
    ensures var e := ExtendImage(l, img, leaderFr).value;
      var newDet := TableDetFr(l.state.nondet, e.commonAncestorFr) + 1;
      var newNon := PrevFr(l.state.nondet, e.commonAncestorFr) + 1;
      (newDet < img.detRealStart ==>
         e.detRealStart == newDet && e.detBlock == Extend(l.state.det, newDet, img.detRealStart, img.detBlock) &&
         e.detRealStart + |e.detBlock| == img.sp + 1) &&
      (newDet >= img.detRealStart ==> e.detRealStart == img.detRealStart && e.detBlock == img.detBlock) &&
      (newNon < img.nonRealStart ==>
         e.nonRealStart == newNon && e.nonBlock == Extend(l.state.nondet, newNon, img.nonRealStart, img.nonBlock) &&
         e.nonRealStart + |e.nonBlock| == img.maxfr + 1) &&
      (newNon >= img.nonRealStart ==> e.nonRealStart == img.nonRealStart && e.nonBlock == img.nonBlock)
  {
  }

  /** Extending against the same leader a second time changes nothing, even
      if the blocks were rewritten in between: the common ancestor is already
      the nearest one, so neither segment reaches further down. */
  lemma ExtendTwiceIsExtendOnce<S, C>(l: Live<S, C>, img: Image<S, C>, leaderFr: Word, again: Image<S, C>)
    requires ExtendImage(l, img, leaderFr).Some?
    requires var e := ExtendImage(l, img, leaderFr).value;
      again.commonAncestorFr == e.commonAncestorFr &&
      again.nonRealStart == e.nonRealStart && again.detRealStart == e.detRealStart
    ensures ExtendImage(l, again, leaderFr) == Some(again)
  {
    var s := l.state.nondet;
    var e := ExtendImage(l, img, leaderFr).value;
    NcaAbsorbs(s, img.commonAncestorFr, leaderFr);
    NcaSymmetric(s, e.commonAncestorFr, leaderFr);
    NcaSymmetric(s, img.commonAncestorFr, leaderFr);
    ExtendImageSegments(l, img, leaderFr);
  }

  /** Restoring an extended state writes, below the old segments, the live
      words they were extended with: so if those words have not changed
      since, restoring the extended state is the same as restoring the old
      one. */
  lemma RestoreAfterExtend<S, C>(l: Live<S, C>, img: Image<S, C>, leaderFr: Word, later: Live<S, C>)
    requires ExtendImage(l, img, leaderFr).Some?
    requires Restorable(later, img)
    requires |later.state.nondet| == |l.state.nondet| && |later.state.det| == |l.state.det|
    requires var e := ExtendImage(l, img, leaderFr).value;
      (forall i :: e.nonRealStart <= i < img.nonRealStart ==> later.state.nondet[i] == l.state.nondet[i]) &&
      (forall i :: e.detRealStart <= i < img.detRealStart ==> later.state.det[i] == l.state.det[i])
    ensures Restorable(later, ExtendImage(l, img, leaderFr).value)
    ensures Restore(later, ExtendImage(l, img, leaderFr).value) == Restore(later, img)
  {
    var e := ExtendImage(l, img, leaderFr).value;
    ExtendImageSegments(l, img, leaderFr);
    if e.nonRealStart < img.nonRealStart {
      RestoreExtended(l.state.nondet, later.state.nondet, e.nonRealStart, img.nonRealStart, img.nonBlock);
    }
    if e.detRealStart < img.detRealStart {
      RestoreExtended(l.state.det, later.state.det, e.detRealStart, img.detRealStart, img.detBlock);
    }
  }
}
