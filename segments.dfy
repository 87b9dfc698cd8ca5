/** The pure parts of the snapshot manager of runtime/mercury_minimal_model.c:
    the nearest common ancestor of two nondet frames, the stack segments that
    save_state copies out and restore_state copies back, the way
    extend_consumer_stacks widens a saved segment, and the translation
    between offsets in a saved nondet block and live stack addresses. */
module Segments {
  import opened Stacks
  import opened Outcomes

  // ---------------------------------------------------------------------
  // Ancestors along succfr links

  /** The succfr slot of fr can be read and names a frame strictly below fr.
      (nearest_common_ancestor follows these slots with no check at all; a
      slot that fails this test is where the C loop would read outside the
      stack or never stop.) */
  predicate CanStep(s: seq<Word>, fr: int) {
    4 <= fr < |s| && 0 <= s[fr + SUCCFR] < fr
  }

  /** `anc` is on the chain of succfr links that starts at fr (fr itself
      included). */
  predicate Reaches(s: seq<Word>, fr: int, anc: int)
    decreases fr - anc
  {
    fr == anc || (anc < fr && CanStep(s, fr) && Reaches(s, s[fr + SUCCFR], anc))
  }

  /** A non-negative measure of a frame pointer for termination. */
  function Height(fr: int): nat { if fr < 0 then 0 else fr }

  /** nearest_common_ancestor: while the two frames differ, replace the
      higher one by its succfr. None when a step cannot be taken. */
  function Nca(s: seq<Word>, fr1: int, fr2: int): (r: Option<int>)
    ensures r.Some? ==> Reaches(s, fr1, r.value) && Reaches(s, fr2, r.value)
    ensures r.Some? ==> r.value <= fr1 && r.value <= fr2
    decreases Height(fr1) + Height(fr2)
  {
    if fr1 == fr2 then Some(fr1)
    else if fr1 > fr2 then
      (if CanStep(s, fr1) then Nca(s, s[fr1 + SUCCFR], fr2) else None)
    else
      (if CanStep(s, fr2) then Nca(s, fr1, s[fr2 + SUCCFR]) else None)
  }

  /** Every frame on a succfr chain lies at or below where the chain starts. */
  lemma {:induction false} ReachesBelow(s: seq<Word>, fr: int, anc: int)
    requires Reaches(s, fr, anc)
    ensures anc <= fr
    decreases fr - anc
  {
    if fr != anc {
      ReachesBelow(s, s[fr + SUCCFR], anc);
    }
  }

  /** Reaching is transitive. */
  lemma {:induction false} ReachesTrans(s: seq<Word>, a: int, b: int, c: int)
    requires Reaches(s, a, b) && Reaches(s, b, c)
    ensures Reaches(s, a, c)
    decreases a - b
  {
    ReachesBelow(s, a, b);
    ReachesBelow(s, b, c);
    if a != b {
      ReachesTrans(s, s[a + SUCCFR], b, c);
    }
  }

  /** When the two frames have any common ancestor b, the walk finds a
      common ancestor, and b lies on the chain below it: the result is the
      nearest one. */
  lemma {:induction false} NcaIsNearest(s: seq<Word>, fr1: int, fr2: int, b: int)
    requires Reaches(s, fr1, b) && Reaches(s, fr2, b)
    ensures Nca(s, fr1, fr2).Some?
    ensures Reaches(s, Nca(s, fr1, fr2).value, b)
    ensures b <= Nca(s, fr1, fr2).value
    decreases Height(fr1) + Height(fr2)
  {
    ReachesBelow(s, fr1, b);
    ReachesBelow(s, fr2, b);
    if fr1 == fr2 {
    } else if fr1 > fr2 {
      NcaIsNearest(s, s[fr1 + SUCCFR], fr2, b);
    } else {
      NcaIsNearest(s, fr1, s[fr2 + SUCCFR], b);
    }
  }

  /** The walk does not depend on the order of its arguments. */
  lemma {:induction false} NcaSymmetric(s: seq<Word>, fr1: int, fr2: int)
    ensures Nca(s, fr1, fr2) == Nca(s, fr2, fr1)
    decreases Height(fr1) + Height(fr2)
  {
    if fr1 == fr2 {
    } else if fr1 > fr2 {
      if CanStep(s, fr1) {
        NcaSymmetric(s, s[fr1 + SUCCFR], fr2);
      }
    } else {
      if CanStep(s, fr2) {
        NcaSymmetric(s, fr1, s[fr2 + SUCCFR]);
      }
    }
  }

  /** An ancestor of g is its own nearest common ancestor with g. */
  lemma {:induction false} NcaOfAncestor(s: seq<Word>, anc: int, g: int)
    requires Reaches(s, g, anc)
    ensures Nca(s, anc, g) == Some(anc)
    decreases g - anc
  {
    if g != anc {
      NcaOfAncestor(s, anc, s[g + SUCCFR]);
    }
  }

  /** Taking the common ancestor with the same frame twice changes nothing,
      so extending a saved state against the same leader twice moves its
      common ancestor only once. */
  lemma NcaAbsorbs(s: seq<Word>, fr: int, g: int)
    requires Nca(s, fr, g).Some?
    ensures Nca(s, Nca(s, fr, g).value, g) == Nca(s, fr, g)
  {
    NcaOfAncestor(s, Nca(s, fr, g).value, g);
  }

  // ---------------------------------------------------------------------
  // Saved segments

  /** The number of words from start to top, both inclusive; none when top
      lies below start. */
  function SegmentSize(start: int, top: int): (n: nat)
    ensures n > 0 <==> start <= top
    ensures n > 0 ==> start + n == top + 1
  {
    if top >= start then top + 1 - start else 0
  }

  /** A range of `size` words from start lies inside s (an empty range lies
      anywhere). */
  predicate InStack<T>(s: seq<T>, start: int, size: int) {
    size <= 0 || (0 <= start && start + size <= |s|)
  }

  /** The copy save_state makes of the words from start to top, both
      inclusive. */
  function Snapshot(s: seq<Word>, start: int, top: int): (b: seq<Word>)
    requires InStack(s, start, SegmentSize(start, top))
    ensures |b| == SegmentSize(start, top)
    ensures forall k :: 0 <= k < |b| ==> b[k] == s[start + k]
  {
    if top >= start then s[start..top + 1] else []
  }

  /** The stack after copying the block b to the words starting at start
      (MR_table_copy_words and MR_table_copy_structs). */
  function CopyInto<T>(s: seq<T>, start: int, b: seq<T>): (r: seq<T>)
    requires InStack(s, start, |b|)
    ensures |r| == |s|
    ensures forall i :: 0 <= i < |s| ==> r[i] == (if start <= i < start + |b| then b[i - start] else s[i])
  {
    if |b| == 0 then s else s[..start] + b + s[start + |b|..]
  }

  /** Copying back a snapshot of a stack that has not changed since leaves it
      unchanged. */
  lemma RestoreUndoesSnapshot(s: seq<Word>, start: int, top: int)
    requires InStack(s, start, SegmentSize(start, top))
    ensures CopyInto(s, start, Snapshot(s, start, top)) == s
  {
    var r := CopyInto(s, start, Snapshot(s, start, top));
    assert forall i :: 0 <= i < |s| ==> r[i] == s[i];
  }

  /** The same for the generator, cut and pneg stacks, whose first `next`
      entries are saved and copied back. */
  lemma RestoreUndoesPrefixCopy<T>(s: seq<T>, next: int)
    requires 0 <= next <= |s|
    ensures CopyInto(s, 0, s[..next]) == s
  {
    var r := CopyInto(s, 0, s[..next]);
    assert forall i :: 0 <= i < |s| ==> r[i] == s[i];
  }

  /** The block extend_consumer_stacks builds: the live words from newStart
      up to the old start, followed by the old block. */
  function Extend(s: seq<Word>, newStart: int, oldStart: int, oldBlock: seq<Word>): (b: seq<Word>)
    requires 0 <= newStart < oldStart <= |s|
    ensures |b| == (oldStart - newStart) + |oldBlock|
    ensures forall k :: 0 <= k < oldStart - newStart ==> b[k] == s[newStart + k]
    ensures forall k :: oldStart - newStart <= k < |b| ==> b[k] == oldBlock[k - (oldStart - newStart)]
  {
    s[newStart..oldStart] + oldBlock
  }

  /** Widening the snapshot of [oldStart, top] of an unchanged stack gives
      the snapshot of [newStart, top]; in particular the extended block still
      ends at the saved top, which is what extend_consumer_stacks asserts. */
  lemma ExtendIsWiderSnapshot(s: seq<Word>, newStart: int, oldStart: int, top: int)
    requires 0 <= newStart < oldStart <= top + 1 <= |s|
    ensures newStart + |Extend(s, newStart, oldStart, Snapshot(s, oldStart, top))| == top + 1
    ensures Extend(s, newStart, oldStart, Snapshot(s, oldStart, top)) == Snapshot(s, newStart, top)
  {
    var e := Extend(s, newStart, oldStart, Snapshot(s, oldStart, top));
    var w := Snapshot(s, newStart, top);
    assert |e| == |w|;
    assert forall k :: 0 <= k < |e| ==> e[k] == w[k];
  }

  /** Restoring an extended block writes the old block where it always went,
      and below it the live words as they were when the block was extended:
      if those words have not changed by the time of the restore, restoring
      the extended block is the same as restoring the old one. */
  lemma RestoreExtended(s: seq<Word>, t: seq<Word>, newStart: int, oldStart: int, oldBlock: seq<Word>)
    requires 0 <= newStart < oldStart <= |s| == |t|
    requires oldStart + |oldBlock| <= |t|
    requires forall i :: newStart <= i < oldStart ==> s[i] == t[i]
    ensures CopyInto(t, newStart, Extend(s, newStart, oldStart, oldBlock)) == CopyInto(t, oldStart, oldBlock)
  {
    var a := CopyInto(t, newStart, Extend(s, newStart, oldStart, oldBlock));
    var b := CopyInto(t, oldStart, oldBlock);
    assert forall i :: 0 <= i < |t| ==> a[i] == b[i];
  }

  // ---------------------------------------------------------------------
  // Saved and live nondet addresses

  /** saved_to_real_nondet_stack: the live address of offset k of a saved
      nondet block of `size` words whose live copy starts at realStart.
      None stands for the fatal error raised outside the block. */
  function SavedToReal(realStart: int, size: int, k: int): (r: Option<int>)
    ensures r.Some? <==> 0 <= k < size
    ensures r.Some? ==> r.value - realStart == k
  {
    if 0 <= k < size then Some(realStart + k) else None
  }

  /** real_to_saved_nondet_stack as its authors intended: the block offset of
      a live address inside the saved range. */
  function RealToSaved(realStart: int, size: int, p: int): (r: Option<int>)
    ensures r.Some? <==> realStart <= p < realStart + size
    ensures r.Some? ==> 0 <= r.value < size
  {
    if realStart <= p < realStart + size then Some(p - realStart) else None
  }

  /** The two translations are inverse on the saved range. */
  lemma RealToSavedInvertsSavedToReal(realStart: int, size: int, k: int, p: int)
    ensures SavedToReal(realStart, size, k).Some? ==>
              RealToSaved(realStart, size, SavedToReal(realStart, size, k).value) == Some(k)
    ensures RealToSaved(realStart, size, p).Some? ==>
              SavedToReal(realStart, size, RealToSaved(realStart, size, p).value) == Some(p)
  {
  }

  /** real_to_saved_nondet_stack as written: the assignment to its result
      sits inside a block that is compiled out, so an in-range call returns
      the uninitialised local, whatever it holds; `uninit` stands for that
      value, as a block offset. */
  function RealToSavedAsWritten(realStart: int, size: int, p: int, uninit: int): (r: Option<int>)
    ensures r.Some? <==> realStart <= p < realStart + size
    ensures r.Some? ==> r.value == uninit
  {
    if realStart <= p < realStart + size then Some(uninit) else None
  }

  /** As written, the translation is not the inverse of saved_to_real: for a
      block of three words starting at live address 10, address 11 is offset
      1, but the function returns whatever its uninitialised local holds. */
  lemma RealToSavedAsWrittenIsNotInverse()
    ensures RealToSaved(10, 3, 11) == Some(1)
    ensures RealToSavedAsWritten(10, 3, 11, 0) != RealToSaved(10, 3, 11)
    ensures forall u :: u != 1 ==> RealToSavedAsWritten(10, 3, 11, u) != Some(1)
  {
  }
}
