/** The tables of the minimal model tabling engine of
    runtime/mercury_minimal_model.c, as values: subgoals indexed by address,
    consumers indexed by number, the follower lists threaded through the
    subgoals, and what each entry point and label of the engine does to them
    and to the machine, as pure functions of the engine's whole state. The
    engine class in module MinimalModel is proved to do what these functions
    say. */
module Tables {
  import opened Outcomes
  import opened Stacks
  import opened Segments
  import opened Pruning
  import opened Snapshots

  /** MR_SubgoalStatus. */
  datatype SubgoalStatus = Inactive | Active | Complete

  /** MR_subgoal_status: the name of a status. The switch in the source also
      has an "INVALID" fallback, which no value of the enumeration reaches. */
  function StatusName(s: SubgoalStatus): (n: string)
    ensures n != "INVALID"
    ensures |n| > 0
  {
    match s
    case Inactive => "INACTIVE"
    case Active => "ACTIVE"
    case Complete => "COMPLETE"
  }

  /** Different statuses have different names. */
  lemma StatusNamesDistinct(s: SubgoalStatus, t: SubgoalStatus)
    ensures StatusName(s) == StatusName(t) <==> s == t
  {
  }

  /** An MR_SavedState. Generator and cut stack entries name subgoals by
      address; pneg stack entries name consumers by number. */
  type SavedState = Image<Word, nat>

  /** MR_Subgoal. Subgoals are named by address (0 is NULL). The answer list
      is a sequence of answer blocks, appended to by code outside this model;
      the consumer list is a sequence of consumer numbers.

      The follower lists are chains of MR_SubgoalListNode cells. Only
      MR_setup_subgoal creates such cells, one per subgoal, holding that
      subgoal; so a cell is named by the subgoal it holds, and the cell's next
      field is the subgoal's `followerNext`. The subgoal's followers tail
      points at that same field and is never advanced, so it is not stored. */
  datatype Subgoal = Subgoal(
    backPtr: Word, status: SubgoalStatus, leader: Option<Word>,
    followers: Option<Word>, followerNext: Option<Word>,
    answerTable: Word, numAns: int, answers: seq<Word>, consumers: seq<nat>,
    generatorFr: Word, deepestNcaFr: Word, resumeInfo: Option<ResumeInfo>)

  /** MR_Consumer. `cursor` is MR_cns_remaining_answer_list_ptr as an index
      into its subgoal's answers: the answers from there on are still to be
      returned to the consumer. */
  datatype Consumer = Consumer(subgoal: Word, saved: SavedState, cursor: nat, numReturnedAnswers: int)

  /** MR_ResumeInfo. The consumer list cursor is an index into the current
      subgoal's consumers; None is the end of the list. */
  datatype ResumeInfo = ResumeInfo(
    leaderState: SavedState, subgoalList: Option<Word>, curSubgoal: Option<Word>,
    consumerList: Option<nat>, curConsumer: Option<nat>, savedSuccip: Word)

  /** The code address of the resume entry's RedoPoint label. */
  const REDO_POINT: Word := -4

  /** The resume entry's labels. */
  datatype Label =
    StartCompletionOp | LoopOverSubgoals | LoopOverSuspensions | ReturnAnswer
  | RedoPoint | RestartPoint | FixPointCheck | ReachedFixpoint

  /** Where control goes after an entry point or label: another label of the
      resume entry, a code address (the target of MR_succeed, MR_redo,
      MR_fail or MR_proceed), or a stop where the source fails an assertion,
      calls MR_fatal_error or follows a pointer to nowhere. */
  datatype Next = Jump(to: Label) | Goto(addr: Word) | Abort(msg: string)

  /** Everything the engine reads and writes: the machine, the subgoal
      pointers of the answer trie nodes (a node without one is not in
      `trie`), the subgoals and consumers, the address the next subgoal gets,
      MR_cur_leader and MR_r1. */
  datatype World = World(
    live: Live<Word, nat>, trie: map<Word, Word>, subgoals: map<Word, Subgoal>,
    consumers: seq<Consumer>, nextAddr: Word, curLeader: Word, r1: Word)

  /** The outcome of one entry point or label. After an Abort the world is
      of no further interest. */
  datatype Step = Step(next: Next, world: World)

  /** The references between the tables lead somewhere: subgoal addresses
      are positive and below the next one handed out, the trie points at
      subgoals, every consumer on a subgoal's list exists and every consumer
      belongs to a subgoal, and no consumer has been given answers its
      subgoal does not have. */
  ghost predicate WellFormed(w: World) {
    0 < w.nextAddr &&
    (forall a :: a in w.subgoals ==> 0 < a < w.nextAddr) &&
    (forall t :: t in w.trie ==> w.trie[t] in w.subgoals) &&
    (forall a, k :: a in w.subgoals && 0 <= k < |w.subgoals[a].consumers| ==>
       w.subgoals[a].consumers[k] < |w.consumers|) &&
    (forall c :: 0 <= c < |w.consumers| ==>
       w.consumers[c].subgoal in w.subgoals &&
       w.consumers[c].cursor <= |w.subgoals[w.consumers[c].subgoal].answers|)
  }

  // ---------------------------------------------------------------------
  // Follower lists

  /** The subgoals on the follower list starting at `start`, following at
      most `fuel` cells. None when the list leads to an unknown subgoal or is
      longer than `fuel`. */
  function FollowerChain(sg: map<Word, Subgoal>, start: Option<Word>, fuel: nat): (r: Option<seq<Word>>)
    ensures r.Some? ==> |r.value| <= fuel && forall i :: 0 <= i < |r.value| ==> r.value[i] in sg
    decreases fuel
  {
    if start.None? then Some([])
    else if fuel == 0 || start.value !in sg then None
    else
      var rest := FollowerChain(sg, sg[start.value].followerNext, fuel - 1);
      if rest.None? then None else Some([start.value] + rest.value)
  }

  /** xs is the follower list from `start`: its first cell is `start`, each
      cell's next is the following one and the last cell's next is NULL. */
  ghost predicate Linked(sg: map<Word, Subgoal>, start: Option<Word>, xs: seq<Word>) {
    (forall i :: 0 <= i < |xs| ==> xs[i] in sg) &&
    (xs == [] <==> start.None?) &&
    (xs != [] ==> start == Some(xs[0]) && sg[xs[|xs| - 1]].followerNext.None?) &&
    (forall i :: 0 <= i < |xs| - 1 ==> sg[xs[i]].followerNext == Some(xs[i + 1]))
  }

  /** The chain found by FollowerChain is the follower list, and every
      follower list no longer than the fuel is found. */
  lemma {:induction false} FollowerChainIsLinked(sg: map<Word, Subgoal>, start: Option<Word>, fuel: nat, xs: seq<Word>)
    ensures FollowerChain(sg, start, fuel) == Some(xs) <==> Linked(sg, start, xs) && |xs| <= fuel
    decreases fuel
  {
    if start.None? || fuel == 0 || start.value !in sg {
    } else {
      var next := sg[start.value].followerNext;
      if xs != [] && xs[0] == start.value {
        FollowerChainIsLinked(sg, next, fuel - 1, xs[1..]);
        assert [start.value] + xs[1..] == xs;
        if Linked(sg, start, xs) {
          assert Linked(sg, next, xs[1..]) by {
            if xs[1..] != [] {
              assert sg[xs[0]].followerNext == Some(xs[1]);
            }
          }
        }
        if Linked(sg, next, xs[1..]) && |xs| <= fuel {
          assert Linked(sg, start, xs);
        }
      } else {
        var rest := FollowerChain(sg, next, fuel - 1);
        if rest.Some? {
          assert ([start.value] + rest.value)[0] == start.value;
        }
      }
    }
  }

  /** A follower list is determined by its first cell. */
  lemma {:induction false} LinkedUnique(sg: map<Word, Subgoal>, start: Option<Word>, xs: seq<Word>, ys: seq<Word>)
    requires Linked(sg, start, xs) && Linked(sg, start, ys)
    ensures xs == ys
    decreases |xs|
  {
    if xs != [] {
      assert ys != [] && xs[0] == ys[0];
      var next := sg[xs[0]].followerNext;
      assert Linked(sg, next, xs[1..]) by {
        if |xs| > 1 { assert sg[xs[0]].followerNext == Some(xs[1]); }
      }
      assert Linked(sg, next, ys[1..]) by {
        if |ys| > 1 { assert sg[ys[0]].followerNext == Some(ys[1]); }
      }
      LinkedUnique(sg, next, xs[1..], ys[1..]);
      assert xs == [xs[0]] + xs[1..] && ys == [ys[0]] + ys[1..];
    }
  }

  /** No subgoal appears twice on a follower list that ends: from the second
      occurrence on, the list would have to repeat itself for ever. */
  lemma LinkedDistinct(sg: map<Word, Subgoal>, start: Option<Word>, xs: seq<Word>, i: int, j: int)
    requires Linked(sg, start, xs) && 0 <= i < j < |xs|
    ensures xs[i] != xs[j]
  {
    if xs[i] == xs[j] {
      assert Linked(sg, Some(xs[i]), xs[i..]);
      assert Linked(sg, Some(xs[j]), xs[j..]);
      LinkedUnique(sg, Some(xs[i]), xs[i..], xs[j..]);
      assert false;
    }
  }

  /** The distinct elements of a sequence are as many as its length. */
  lemma {:induction false} DistinctCard(xs: seq<Word>)
    requires forall i, j :: 0 <= i < j < |xs| ==> xs[i] != xs[j]
    ensures |set i | 0 <= i < |xs| :: xs[i]| == |xs|
  {
    if xs != [] {
      var n := |xs| - 1;
      DistinctCard(xs[..n]);
      var front := set i | 0 <= i < n :: xs[..n][i];
      var all := set i | 0 <= i < |xs| :: xs[i];
      assert all == front + {xs[n]};
      assert xs[n] !in front;
    }
  }

  /** A subset is no larger than its superset. */
  lemma SubsetCard(a: set<Word>, b: set<Word>)
    requires a <= b
    ensures |a| <= |b|
  {
    assert b == a + (b - a);
    assert a * (b - a) == {};
  }

  /** Following as many cells as there are subgoals finds every follower
      list that ends: a list that ends never revisits a subgoal. So the
      engine's walks, which stop after that many cells, miss no list, and a
      walk that runs out of fuel is on a cycle, where the source would loop
      for ever. */
  lemma FuelSuffices(sg: map<Word, Subgoal>, start: Option<Word>, fuel: nat)
    requires FollowerChain(sg, start, fuel).Some?
    ensures FollowerChain(sg, start, |sg|) == FollowerChain(sg, start, fuel)
  {
    var xs := FollowerChain(sg, start, fuel).value;
    FollowerChainIsLinked(sg, start, fuel, xs);
    forall i, j | 0 <= i < j < |xs| ensures xs[i] != xs[j] {
      LinkedDistinct(sg, start, xs, i, j);
    }
    DistinctCard(xs);
    var elems := set i | 0 <= i < |xs| :: xs[i];
    SubsetCard(elems, sg.Keys);
    assert |sg.Keys| == |sg|;
    FollowerChainIsLinked(sg, start, |sg|, xs);
  }

  // ---------------------------------------------------------------------
  // The generator, cut and pneg stack helpers

  // These are only declared in runtime/mercury_stacks.h; what they do is
  // taken from the comments there on the three stacks.

  /** MR_push_generator: a new top entry for the generator at `frame`. */
  function PushGenerator(l: Live<Word, nat>, frame: Word, s: Word): Live<Word, nat> {
    l.(gens := l.gens + [GenStackFrame(frame, s)])
  }

  /** MR_pop_generator: drop the top entry. None on an empty stack. */
  function PopGenerator(l: Live<Word, nat>): Option<Live<Word, nat>> {
    if |l.gens| == 0 then None else Some(l.(gens := l.gens[..|l.gens| - 1]))
  }

  /** MR_top_generator_table: the subgoal of the top entry; NULL on an empty
      stack. */
  function TopGeneratorTable(l: Live<Word, nat>): Word {
    if |l.gens| == 0 then 0 else l.gens[|l.gens| - 1].subgoal
  }

  /** Pushing a generator and popping it again changes nothing, and while it
      is on top it is the top generator's subgoal. */
  lemma PushThenPop(l: Live<Word, nat>, frame: Word, s: Word)
    ensures TopGeneratorTable(PushGenerator(l, frame, s)) == s
    ensures PopGenerator(PushGenerator(l, frame, s)) == Some(l)
  {
    assert (l.gens + [GenStackFrame(frame, s)])[..|l.gens|] == l.gens;
  }

  /** MR_commit_cut: the commit's goal has succeeded, so its cut stack entry
      goes, and so do the generator stack entries it covers (those from its
      saved gen_next up). None on an empty cut stack or a saved gen_next
      outside the generator stack. */
  function CommitCut(l: Live<Word, nat>): (r: Option<Live<Word, nat>>)
    ensures r.Some? ==> |l.cuts| > 0 && 0 <= l.cuts[|l.cuts| - 1].genNext <= |l.gens| &&
                        r.value.cuts == l.cuts[..|l.cuts| - 1] &&
                        r.value.gens == l.gens[..l.cuts[|l.cuts| - 1].genNext] &&
                        r.value.state == l.state && r.value.pnegs == l.pnegs
    ensures r.None? <==> |l.cuts| == 0 || !(0 <= l.cuts[|l.cuts| - 1].genNext <= |l.gens|)
  {
    if |l.cuts| == 0 then None
    else
      var top := l.cuts[|l.cuts| - 1];
      if !(0 <= top.genNext <= |l.gens|) then None
      else Some(l.(cuts := l.cuts[..|l.cuts| - 1], gens := l.gens[..top.genNext]))
  }

  /** MR_register_suspension: the consumer joins the consumers of the
      innermost possibly negated context, if there is one. */
  function RegisterSuspension(l: Live<Word, nat>, c: nat): (r: Live<Word, nat>)
    ensures r.state == l.state && r.gens == l.gens && r.cuts == l.cuts && |r.pnegs| == |l.pnegs|
    ensures |l.pnegs| > 0 ==> r.pnegs[|l.pnegs| - 1].consumers == [c] + l.pnegs[|l.pnegs| - 1].consumers
    ensures forall i :: 0 <= i < |l.pnegs| - 1 ==> r.pnegs[i] == l.pnegs[i]
  {
    if |l.pnegs| == 0 then l
    else
      var top := l.pnegs[|l.pnegs| - 1];
      l.(pnegs := l.pnegs[|l.pnegs| - 1 := top.(consumers := [c] + top.consumers)])
  }

  // ---------------------------------------------------------------------
  // Extending saved consumer states

  /** extend_consumer_stacks on a consumer's saved state, against a leader
      whose generator frame is leaderFr: the widened segments, and, when the
      nondet segment was widened, the pruning of its new part (with the old
      part already pruned and no subgoal, so no merges). */
  function ExtendConsumerState(l: Live<Word, nat>, img: SavedState, leaderFr: Word): (r: Option<SavedState>)
    ensures r.Some? ==> ExtendImage(l, img, leaderFr).Some?
    ensures r.Some? ==>
      var e := ExtendImage(l, img, leaderFr).value;
      r.value == e.(nonBlock := r.value.nonBlock, genNext := r.value.genNext) &&
      |r.value.nonBlock| == |e.nonBlock|
    ensures ExtendImage(l, img, leaderFr).Some? && ExtendImage(l, img, leaderFr).value.nonRealStart >= img.nonRealStart ==>
      r == ExtendImage(l, img, leaderFr)
  {
    var e := ExtendImage(l, img, leaderFr);
    if e.None? then None
    else if e.value.nonRealStart < img.nonRealStart then
      var p := Prune(Env(e.value.nonRealStart, |img.nonBlock| > 0, l.gens, l.cuts, None),
                     e.value.nonBlock, |img.nonBlock|, e.value.genNext);
      if p.fault.Fatal? then None else Some(e.value.(nonBlock := p.block, genNext := p.genNext))
    else e
  }

  /** A way of extending saved states: extend_consumer_stacks on a fixed
      live state against a fixed leader. The walks below are stated for
      any such function. */
  type Extension = SavedState -> Option<SavedState>

  /** extend_consumer_stacks against the leader whose generator frame is
      leaderFr, on the live state l. */
  function Against(l: Live<Word, nat>, leaderFr: Word): Extension {
    img => ExtendConsumerState(l, img, leaderFr)
  }

  /** The consumers `ids` extended one after the other, as the inner loop of
      make_subgoal_follow_leader does. None at the first consumer that does
      not exist or whose extension fails. */
  function ExtendAll(ext: Extension, cs: seq<Consumer>, ids: seq<nat>): (r: Option<seq<Consumer>>)
    ensures r.Some? ==> |r.value| == |cs|
    decreases |ids|
  {
    if ids == [] then Some(cs)
    else if ids[0] >= |cs| then None
    else
      var e := ext(cs[ids[0]].saved);
      if e.None? then None
      else ExtendAll(ext, cs[ids[0] := cs[ids[0]].(saved := e.value)], ids[1..])
  }

  /** Extending consumers changes only the saved states of the consumers
      extended, and only by extensions: every consumer not in `ids` is as it
      was, and every consumer in it has only its saved state changed. */
  lemma {:induction false} ExtendAllTouchesOnlyListed(ext: Extension, cs: seq<Consumer>, ids: seq<nat>)
    requires ExtendAll(ext, cs, ids).Some?
    ensures var r := ExtendAll(ext, cs, ids).value;
      (forall c :: 0 <= c < |cs| && c !in ids ==> r[c] == cs[c]) &&
      (forall c :: 0 <= c < |cs| ==> r[c] == cs[c].(saved := r[c].saved))
    decreases |ids|
  {
    if ids != [] {
      var e := ext(cs[ids[0]].saved);
      var cs1 := cs[ids[0] := cs[ids[0]].(saved := e.value)];
      ExtendAllTouchesOnlyListed(ext, cs1, ids[1..]);
      forall c | 0 <= c < |cs| && c !in ids ensures ExtendAll(ext, cs, ids).value[c] == cs[c] {
        assert c !in ids[1..] && c != ids[0];
      }
    }
  }

  /** Extending the consumers of a + b is extending those of a and then
      those of b. */
  lemma {:induction false} ExtendAllAppend(ext: Extension, cs: seq<Consumer>, a: seq<nat>, b: seq<nat>)
    ensures ExtendAll(ext, cs, a + b) ==
      (var first := ExtendAll(ext, cs, a);
       if first.None? then None else ExtendAll(ext, first.value, b))
    decreases |a|
  {
    if a == [] {
      assert a + b == b;
    } else {
      assert (a + b)[0] == a[0] && (a + b)[1..] == a[1..] + b;
      if a[0] < |cs| {
        var e := ext(cs[a[0]].saved);
        if e.Some? {
          ExtendAllAppend(ext, cs[a[0] := cs[a[0]].(saved := e.value)], a[1..], b);
        }
      }
    }
  }

  /** Extending a saved state a second time against the same leader changes
      nothing: the first extension already reached the nearest common
      ancestor, so the second neither widens a segment nor prunes again. */
  lemma ExtendConsumerStateIdempotent(l: Live<Word, nat>, img: SavedState, leaderFr: Word)
    requires ExtendConsumerState(l, img, leaderFr).Some?
    ensures ExtendConsumerState(l, ExtendConsumerState(l, img, leaderFr).value, leaderFr) ==
              ExtendConsumerState(l, img, leaderFr)
  {
    ExtendTwiceIsExtendOnce(l, img, leaderFr, ExtendConsumerState(l, img, leaderFr).value);
  }

  /** Extension reads the live registers, stacks, generator and cut entries,
      and nothing of the pneg stack. */
  lemma ExtendConsumerStateIgnoresPnegs(l: Live<Word, nat>, l2: Live<Word, nat>, img: SavedState, leaderFr: Word)
    requires l2.state == l.state && l2.gens == l.gens && l2.cuts == l.cuts
    ensures ExtendConsumerState(l2, img, leaderFr) == ExtendConsumerState(l, img, leaderFr)
  {
    assert ExtendImage(l2, img, leaderFr) == ExtendImage(l, img, leaderFr);
  }

  /** b is the saved state a, or a extended (once, and so for good) against
      the leader whose generator frame is leaderFr, on the live state l. */
  ghost predicate ExtendedOnce(l: Live<Word, nat>, leaderFr: Word, a: SavedState, b: SavedState) {
    b == a || ExtendConsumerState(l, a, leaderFr) == Some(b)
  }

  lemma ExtendedOnceTrans(l: Live<Word, nat>, leaderFr: Word, a: SavedState, b: SavedState, c: SavedState)
    requires ExtendedOnce(l, leaderFr, a, b) && ExtendedOnce(l, leaderFr, b, c)
    ensures ExtendedOnce(l, leaderFr, a, c)
  {
    if b != a && c != b {
      ExtendConsumerStateIdempotent(l, a, leaderFr);
    }
  }

  /** However often the walk extends a consumer against one leader, its
      saved state ends up as it was or extended once. */
  lemma {:induction false} ExtendAllExtendsOnce(l: Live<Word, nat>, leaderFr: Word, cs: seq<Consumer>, ids: seq<nat>)
    requires ExtendAll(Against(l, leaderFr), cs, ids).Some?
    ensures forall c :: 0 <= c < |cs| ==>
              ExtendedOnce(l, leaderFr, cs[c].saved, ExtendAll(Against(l, leaderFr), cs, ids).value[c].saved)
    decreases |ids|
  {
    if ids != [] {
      var e := ExtendConsumerState(l, cs[ids[0]].saved, leaderFr);
      var cs1 := cs[ids[0] := cs[ids[0]].(saved := e.value)];
      var r := ExtendAll(Against(l, leaderFr), cs, ids).value;
      assert r == ExtendAll(Against(l, leaderFr), cs1, ids[1..]).value;
      ExtendAllExtendsOnce(l, leaderFr, cs1, ids[1..]);
      forall c | 0 <= c < |cs| ensures ExtendedOnce(l, leaderFr, cs[c].saved, r[c].saved) {
        if c == ids[0] {
          ExtendedOnceTrans(l, leaderFr, cs[c].saved, cs1[c].saved, r[c].saved);
        } else {
          assert cs1[c] == cs[c];
        }
      }
    }
  }

  // ---------------------------------------------------------------------
  // Merging subgoals into a leader's component

  /** The consumers of the subgoals xs, subgoal by subgoal, each subgoal's
      in list order. */
  function ConsumersOf(sg: map<Word, Subgoal>, xs: seq<Word>): seq<nat>
    requires forall i :: 0 <= i < |xs| ==> xs[i] in sg
  {
    if xs == [] then [] else sg[xs[0]].consumers + ConsumersOf(sg, xs[1..])
  }

  /** The subgoals xs given `leader` as their leader, one after the other
      as the walk of make_subgoal_follow_leader reaches them. */
  function Leaders(sg: map<Word, Subgoal>, xs: seq<Word>, leader: Word): (r: map<Word, Subgoal>)
    ensures r.Keys == sg.Keys
    decreases |xs|
  {
    if xs == [] then sg
    else
      var r := Leaders(sg, xs[..|xs| - 1], leader);
      var x := xs[|xs| - 1];
      if x in r then r[x := r[x].(leader := Some(leader))] else r
  }

  /** Each subgoal on xs has the leader and every other subgoal is as it
      was. */
  lemma {:induction false} LeadersAt(sg: map<Word, Subgoal>, xs: seq<Word>, leader: Word)
    ensures forall a :: a in sg ==>
      Leaders(sg, xs, leader)[a] == (if a in xs then sg[a].(leader := Some(leader)) else sg[a])
    decreases |xs|
  {
    if xs != [] {
      var init := xs[..|xs| - 1];
      LeadersAt(sg, init, leader);
      assert forall a :: a in xs <==> a in init || a == xs[|xs| - 1] by {
        assert xs == init + [xs[|xs| - 1]];
      }
    }
  }

  /** The end of make_subgoal_follow_leader: the follower gets its leader,
      its follower list is written where the leader's followers tail points
      (the next field of the leader's own cell, as the tail is never
      advanced), and its own list becomes empty. */
  function Splice(sg: map<Word, Subgoal>, follower: Word, leader: Word): (r: map<Word, Subgoal>)
    requires follower in sg && leader in sg
    ensures r.Keys == sg.Keys
  {
    var s1 := sg[follower := sg[follower].(leader := Some(leader))];
    var s2 := s1[leader := s1[leader].(followerNext := s1[follower].followers)];
    s2[follower := s2[follower].(followers := None)]
  }

  /** The subgoal and consumer tables. */
  datatype Registry = Registry(subgoals: map<Word, Subgoal>, consumers: seq<Consumer>)

  /** make_subgoal_follow_leader: every subgoal on the follower's follower
      list has the consumers on its list extended against the leader, and
      then gets the leader as its leader; then the splice. None where a
      subgoal is unknown, the list does not end, or an extension fails. */
  function FollowLeader(l: Live<Word, nat>, reg: Registry, follower: Word, leader: Word): (r: Option<Registry>)
    ensures r.Some? ==> r.value.subgoals.Keys == reg.subgoals.Keys && |r.value.consumers| == |reg.consumers|
  {
    var sg := reg.subgoals;
    if follower !in sg || leader !in sg then None
    else
      var chain := FollowerChain(sg, sg[follower].followers, |sg|);
      if chain.None? then None
      else
        var cs := ExtendAll(Against(l, sg[leader].generatorFr), reg.consumers, ConsumersOf(sg, chain.value));
        if cs.None? then None
        else Some(Registry(Splice(Leaders(sg, chain.value, leader), follower, leader), cs.value))
  }

  /** What is left of make_subgoal_follow_leader's walk at the cell cur
      with at most fuel cells to go: the consumers of the subgoals from cur
      on extended, starting from the consumers cs. */
  function ExtendFrom(ext: Extension, sg: map<Word, Subgoal>, cs: seq<Consumer>, cur: Option<Word>, fuel: nat)
    : Option<seq<Consumer>>
  {
    var chain := FollowerChain(sg, cur, fuel);
    if chain.None? then None else ExtendAll(ext, cs, ConsumersOf(sg, chain.value))
  }

  /** One cell of the walk: extending the consumers of the subgoal there,
      then walking on from its next cell. */
  lemma ExtendFromStep(ext: Extension, sg: map<Word, Subgoal>, cs: seq<Consumer>, x: Word, fuel: nat)
    requires x in sg && fuel > 0
    ensures ExtendFrom(ext, sg, cs, Some(x), fuel) ==
      (var first := ExtendAll(ext, cs, sg[x].consumers);
       if first.None? then None else ExtendFrom(ext, sg, first.value, sg[x].followerNext, fuel - 1))
  {
    var rest := FollowerChain(sg, sg[x].followerNext, fuel - 1);
    if rest.Some? {
      assert ([x] + rest.value)[1..] == rest.value;
      ExtendAllAppend(ext, cs, sg[x].consumers, ConsumersOf(sg, rest.value));
    }
  }

  /** Giving the leader to one more subgoal leaves its consumers and its
      next cell as they were. */
  lemma LeadersSnoc(sg: map<Word, Subgoal>, done: seq<Word>, x: Word, leader: Word)
    requires x in sg
    ensures var ld := Leaders(sg, done, leader);
      ld[x].consumers == sg[x].consumers && ld[x].followerNext == sg[x].followerNext &&
      ld[x := ld[x].(leader := Some(leader))] == Leaders(sg, done + [x], leader)
  {
    LeadersAt(sg, done, leader);
    assert (done + [x])[..|done|] == done;
  }

  /** The loop of make_subgoal_follow_leader as the source runs it, on the
      subgoals sg as they are at each step: at the cell cur, the subgoal's
      consumers are extended and the subgoal gets the leader, then the walk
      goes on from the subgoal's next cell. None where a cell is unknown,
      the list is longer than fuel or an extension fails. */
  function FollowLoop(ext: Extension, sg: map<Word, Subgoal>, cs: seq<Consumer>, cur: Option<Word>, fuel: nat,
                      leader: Word): (r: Option<(map<Word, Subgoal>, seq<Consumer>)>)
    ensures r.Some? ==> r.value.0.Keys == sg.Keys
    decreases fuel
  {
    if cur.None? then Some((sg, cs))
    else if fuel == 0 || cur.value !in sg then None
    else
      var x := cur.value;
      var first := ExtendAll(ext, cs, sg[x].consumers);
      if first.None? then None
      else FollowLoop(ext, sg[x := sg[x].(leader := Some(leader))], first.value, sg[x].followerNext, fuel - 1, leader)
  }

  /** The loop, started after the subgoals done were given the leader,
      finds the rest of the follower list, extends exactly the consumers of
      the subgoals on it, and gives them the leader. */
  lemma {:induction false} FollowLoopIsWalk(ext: Extension, sg: map<Word, Subgoal>, done: seq<Word>,
                                           cs: seq<Consumer>, cur: Option<Word>, fuel: nat, leader: Word)
    ensures var t := ExtendFrom(ext, sg, cs, cur, fuel);
      FollowLoop(ext, Leaders(sg, done, leader), cs, cur, fuel, leader) ==
        (if t.None? then None else Some((Leaders(sg, done + FollowerChain(sg, cur, fuel).value, leader), t.value)))
    decreases fuel
  {
    if cur.None? {
      assert done + [] == done;
    } else if fuel > 0 && cur.value in sg {
      var x := cur.value;
      LeadersSnoc(sg, done, x, leader);
      ExtendFromStep(ext, sg, cs, x, fuel);
      var first := ExtendAll(ext, cs, sg[x].consumers);
      if first.Some? {
        FollowLoopIsWalk(ext, sg, done + [x], first.value, sg[x].followerNext, fuel - 1, leader);
        var rest := FollowerChain(sg, sg[x].followerNext, fuel - 1);
        if rest.Some? {
          assert done + ([x] + rest.value) == (done + [x]) + rest.value;
        }
      }
    }
  }

  /** make_subgoal_follow_leader as its loop: it fails exactly when the
      loop from the follower's list does, and otherwise splices the
      follower into the subgoals the loop leaves. */
  lemma FollowLeaderByLoop(l: Live<Word, nat>, reg: Registry, follower: Word, leader: Word)
    requires follower in reg.subgoals && leader in reg.subgoals
    ensures var sg := reg.subgoals;
      var f := FollowLoop(Against(l, sg[leader].generatorFr), sg, reg.consumers, sg[follower].followers, |sg|, leader);
      (f.None? <==> FollowLeader(l, reg, follower, leader).None?) &&
      (f.Some? ==> FollowLeader(l, reg, follower, leader).value == Registry(Splice(f.value.0, follower, leader), f.value.1))
  {
    var sg := reg.subgoals;
    FollowLoopIsWalk(Against(l, sg[leader].generatorFr), sg, [], reg.consumers, sg[follower].followers, |sg|, leader);
    var chain := FollowerChain(sg, sg[follower].followers, |sg|);
    if chain.Some? {
      assert [] + chain.value == chain.value;
    }
  }

  /** The merges a suspension's pruning walk asked for, in order. */
  function MergeAll(l: Live<Word, nat>, reg: Registry, followers: seq<Word>, leader: Word): (r: Option<Registry>)
    ensures r.Some? ==> r.value.subgoals.Keys == reg.subgoals.Keys && |r.value.consumers| == |reg.consumers|
    decreases |followers|
  {
    if followers == [] then Some(reg)
    else
      var r := FollowLeader(l, reg, followers[0], leader);
      if r.None? then None else MergeAll(l, r.value, followers[1..], leader)
  }

  /** b is a with at most the three fields a merge writes changed. */
  predicate SameButLinks(a: Subgoal, b: Subgoal) {
    b == a.(leader := b.leader, followers := b.followers, followerNext := b.followerNext)
  }

  /** What a merge does: every subgoal that followed the follower (the
      follower itself included, while it is its own first follower), and the
      follower, now has the leader as its leader; the leader's next follower
      cell is the follower's old list, whatever was there before; the
      follower's own list is empty; no other field of any subgoal changes,
      and only the consumers of the subgoals on the list are extended. */
  lemma FollowLeaderEffect(l: Live<Word, nat>, reg: Registry, follower: Word, leader: Word)
    requires FollowLeader(l, reg, follower, leader).Some?
    ensures var sg := reg.subgoals;
      var r := FollowLeader(l, reg, follower, leader).value;
      var chain := FollowerChain(sg, sg[follower].followers, |sg|).value;
      r.subgoals.Keys == sg.Keys &&
      (forall a :: a in sg ==> SameButLinks(sg[a], r.subgoals[a])) &&
      (forall a :: a in sg && a != follower && a != leader ==>
         r.subgoals[a] == (if a in chain then sg[a].(leader := Some(leader)) else sg[a])) &&
      (forall a :: a in sg && (a in chain || a == follower) ==> r.subgoals[a].leader == Some(leader)) &&
      r.subgoals[leader].followerNext == sg[follower].followers &&
      r.subgoals[follower].followers.None? &&
      (forall c :: 0 <= c < |reg.consumers| && c !in ConsumersOf(sg, chain) ==> r.consumers[c] == reg.consumers[c])
  {
    var sg := reg.subgoals;
    var chain := FollowerChain(sg, sg[follower].followers, |sg|).value;
    var ld := Leaders(sg, chain, leader);
    LeadersAt(sg, chain, leader);
    SpliceEffect(ld, follower, leader);
    ExtendAllTouchesOnlyListed(Against(l, sg[leader].generatorFr), reg.consumers, ConsumersOf(sg, chain));
  }

  /** What the splice does, field by field. */
  lemma SpliceEffect(sg: map<Word, Subgoal>, follower: Word, leader: Word)
    requires follower in sg && leader in sg
    ensures var r := Splice(sg, follower, leader);
      (forall a :: a in sg && a != follower && a != leader ==> r[a] == sg[a]) &&
      (forall a :: a in sg ==> SameButLinks(sg[a], r[a])) &&
      r[follower].leader == Some(leader) &&
      (leader != follower ==> r[leader].leader == sg[leader].leader) &&
      r[leader].followerNext == sg[follower].followers &&
      r[follower].followers.None?
  {
  }

  /** The source never advances a leader's followers tail, so of two merges
      into the same leader the second overwrites the first: afterwards the
      leader's next follower cell is the second follower's list, and the
      first follower's list is linked from the leader only if it was that
      list. */
  lemma SecondMergeOverwritesFirst(l: Live<Word, nat>, reg: Registry, first: Word, second: Word, leader: Word)
    requires FollowLeader(l, reg, first, leader).Some?
    requires FollowLeader(l, FollowLeader(l, reg, first, leader).value, second, leader).Some?
    ensures var mid := FollowLeader(l, reg, first, leader).value;
      var r := FollowLeader(l, mid, second, leader).value;
      r.subgoals[leader].followerNext == mid.subgoals[second].followers &&
      (r.subgoals[leader].followerNext == reg.subgoals[first].followers <==>
         mid.subgoals[second].followers == reg.subgoals[first].followers)
  {
    var mid := FollowLeader(l, reg, first, leader).value;
    FollowLeaderEffect(l, reg, first, leader);
    FollowLeaderEffect(l, mid, second, leader);
  }

  /** A merge changes the subgoals only in their links, and the consumers
      only in their saved states. */
  lemma FollowLeaderKeepsFields(l: Live<Word, nat>, reg: Registry, follower: Word, leader: Word)
    requires FollowLeader(l, reg, follower, leader).Some?
    ensures var r := FollowLeader(l, reg, follower, leader).value;
      (forall a :: a in reg.subgoals ==> SameButLinks(reg.subgoals[a], r.subgoals[a])) &&
      (forall c :: 0 <= c < |reg.consumers| ==> r.consumers[c] == reg.consumers[c].(saved := r.consumers[c].saved))
  {
    var sg := reg.subgoals;
    var chain := FollowerChain(sg, sg[follower].followers, |sg|).value;
    SpliceEffect(Leaders(sg, chain, leader), follower, leader);
    LeadersAt(sg, chain, leader);
    ExtendAllTouchesOnlyListed(Against(l, sg[leader].generatorFr), reg.consumers, ConsumersOf(sg, chain));
  }

  /** So do any number of merges. */
  lemma {:induction false} MergeAllKeepsFields(l: Live<Word, nat>, reg: Registry, followers: seq<Word>, leader: Word)
    requires MergeAll(l, reg, followers, leader).Some?
    ensures var r := MergeAll(l, reg, followers, leader).value;
      (forall a :: a in reg.subgoals ==> SameButLinks(reg.subgoals[a], r.subgoals[a])) &&
      (forall c :: 0 <= c < |reg.consumers| ==> r.consumers[c] == reg.consumers[c].(saved := r.consumers[c].saved))
    decreases |followers|
  {
    if followers != [] {
      var mid := FollowLeader(l, reg, followers[0], leader).value;
      FollowLeaderKeepsFields(l, reg, followers[0], leader);
      MergeAllKeepsFields(l, mid, followers[1..], leader);
    }
  }

  /** Every merge into one leader extends consumers against that leader's
      generator frame, so after any number of them each consumer's saved
      state is as it was or extended once. */
  lemma {:induction false} MergeAllExtendsOnce(l: Live<Word, nat>, reg: Registry, followers: seq<Word>, leader: Word)
    requires leader in reg.subgoals && MergeAll(l, reg, followers, leader).Some?
    ensures forall c :: 0 <= c < |reg.consumers| ==>
              ExtendedOnce(l, reg.subgoals[leader].generatorFr, reg.consumers[c].saved,
                           MergeAll(l, reg, followers, leader).value.consumers[c].saved)
    decreases |followers|
  {
    if followers != [] {
      var sg := reg.subgoals;
      var f := sg[leader].generatorFr;
      var mid := FollowLeader(l, reg, followers[0], leader).value;
      var r := MergeAll(l, reg, followers, leader).value;
      var chain := FollowerChain(sg, sg[followers[0]].followers, |sg|).value;
      ExtendAllExtendsOnce(l, f, reg.consumers, ConsumersOf(sg, chain));
      FollowLeaderKeepsFields(l, reg, followers[0], leader);
      MergeAllExtendsOnce(l, mid, followers[1..], leader);
      forall c | 0 <= c < |reg.consumers| ensures ExtendedOnce(l, f, reg.consumers[c].saved, r.consumers[c].saved) {
        ExtendedOnceTrans(l, f, reg.consumers[c].saved, mid.consumers[c].saved, r.consumers[c].saved);
      }
    }
  }

  /** A follower list depends only on the subgoals' next cells. */
  lemma {:induction false} FollowerChainSameLinks(sg: map<Word, Subgoal>, sg2: map<Word, Subgoal>, start: Option<Word>, fuel: nat)
    requires sg2.Keys == sg.Keys
    requires forall a :: a in sg ==> sg2[a].followerNext == sg[a].followerNext
    ensures FollowerChain(sg2, start, fuel) == FollowerChain(sg, start, fuel)
    decreases fuel
  {
    if start.Some? && fuel > 0 && start.value in sg {
      FollowerChainSameLinks(sg, sg2, sg[start.value].followerNext, fuel - 1);
    }
  }
}
