# Minimal model tabling in the Mercury runtime, in Dafny

This project models the minimal-model tabling engine of the Mercury runtime
(`runtime/mercury_minimal_model.c`) and the nondet and det stack frame
primitives it is built on (`runtime/mercury_stacks.h`). It also proves
properties of the model.

The engine is driven by these operations:

- `MR_setup_subgoal` finds or creates the subgoal of a call-table trie node.
- The suspend entry and its Call label run when a call is a variant of a
  subgoal that is still active:
  - they push a frame;
  - they save the stacks between the nearest common ancestor of the call
    and the subgoal's generator in a new consumer;
  - they prune the right branches of that saved copy; this merges any other
    generator found there into the subgoal's connected component;
  - they append the consumer to the subgoal's list and fail.
- The resume entry and its labels (StartCompletionOp, LoopOverSubgoals,
  LoopOverSuspensions, ReturnAnswer, RedoPoint, RestartPoint, FixPointCheck,
  ReachedFixpoint) run for the leader of a component:
  - they restore each consumer's saved state in turn and return to it every
    answer it has not seen yet;
  - they repeat until no consumer of the component has an unreturned answer;
  - then they mark the component complete, restore the leader's state and
    return.
- `MR_table_nondet_commit` pops the cut stack and fails.

The model is value-based.

- **`Stacks`**
  - the frame layout, with its slot offsets and sizes;
  - a function for each frame macro (`MR_mkframe`, `MR_mktempframe`,
    `MR_mkdettempframe`, `MR_succeed`, `MR_succeed_discard`, `MR_fail`,
    `MR_redo`);
  - a `Machine` class whose methods work in place on the two stack arrays
    and are proved equal to those functions.
- **`Segments`**
  - walks along succfr chains (the nearest common ancestor);
  - copying stack segments out and back;
  - widening a saved segment;
  - translating saved addresses to real ones and back.
- **`Snapshots`**
  - `save_state`, `restore_state` and `extend_consumer_stacks` on a value
    image of the machine and of the generator, cut and pneg stacks.
- **`Pruning`**
  - the walk of `prune_right_branches` as a pure function on the saved copy;
  - an in-place method over the array holding the copy, proved equal to
    that function.
- **`Tables`**
  - the subgoal, consumer and resume-info records;
  - the follower lists;
  - the generator, cut and pneg stack helpers;
  - `make_subgoal_follow_leader`.
- **`Steps`**
  - one function per entry point and per resume label, from the whole
    engine state (`World`) to the next state and the place control goes
    next (`Next`: another label, a code address, or `Abort` where the
    source fails an assertion or calls `MR_fatal_error`).
- **`MinimalModel`**
  - the `Engine` class holds the engine's global state in fields;
  - each of its methods is proved to do what the corresponding `Steps` or
    `Tables` function says.

Code addresses are distinct negative words: `MR_RESUME_ENTRY` is -1,
`MR_do_fail` is -2, `MR_table_nondet_commit` is -3 and the RedoPoint label
is -4. Frame pointers are indices into the nondet stack array. Subgoals are
named by address, with 0 standing for NULL. Consumers are named by their
number.

## Model

| member | source | states |
|---|---|---|
| Stacks.FrameSizesOrdered | runtime/mercury_stacks.h:134-149 | The three frame sizes are ordered as the stack walkers rely on (temp < det temp < full), and saved variables start at minus the full size. |
| Stacks.FramevarsBelowFixedSlots | runtime/mercury_stacks.h:149-179 | A framevar of a frame with numslots slots lies inside that frame, below its table detfr slot; different framevar numbers name different words. |
| Stacks.StackvarsOfNewFrame | runtime/mercury_stacks.h:87-120 | After sp is raised by size, stackvars 1..size are the words just pushed, and stackvar 1 is the top word. |
| Stacks.AfterMkframe | runtime/mercury_stacks.h:186-211 | A new frame sits numslots + 6 words above the old maxfr and becomes curfr. Its prevfr is the old maxfr, its redoip is the one given, its redofr is itself, its succip and succfr are the caller's, and its table detfr is sp. Nothing at or below the old maxfr changes. |
| Stacks.AfterMktempframe | runtime/mercury_stacks.h:236-247 | A 3-word temp frame: prevfr is the old maxfr, the redoip is the one given, redofr is curfr; curfr is unchanged and the stack below is untouched. |
| Stacks.AfterMkdettempframe | runtime/mercury_stacks.h:249-261 | A 4-word det temp frame: like a temp frame, and it also records sp in its detfr slot. |
| Stacks.AfterSucceed | runtime/mercury_stacks.h:263-271 | Control returns to the frame's succip, curfr becomes its succfr, and nothing else changes. |
| Stacks.AfterSucceedDiscard | runtime/mercury_stacks.h:273-282 | As succeed, and maxfr also drops to the frame's prevfr. |
| Stacks.AfterFail | runtime/mercury_stacks.h:285-292 | maxfr drops to the top frame's prevfr; curfr and the target are that frame's redofr and redoip. |
| Stacks.AfterRedo | runtime/mercury_stacks.h:295-300 | curfr and the target are the top frame's redofr and redoip; maxfr is unchanged. |
| Stacks.FailUndoesMkframe | runtime/mercury_stacks.h:193-292 | Failing out of a frame just made by mkframe does what a redo of the frame below would do. |
| Stacks.FailUndoesMktempframe | runtime/mercury_stacks.h:236-292 | The same for a temp frame. |
| Stacks.RedoIntoTempframe | runtime/mercury_stacks.h:236-300 | A redo right after mktempframe jumps to the frame's redoip in the caller's curfr. |
| Stacks.RedoIntoDetTempframe | runtime/mercury_stacks.h:249-300 | The same for a det temp frame. |
| Stacks.RedoIntoMkframe | runtime/mercury_stacks.h:193-300 | A redo right after mkframe jumps to the new frame's redoip, with the state left as mkframe made it. |
| Stacks.SucceedAfterMkframe | runtime/mercury_stacks.h:193-271 | Succeeding out of a new frame returns to the caller's succip and curfr and keeps the frame. |
| Stacks.SucceedDiscardUndoesMkframe | runtime/mercury_stacks.h:193-282 | succeed_discard out of a new frame restores every register of the caller. |
| Stacks.Machine.IncrSp | runtime/mercury_stacks.h:107-113 | Raises sp by n and changes nothing else. |
| Stacks.Machine.DecrSp | runtime/mercury_stacks.h:115-120 | Lowers sp by n and changes nothing else. |
| Stacks.Machine.Mkframe | runtime/mercury_stacks.h:193-211 | The in-place frame push leaves exactly the state AfterMkframe describes. |
| Stacks.Machine.Mktempframe | runtime/mercury_stacks.h:236-247 | The in-place push leaves exactly the state AfterMktempframe describes. |
| Stacks.Machine.Mkdettempframe | runtime/mercury_stacks.h:249-261 | The in-place push leaves exactly the state AfterMkdettempframe describes. |
| Stacks.Machine.Succeed | runtime/mercury_stacks.h:263-271 | The new state and the returned target are those of AfterSucceed. |
| Stacks.Machine.SucceedDiscard | runtime/mercury_stacks.h:273-282 | The new state and the returned target are those of AfterSucceedDiscard. |
| Stacks.Machine.Fail | runtime/mercury_stacks.h:285-292 | The new state and the returned target are those of AfterFail. |
| Stacks.Machine.Redo | runtime/mercury_stacks.h:295-300 | The new state and the returned target are those of AfterRedo. |
| Segments.Nca | runtime/mercury_minimal_model.c:503-533 | A result found by stepping the higher frame along succfr lies on both frames' succfr chains, and is no higher than either frame. |
| Segments.ReachesBelow | runtime/mercury_minimal_model.c:503-533 | A frame's succfr ancestors are never above it. |
| Segments.ReachesTrans | runtime/mercury_minimal_model.c:503-533 | Being a succfr ancestor is transitive. |
| Segments.NcaIsNearest | runtime/mercury_minimal_model.c:503-533 | When the two chains share an ancestor, the walk ends without fault, and every shared ancestor is at or below its result on its chain: it is the nearest common ancestor. |
| Segments.NcaSymmetric | runtime/mercury_minimal_model.c:503-533 | The result does not depend on the order of the two frames. |
| Segments.NcaOfAncestor | runtime/mercury_minimal_model.c:503-533 | The common ancestor of a frame and one of its descendants is the frame itself. |
| Segments.NcaAbsorbs | runtime/mercury_minimal_model.c:503-533 | Taking the common ancestor again with the same frame changes nothing. |
| Segments.SegmentSize | runtime/mercury_minimal_model.c:545-634 | A segment from start to top has top - start + 1 words when start <= top, and none otherwise. |
| Segments.Snapshot | runtime/mercury_minimal_model.c:545-634 | The saved block has the segment's size, and word k is the stack word at start + k. |
| Segments.CopyInto | runtime/mercury_minimal_model.c:640-687 | Copying a block back overwrites exactly the words from start to start + size - 1 and keeps the length. |
| Segments.RestoreUndoesSnapshot | runtime/mercury_minimal_model.c:545-687 | Copying a snapshot back onto the stack it came from gives the same stack. |
| Segments.RestoreUndoesPrefixCopy | runtime/mercury_minimal_model.c:640-687 | Copying back a saved prefix of the generator, cut or pneg stack gives the same stack. |
| Segments.Extend | runtime/mercury_minimal_model.c:701-841 | A widened block is the live words from the new start up to the old start, followed by the old saved block. |
| Segments.ExtendIsWiderSnapshot | runtime/mercury_minimal_model.c:701-841 | Widening a snapshot with live words that have not changed gives the snapshot taken from the new start. |
| Segments.RestoreExtended | runtime/mercury_minimal_model.c:701-841 | Restoring a widened block onto a stack that still holds the widened words gives the same stack as restoring the old block. |
| Segments.SavedToReal | runtime/mercury_minimal_model.c:843-867 | A saved offset translates exactly when it lies inside the block, and the real address is the real start plus the offset; None stands for the fatal out-of-bounds error. |
| Segments.RealToSaved | runtime/mercury_minimal_model.c:869-893 | A real address translates exactly when it lies inside the copied range, and the result is an offset inside the block. |
| Segments.RealToSavedInvertsSavedToReal | runtime/mercury_minimal_model.c:843-893 | The two translations are inverse to each other in both directions. |
| Segments.RealToSavedAsWritten | runtime/mercury_minimal_model.c:869-893 | As compiled, the guard is the same, but the returned pointer is whatever the uninitialised local variable held. |
| Segments.RealToSavedAsWrittenIsNotInverse | runtime/mercury_minimal_model.c:881-889 | For block 10..12 and address 11, the intended answer is offset 1; the function as written gives offset 1 only when the uninitialised value happens to be 1. |
| Snapshots.AncestorOf | runtime/mercury_minimal_model.c:545-634 | The snapshot starts from the nearest common ancestor of curfr and the generator frame, a frame whose fixed slots lie in the stack. |
| Snapshots.Save | runtime/mercury_minimal_model.c:545-634 | save_state records the four registers and the common ancestor. The nondet copy runs from prevfr(nca) + 1 up to maxfr. The det copy runs from table_detfr(nca) + 1 up to sp. The generator, cut and pneg stacks are saved whole. |
| Snapshots.Restore | runtime/mercury_minimal_model.c:640-687 | restore_state writes back exactly the saved words of both stacks and leaves the rest. It resets the four registers and puts back the saved generator, cut and pneg stacks. |
| Snapshots.RestoreAfterSave | runtime/mercury_minimal_model.c:545-687 | Restoring a state right after saving it leaves the whole machine as it was. |
| Snapshots.ExtendSegment | runtime/mercury_minimal_model.c:701-841 | A segment whose new start is not lower is kept. A lower start widens it with live words, and this succeeds exactly when the old block ends at the given top and the new range lies in the stack. |
| Snapshots.ExtendImage | runtime/mercury_minimal_model.c:701-841 | extend_consumer_stacks moves the common ancestor to the nearest common ancestor of the old one and the leader's generator frame, and widens both segments down to it. All other saved fields are kept. |
| Snapshots.ExtendImageSegments | runtime/mercury_minimal_model.c:701-841 | Each segment is widened exactly when its new start is below the old one; the widened words are live words. |
| Snapshots.ExtendTwiceIsExtendOnce | runtime/mercury_minimal_model.c:701-841 | Extending a state again against the same leader changes nothing. |
| Snapshots.RestoreAfterExtend | runtime/mercury_minimal_model.c:701-841 | An extended state is restorable wherever the old one was. While the live words it copied are unchanged, restoring it gives what restoring the old one gives. |
| Pruning.Classify | runtime/mercury_minimal_model.c:966-1093 | The branch of the if-chain, tested in order, holds if and only if its own test passes and every earlier one fails: inside the already-pruned part; off the main branch; the bottom frame; a generator frame, own or other; a cut frame; otherwise untouched. No branch is chosen exactly when the redofr slot lies below the copy, or when MR_gen_stack would be read outside its live entries. |
| Pruning.Apply | runtime/mercury_minimal_model.c:966-1096 | Each branch rewrites only its own redoip and moves down one frame. Only the own-generator branch changes gen_next. Only the other-generator branch adds a merge. A fault leaves the walk as it was. |
| Pruning.StepWith | runtime/mercury_minimal_model.c:941-1096 | One iteration moves strictly down the copy and records the branch it took, under that branch's condition. In bottom mode it never treats a frame as a generator; with a NULL subgoal it never merges. A frame whose prevfr is not below it stops the walk. |
| Pruning.StepPruned | runtime/mercury_minimal_model.c:966-985 | Inside the already-pruned part the step moves down one frame and counts its size off. A main branch frame of ordinary size passes the main branch on to its succfr. Nothing is written. |
| Pruning.StepOffMain | runtime/mercury_minimal_model.c:986-992 | A frame whose redofr is not the main branch frame is passed over. The walk moves down one frame and nothing else changes. |
| Pruning.StepBottomFrame | runtime/mercury_minimal_model.c:993-1003 | In bottom mode the last main branch frame of the copy gets RESUME_ENTRY as its redoip and the walk moves on. |
| Pruning.StepOwnGenerator | runtime/mercury_minimal_model.c:1004-1040 | The frame of the subgoal's own generator gets RESUME_ENTRY, gen_next becomes one more than the generator cursor and the cursor goes down. A frame smaller than an ordinary nondet frame fails the assertion. |
| Pruning.StepOtherGenerator | runtime/mercury_minimal_model.c:1041-1066 | Another generator's frame, with a subgoal, a full frame and the assertion holding, gets do_fail and adds that generator's subgoal to the merge list. If any of these fails the walk stops and the merge list is unchanged. |
| Pruning.StepCutFrame | runtime/mercury_minimal_model.c:1067-1082 | In bottom mode the frame of a live commit, other than cut entry 0, gets table_nondet_commit and the cut cursor goes down. A frame of ordinary size there fails the assertion. |
| Pruning.StepUntouched | runtime/mercury_minimal_model.c:1083-1093 | Any other main branch frame keeps its redoip; the do_fail write there is compiled only with table debugging. The walk moves down one frame and nothing else changes. |
| Pruning.StepStops | runtime/mercury_minimal_model.c:941-1005 | The walk stops at a frame whose size is not positive, at a frame too low in the copy for its redofr to be read, and at a main branch frame of a suspension's walk once the generator stack has been passed. |
| Pruning.RunWith | runtime/mercury_minimal_model.c:941-1097 | The loop ends below the copy unless it faults. |
| Pruning.Start | runtime/mercury_minimal_model.c:929-939 | The walk starts at the top frame of the copy, which is the main branch frame, with MR_gen_next - 1 and MR_cut_next - 1 as cursors. An empty copy is the fatal out-of-bounds error. |
| Pruning.RunKeepsInProgress | runtime/mercury_minimal_model.c:941-1097 | The frames visited go strictly downwards. Every word the walk changed is the redoip slot of a visited frame that took a writing branch, and it holds that branch's code address. |
| Pruning.PruneRewritesOnlyRedoips | runtime/mercury_minimal_model.c:897-1098 | prune_right_branches visits frames from the top of the copy downwards. Only redoip slots change, each to RESUME_ENTRY, do_fail or table_nondet_commit as its branch says. A visited frame whose branch writes nothing keeps its redoip. |
| Pruning.TraceOfRun | runtime/mercury_minimal_model.c:941-1096 | The walk's visits are, one for one, the states of the loop, each visit recording the branch its state took and each state the step from the one before. |
| Pruning.PruneVisitsByBranch | runtime/mercury_minimal_model.c:929-1096 | The whole walk from the top frame is a sequence of loop states starting at the top, each the step of the one before, and each visit is the branch Classify picks for its state. |
| Pruning.RunRespectsMode | runtime/mercury_minimal_model.c:915-1093 | The walk keeps to its mode for the whole loop. |
| Pruning.PruneRespectsMode | runtime/mercury_minimal_model.c:915-1093 | In bottom mode (already_pruned > 0) no generator branch is taken and neither merges nor gen_next change. Otherwise no bottom-frame or cut branch is taken, and gen_next stays as it was or points inside the generator stack. |
| Pruning.PruneWithoutSubgoalNeverMerges | runtime/mercury_minimal_model.c:1041-1064 | With a NULL subgoal, as in extension, no generator is merged. |
| Pruning.AsWrittenMergeAlwaysAborts | runtime/mercury_minimal_model.c:1046-1048 | Whenever the intended walk reaches another generator's frame, the assertion as written stops with saved_to_real's out-of-bounds error. |
| Pruning.AsWrittenMergeExample | runtime/mercury_minimal_model.c:1041-1064 | Take a two-frame copy whose top frame belongs to the generator of subgoal 2. The intended walk gives that frame do_fail and merges subgoal 2; the walk as written aborts. |
| Pruning.PruneRightBranches | runtime/mercury_minimal_model.c:897-1098 | The loop over the array holding the copy leaves exactly the block, gen_next, merge list and fault of the pure walk. |
| Pruning.PruneFrame | runtime/mercury_minimal_model.c:941-1096 | One in-place iteration equals one step of the pure walk. |
| Pruning.ApplyInPlace | runtime/mercury_minimal_model.c:966-1093 | One in-place branch equals the pure branch. |
| Tables.StatusName | runtime/mercury_minimal_model.c:286-301 | Every status has a non-empty name, and the INVALID fallback is never returned. |
| Tables.StatusNamesDistinct | runtime/mercury_minimal_model.c:286-301 | Two statuses have the same name exactly when they are the same status. |
| Tables.FollowerChain | runtime/mercury_minimal_model.c:1122-1135 | Following MR_sl_next cells from a list head gives at most fuel subgoals, all of them known. |
| Tables.FollowerChainIsLinked | runtime/mercury_minimal_model.c:1122-1135 | The chain found is exactly the linked follower list, in both directions: the walk finds every list no longer than the fuel. |
| Tables.LinkedUnique | runtime/mercury_minimal_model.c:1122-1135 | A list head determines its follower list. |
| Tables.LinkedDistinct | runtime/mercury_minimal_model.c:1122-1135 | A follower list that ends has no repeated subgoal. |
| Tables.FuelSuffices | runtime/mercury_minimal_model.c:1786-1833 | A list that ends within any fuel ends within as many cells as there are subgoals, with the same chain. |
| Tables.FollowerChainSameLinks | runtime/mercury_minimal_model.c:1786-1833 | Changes that keep every subgoal's next-follower cell keep every follower list. |
| Tables.PushThenPop | runtime/mercury_stacks.h:491-494 | A pushed generator is the top generator's subgoal, and popping it again gives back the stacks. |
| Tables.CommitCut | runtime/mercury_stacks.h:544-545 | Committing pops the top cut entry and cuts the generator stack back to that entry's gen_next. It fails exactly when there is no cut entry or the saved gen_next is out of range. The clean-up of the entry's generator list is not part of it (see "## Left out"). |
| Tables.RegisterSuspension | runtime/mercury_stacks.h:591 | The consumer is put at the head of the innermost pneg context's consumer list. Nothing else changes. |
| Tables.ExtendConsumerState | runtime/mercury_minimal_model.c:701-841 | A consumer's saved state is extended against the leader's generator frame. The widened nondet copy is re-pruned in bottom mode, which may change only its contents and gen_next. |
| Tables.ExtendAll | runtime/mercury_minimal_model.c:1125-1132 | Extending a list of consumers keeps the number of consumers. |
| Tables.ExtendAllTouchesOnlyListed | runtime/mercury_minimal_model.c:1125-1132 | Only the saved states of the listed consumers change. |
| Tables.ExtendConsumerStateIdempotent | runtime/mercury_minimal_model.c:1135-1199 | Extending a saved state that was already extended to the same leader frame changes nothing more. |
| Tables.ExtendAllExtendsOnce | runtime/mercury_minimal_model.c:1125-1132 | Extending a list of consumers, even one that names a consumer twice, leaves each saved state unchanged or extended once. |
| Tables.ExtendAllAppend | runtime/mercury_minimal_model.c:1122-1135 | Extending the consumers of two lists in turn equals extending their concatenation. |
| Tables.Leaders | runtime/mercury_minimal_model.c:1134 | Setting a leader keeps the set of subgoals. |
| Tables.LeadersAt | runtime/mercury_minimal_model.c:1134 | Exactly the subgoals on the walked list get the new leader; the rest are unchanged. |
| Tables.Splice | runtime/mercury_minimal_model.c:1139-1141 | The final splice keeps the set of subgoals. |
| Tables.SpliceEffect | runtime/mercury_minimal_model.c:1139-1141 | The follower gets the leader. The leader's tail cell takes the follower's list. The follower's list becomes empty. No other subgoal and no other field changes. |
| Tables.FollowLeader | runtime/mercury_minimal_model.c:1107-1144 | A merge keeps the set of subgoals and the number of consumers. |
| Tables.FollowLeaderEffect | runtime/mercury_minimal_model.c:1107-1144 | After make_subgoal_follow_leader, every subgoal on the follower's list, and the follower itself, has the leader. The leader's tail cell holds the follower's old list, and the follower's list is empty. Only links change in any subgoal. Only consumers of subgoals on the list are touched. |
| Tables.FollowLeaderKeepsFields | runtime/mercury_minimal_model.c:1107-1144 | A merge changes only subgoal links and consumers' saved states. |
| Tables.SecondMergeOverwritesFirst | runtime/mercury_minimal_model.c:1140 | The followers tail is never advanced. So after two merges into one leader, the leader's tail cell holds the second follower's list, and the first list survives only if the two were the same. |
| Tables.ExtendFromStep | runtime/mercury_minimal_model.c:1122-1135 | The consumer extension along a list unfolds one subgoal at a time. |
| Tables.LeadersSnoc | runtime/mercury_minimal_model.c:1134 | Setting the leaders of one more subgoal extends the walked list by it. |
| Tables.FollowLoop | runtime/mercury_minimal_model.c:1122-1135 | The nested loops keep the set of subgoals. |
| Tables.FollowLoopIsWalk | runtime/mercury_minimal_model.c:1122-1135 | The interleaved loop (extend consumers, set leader, step) equals extending every consumer on the list and then setting every leader on it. |
| Tables.FollowLeaderByLoop | runtime/mercury_minimal_model.c:1107-1144 | make_subgoal_follow_leader is its loop followed by the splice, and it fails exactly when the loop does. |
| Tables.MergeAll | runtime/mercury_minimal_model.c:1058-1063 | The merges asked for by the pruning walk, done in order, keep the set of subgoals and the number of consumers. |
| Tables.MergeAllKeepsFields | runtime/mercury_minimal_model.c:1058-1063 | Merges change only subgoal links and consumers' saved states. |
| Tables.MergeAllExtendsOnce | runtime/mercury_minimal_model.c:1058-1063 | Each consumer's saved state after the merges is either unchanged or extended once to the leader's generator frame. |
| Steps.SetupSubgoalEffect | runtime/mercury_minimal_model.c:414-486 | A node that has a subgoal returns it and changes nothing. Otherwise a fresh address gets a new subgoal that is inactive, has itself as its only follower, and has no answers, consumers or leader; the tables stay well formed. |
| Steps.SetupSubgoalIdempotent | runtime/mercury_minimal_model.c:414-486 | Setting up the same trie node twice gives the same subgoal and leaves the tables as the first call left them. |
| Steps.AddConsumerEffect | runtime/mercury_minimal_model.c:1400-1454 | A successful Call adds one consumer of the subgoal, at the end of its consumer list, with nothing returned. The subgoal's deepest common ancestor only goes down. Elsewhere only links and saved states change. |
| Steps.SuspendEffect | runtime/mercury_minimal_model.c:1360-1456 | The suspend entry as a whole: the same effect on the tables. The trie and the addresses are unchanged. |
| Steps.PrunedSaveRestores | runtime/mercury_minimal_model.c:1400-1454 | The state a new consumer saves, once pruned, can be restored. Restoring it gives back the live state except that the generator stack is cut to the pruned gen_next and only redoip slots of frames the walk rewrote differ. |
| Steps.AddConsumerSaves | runtime/mercury_minimal_model.c:1400-1454 | The new consumer's saved state is exactly its pruned copy: the merges run inside the walk, before the consumer is on any list, so none reaches it. Every older consumer's saved state changes, if at all, by one extension to the leader's generator frame. |
| Steps.SuspendBacktracks | runtime/mercury_minimal_model.c:1360-1456 | After pushing the do_fail frame and saving the consumer, the suspend entry fails: it jumps to the redoip of the frame below and leaves the state the failure gives. |
| Steps.SuspendSaves | runtime/mercury_minimal_model.c:1360-1456 | The suspend entry saves the state after its do_fail frame. The consumer it adds holds exactly that state pruned, and older consumers change only by one extension. |
| Steps.SuspendKeepsWellFormed | runtime/mercury_minimal_model.c:1360-1456 | Suspension keeps the tables well formed. |
| Steps.AddingConsumerKeepsWellFormed | runtime/mercury_minimal_model.c:1400-1454 | Appending a consumer of a known subgoal with nothing returned keeps the tables well formed. |
| Steps.WithInfoKeepsTables | runtime/mercury_minimal_model.c:1479-1620 | Updating the leader's resume info touches no answers, consumers or follower links, and the new info is what is read back. |
| Steps.StartCompletionEffect | runtime/mercury_minimal_model.c:1479-1575 | A leader that follows another pops its generator and redoes. A leader with resume info goes on unchanged. Otherwise a new resume info is made: it holds a restorable snapshot of the current state, the follower list and the saved succip. |
| Steps.LoopOverSubgoalsWalks | runtime/mercury_minimal_model.c:1576-1620 | With the remaining follower list xs: an empty xs goes to the fixpoint check with nothing changed. Otherwise xs[0] becomes the current subgoal, the cursor starts at its first consumer, and xs[1..] remains. |
| Steps.LoopOverSuspensionsDecides | runtime/mercury_minimal_model.c:1621-1700 | At the end of the consumer list control goes to the next subgoal with nothing changed. Otherwise the current consumer becomes cons[i]. Control goes to ReturnAnswer exactly when that consumer has unreturned answers. |
| Steps.LoopOverSuspensionsPreparesRedo | runtime/mercury_minimal_model.c:1662-1756 | Before returning an answer, the consumer's state is restored. A redo of the restored top frame then jumps to RedoPoint in that frame, and RedoPoint goes on to RestartPoint. |
| Steps.ReturnAnswerDelivers | runtime/mercury_minimal_model.c:1701-1741 | r1 gets the next unreturned answer of the current consumer. Only that consumer's cursor and count advance, by one. Control succeeds into the restored frame's caller. |
| Steps.RestartPointDecides | runtime/mercury_minimal_model.c:1757-1785 | Control goes to ReturnAnswer exactly when the current consumer has unreturned answers, and otherwise to the next consumer; nothing changes. |
| Steps.RestartThenReturn | runtime/mercury_minimal_model.c:1757-1785 | When RestartPoint chooses ReturnAnswer and the frame can succeed, ReturnAnswer does not abort. |
| Steps.FixPointCheckDecides | runtime/mercury_minimal_model.c:1786-1833 | The leader's follower list ends and all its consumers exist. Completion restarts exactly when some consumer on the list has unreturned answers, and the walk then starts over from the list head. Otherwise control goes on to ReachedFixpoint unchanged. |
| Steps.ReachedFixpointCompletes | runtime/mercury_minimal_model.c:1834-1878 | Exactly the subgoals on the leader's list become complete, and the leader drops its resume info. The saved state is restored, the generator stack is popped, and control goes to the saved succip. |
| Steps.TableNondetCommitEffect | runtime/mercury_minimal_model.c:1880-1882 | The top cut entry is popped and generators above it are dropped. Control fails into the frame below maxfr; the tables are unchanged. |
| Steps.LoopOverSuspensionsStep | runtime/mercury_minimal_model.c:1621-1700 | Apart from the machine, the world is unchanged or differs only in the current leader's resume info. |
| Steps.ResumeConsumer | runtime/mercury_minimal_model.c:1662-1698 | Resuming a consumer changes only the machine. |
| Steps.PrepareRedo | runtime/mercury_minimal_model.c:1667-1679 | Redirecting the restored frame changes only the machine. |
| Steps.FixPointCheckStep | runtime/mercury_minimal_model.c:1786-1833 | The world is unchanged, or differs only in the current leader's resume info. |
| Steps.MarkComplete | runtime/mercury_minimal_model.c:1834-1878 | Marking keeps the subgoals, their answers and their consumers. |
| Steps.LeaveCompletion | runtime/mercury_minimal_model.c:1834-1878 | Leaving completion keeps the trie, the addresses, the consumers and every subgoal's answers and consumers. |
| Steps.EntryAndCommitKeepWellFormed | runtime/mercury_minimal_model.c:1458-1882 | The resume entry and table_nondet_commit keep the tables well formed. |
| Steps.ResumeKeepsWellFormed | runtime/mercury_minimal_model.c:1479-1878 | Every resume label keeps the tables well formed. |
| Steps.StartCompletionKeepsWellFormed | runtime/mercury_minimal_model.c:1479-1575 | StartCompletionOp keeps the tables well formed. |
| Steps.LoopOverSubgoalsKeepsWellFormed | runtime/mercury_minimal_model.c:1576-1620 | LoopOverSubgoals keeps the tables well formed. |
| Steps.LoopOverSuspensionsKeepsWellFormed | runtime/mercury_minimal_model.c:1621-1700 | LoopOverSuspensions keeps the tables well formed. |
| Steps.LoopOverSuspensionsKeepsTables | runtime/mercury_minimal_model.c:1621-1700 | LoopOverSuspensions changes no answers, consumers, trie or addresses. |
| Steps.ReturnAnswerKeepsWellFormed | runtime/mercury_minimal_model.c:1701-1741 | Advancing a consumer's cursor keeps the tables well formed. |
| Steps.FixPointCheckKeepsWellFormed | runtime/mercury_minimal_model.c:1786-1833 | FixPointCheck keeps the tables well formed. |
| Steps.FixPointCheckKeepsTables | runtime/mercury_minimal_model.c:1786-1833 | FixPointCheck changes no answers, consumers, trie or addresses. |
| Steps.ReachedFixpointKeepsWellFormed | runtime/mercury_minimal_model.c:1834-1878 | ReachedFixpoint keeps the tables well formed. |
| Steps.AddAnswerWakesConsumers | runtime/mercury_minimal_model.c:1701-1773 | A new answer for s keeps the tables well formed. Afterwards a consumer has unreturned answers exactly when it is a consumer of s, or had some before. |
| Steps.AddAnswerReopensFixpoint | runtime/mercury_minimal_model.c:1786-1833 | An answer added to a subgoal on the leader's list that has a consumer makes the next fixpoint check restart completion. |
| Steps.WellFormedResolves | runtime/mercury_minimal_model.c:1786-1833 | In well-formed tables every consumer on any subgoal's list exists, so the fixpoint check never sees an unknown consumer. |
| Steps.WellFormedAcross | runtime/mercury_minimal_model.c:1479-1878 | Steps that move only the machine, resume info, links or saved states keep the tables well formed. |
| MinimalModel.CopyOut | runtime/mercury_minimal_model.c:545-634 | The arena copied out of the stack holds the segment's snapshot. |
| MinimalModel.CopyIn | runtime/mercury_minimal_model.c:640-687 | Copying a block back writes exactly what CopyInto says. |
| MinimalModel.CopyExtended | runtime/mercury_minimal_model.c:701-841 | The new arena holds the widened block. |
| MinimalModel.Engine.NearestCommonAncestor | runtime/mercury_minimal_model.c:503-533 | The loop finds Nca on the live nondet stack. |
| MinimalModel.Engine.SaveState | runtime/mercury_minimal_model.c:545-634 | The saved state is Save of the live machine, and the fresh arena holds its nondet copy. |
| MinimalModel.Engine.RestoreState | runtime/mercury_minimal_model.c:640-687 | The stacks and registers afterwards are Restore of those before. |
| MinimalModel.Engine.WidenSegment | runtime/mercury_minimal_model.c:701-841 | The widened segment is ExtendSegment of the live stack. |
| MinimalModel.Engine.ExtendStacks | runtime/mercury_minimal_model.c:701-841 | The extended state is ExtendImage of the live machine. |
| MinimalModel.Engine.ExtendConsumerStacks | runtime/mercury_minimal_model.c:701-841 | extend_consumer_stacks gives ExtendConsumerState. |
| MinimalModel.Engine.ExtendConsumers | runtime/mercury_minimal_model.c:1125-1132 | The inner loop gives ExtendAll. |
| MinimalModel.Engine.FollowLeaderLoop | runtime/mercury_minimal_model.c:1122-1135 | The nested loops give FollowLoop. |
| MinimalModel.Engine.MakeSubgoalFollowLeader | runtime/mercury_minimal_model.c:1107-1144 | The new subgoals and consumers are FollowLeader of the old ones, and the method fails exactly when it does. |
| MinimalModel.Engine.MergeFollowers | runtime/mercury_minimal_model.c:1058-1063 | The merges done in order give MergeAll. |
| MinimalModel.Engine.SetupSubgoal | runtime/mercury_minimal_model.c:414-486 | The returned subgoal and the new state are Steps.SetupSubgoal's. |
| MinimalModel.Engine.RegisterSuspension | runtime/mercury_stacks.h:591 | The pneg stack afterwards is Tables.RegisterSuspension's. |
| MinimalModel.Engine.AddAnswer | runtime/mercury_minimal_model.c:440-442 | A subgoal's answer list starts empty with its tail pointer at its head; adding an answer appends it at that tail and counts it. Every other subgoal stays as it was. |
| MinimalModel.Engine.AddConsumer | runtime/mercury_minimal_model.c:1400-1454 | The Call body gives Steps.AddConsumer: the same refusal, or the same stacks and tables. |
| MinimalModel.Engine.SuspendCall | runtime/mercury_minimal_model.c:1386-1456 | The Call label goes where Steps.SuspendCall goes, and unless it aborts leaves its world. |
| MinimalModel.Engine.Suspend | runtime/mercury_minimal_model.c:1360-1456 | The suspend entry goes where Steps.Suspend goes, and unless it aborts leaves its world. |
| MinimalModel.Engine.CanRestore | runtime/mercury_minimal_model.c:640-687 | The run-time test is Restorable on the live machine. |
| MinimalModel.Engine.ResumeEntry | runtime/mercury_minimal_model.c:1458-1477 | The resume entry gives Steps.ResumeEntry. |
| MinimalModel.Engine.StartCompletion | runtime/mercury_minimal_model.c:1479-1575 | StartCompletionOp gives Steps.StartCompletion. |
| MinimalModel.Engine.LoopOverSubgoalsStep | runtime/mercury_minimal_model.c:1576-1620 | LoopOverSubgoals gives Steps.LoopOverSubgoalsStep. |
| MinimalModel.Engine.LoopOverSuspensionsStep | runtime/mercury_minimal_model.c:1621-1700 | LoopOverSuspensions gives Steps.LoopOverSuspensionsStep. |
| MinimalModel.Engine.ResumeConsumer | runtime/mercury_minimal_model.c:1662-1698 | Restoring the consumer gives Steps.ResumeConsumer. |
| MinimalModel.Engine.PrepareRedo | runtime/mercury_minimal_model.c:1667-1679 | Redirecting the restored frame gives Steps.PrepareRedo. |
| MinimalModel.Engine.ReturnAnswerStep | runtime/mercury_minimal_model.c:1701-1741 | ReturnAnswer gives Steps.ReturnAnswerStep. |
| MinimalModel.Engine.RedoPointStep | runtime/mercury_minimal_model.c:1742-1756 | RedoPoint gives Steps.RedoPointStep. |
| MinimalModel.Engine.RestartPointStep | runtime/mercury_minimal_model.c:1757-1785 | RestartPoint gives Steps.RestartPointStep and changes nothing. |
| MinimalModel.Engine.FollowerList | runtime/mercury_minimal_model.c:1786-1833 | The list walk gives FollowerChain with as much fuel as there are subgoals. |
| MinimalModel.Engine.ScanConsumers | runtime/mercury_minimal_model.c:1786-1833 | The scan reports an unknown consumer exactly when not AllResolve. Otherwise it reports unreturned answers exactly when AnyUnreturned. |
| MinimalModel.Engine.FixPointCheckStep | runtime/mercury_minimal_model.c:1786-1833 | FixPointCheck gives Steps.FixPointCheckStep. |
| MinimalModel.Engine.MarkCompleteLoop | runtime/mercury_minimal_model.c:1834-1878 | The marking loop gives MarkComplete. |
| MinimalModel.Engine.ReachedFixpointStep | runtime/mercury_minimal_model.c:1834-1878 | ReachedFixpoint gives Steps.ReachedFixpointStep. |
| MinimalModel.Engine.LeaveCompletion | runtime/mercury_minimal_model.c:1834-1878 | The end of ReachedFixpoint gives Steps.LeaveCompletion. |
| MinimalModel.Engine.Resume | runtime/mercury_minimal_model.c:1479-1878 | Dispatching on a label gives Steps.Resume. |
| MinimalModel.Engine.TableNondetCommit | runtime/mercury_minimal_model.c:1880-1882 | table_nondet_commit gives Steps.TableNondetCommit. |

## Left out

- Debugging output is not modelled, because it has no effect on the engine's state. This covers the `MR_TABLE_DEBUG` and `MR_tabledebug` printing, `print_saved_state`, `print_stack_segment`, `MR_print_subgoal`, `MR_print_consumer` and the name-formatting functions.
- The sequence-number registries (`MR_enter_consumer_debug`, `MR_enter_subgoal_debug` and their lookups) are not modelled, because they only serve that output.
- `MR_not_nearest_flag` and the counters bumped only for statistics are not modelled.
- The high-level-code stubs are not modelled, because they only report that minimal model tabling is unavailable.
- Heap structs and their aliasing are not modelled. The subgoals, consumers and resume infos are values in maps and sequences, so the model does not capture two pointers to one struct or updates made through a stale pointer. The answer list is a sequence, and the consumer's remaining-answer pointer is an index into it.
- The follower lists are walked with fuel equal to the number of subgoals. A cyclic list, where the source loops forever, becomes an `Abort`.
- After an `Abort` the model says nothing about the world. The source may already have changed some state before it stops.
- The generator, cut and pneg stack helpers (`MR_push_generator`, `MR_pop_generator`, `MR_top_generator_table`, `MR_commit_cut`, `MR_register_suspension`) are modelled from their declarations in runtime/mercury_stacks.h only. Their bodies are not part of this model.
- Adding answers is done by code outside this model. `Steps.AddAnswer` is an abstract operation that appends one answer to a subgoal's list.
- `MR_save_transient_registers` and `MR_restore_transient_registers` are not modelled: they are register plumbing with no effect on the modelled state.
- Stack overflow and underflow checks are not modelled as checks. A macro that would leave the stack aborts in the entry points that use it.
- Stacks.Machine.Mkframe, Stacks.Machine.Mktempframe, Stacks.Machine.Mkdettempframe: require room for the frame, because `MR_nondstack_overflow_check` is compiled out in normal grades. Callers in the engine check the room first.
- Exception handler frames and the other frame kinds of runtime/mercury_stacks.h that tabling does not use are not modelled.
- Pruning.StepWith: a frame whose prevfr is not below it stops the walk with a fault. The source gives it no special case: with a frame size of zero its loop does not move and never ends, and with a negative size it walks upwards. Frames built by mkframe always lie above their prevfr, so neither happens on the stacks the engine builds.
- The do_fail write in the last branch of the pruning loop (runtime/mercury_minimal_model.c:1083-1093) is compiled only with `MR_TABLE_DEBUG`, so the model follows the normal build and leaves that redoip alone.
- Steps.AddConsumer: the pruning walk collects the generators to merge and the merges run after it, while the source calls `make_subgoal_follow_leader` from inside the loop (runtime/mercury_minimal_model.c:1058-1063). The merges change neither the copy being walked nor the generator and cut stacks, so the result is the same. The one difference is the abort message when a merge fails and a later step of the walk also fails: the model reports the walk's fault.
- Segments.Nca: a frame whose succfr slot cannot be read, or does not lie below the frame, ends the search with no result. The source's loop (runtime/mercury_minimal_model.c:509-521) has no such test, so it would read outside the stack or never end. mkframe sets a new frame's succfr to the caller's curfr, which lies below the new frame (`Stacks.AfterMkframe`), so neither happens on the stacks the engine builds.
- Pruning.Classify: the source reads `MR_gen_stack[cur_gen]` with no check that `cur_gen` is still at least zero. The model treats a read outside the live entries as a fault instead of reading whatever lies there.
- Tables.CommitCut: the clean-up that runtime/mercury_stacks.h:505-513 describes for the subgoals on a popped cut entry's `MR_cut_generators` list is not modelled. `MR_register_generator_ptr`, which fills that list, and the body of `MR_commit_cut` are only declared in runtime/mercury_stacks.h (lines 544-547), and their bodies are not part of this model. So the subgoals of an abandoned commit keep their status, and a consumer of one may wait on a generator that will never be backtracked into.
- Words are unbounded integers. Pointer arithmetic cannot wrap around on the stacks the model uses.
- runtime/mercury_trace_base.h, runtime/mercury_types.h, runtime/mercury_memory_handlers.h, the machine-dependent headers and the Java runtime files are context only; they are not part of this model.

## Findings

| source | as written | input that shows it | evidently intended | confidence | as-written member | corrected member |
|---|---|---|---|---|---|---|
| runtime/mercury_minimal_model.c:869-893 | `real_to_saved_nondet_stack` computes the offset, but the assignment to `saved_ptr` sits inside `#if 0`, so the function returns an uninitialised pointer. | block at real addresses 10..12, real pointer 11 | return the saved block plus the offset, the inverse of `saved_to_real_nondet_stack` | high; not executed (the function is also not called in this file) | Segments.RealToSavedAsWritten, Segments.RealToSavedAsWrittenIsNotInverse | Segments.RealToSaved, Segments.RealToSavedInvertsSavedToReal |
| runtime/mercury_minimal_model.c:1046-1048 | The assertion before a merge translates `saved_stop_fr`, which is one word below the saved block, so `saved_to_real_nondet_stack` always raises its out-of-bounds fatal error. | a suspension of subgoal 1 whose saved copy holds the frame of the generator of subgoal 2 (`Pruning.ExampleBlock`, `Pruning.ExampleEnv`) | compare the frame's prevfr with the real address just below the copy, and merge | high; not executed (only when assertions are enabled) | Pruning.PruneAsWritten, Pruning.AsWrittenMergeAlwaysAborts, Pruning.AsWrittenMergeExample | Pruning.Prune, Pruning.PruneRightBranches, Pruning.PruneRewritesOnlyRedoips |
