# Allie search tree and deadline controller, modelled in Dafny

This project models two parts of the Allie chess engine's search core:

- **The per-move deadline controller** (`Clock`, `lib/clock.cpp`): the
  per-army time and increment, the move-time and infinite settings, the
  latest search telemetry, the computed deadline and the smoothed trend
  factor. It also covers how `calculateDeadline` turns these into a
  deadline, and the queries built on the deadline (`timeToDeadline`,
  `hasExpired`, `lessThanMoveOverhead`, `pastMoveOverhead`).
- **The search tree's root lifecycle** (`Tree`, `lib/tree.h`): lazy creation
  of the root against the node arena (`embodiedRoot`), dropping it
  (`reset`), and the resume scan (`clearRoot`). The resume scan promotes a
  grandchild of the old root at the current game position and unlinks the
  rest. It also covers the recursive tree check (`validateTree`) and the
  destructor.

Files:

- `clock.dfy`, module `TimeControl`: the deadline arithmetic as functions
  (`ExpectedHalfMovesTillEog`, `Ideal`, `NextTrendFactor`, `DeadlineFor`),
  lemmas about them, and class `Clock`. Its methods update the fields the way
  the source does and are proved against those functions.
- `arena.dfy`, module `Arena`: tree nodes as values (slot id, children,
  position hash, visits, prior flag, root flag, true-terminal flag) and
  class `Cache`, the arena. The cache holds the live slot ids, the
  hash-to-position-entry map, the `used` counter and the capacity.
  - `unlinkNode` is specified by the slots it frees (`Freed`): the node
    itself and its subtree, except below nodes already marked as root.
  - `resetNodes` sets `used` to the number of live slots.
  - The lemmas show that marking a grandchild as root and then unlinking
    the old root leaves exactly the grandchild's subtree.
- `tree.dfy`, module `SearchTree`: class `Tree` with `EmbodiedRoot`, `Reset`,
  `ClearRoot` (the scan as written), `ClearRootFirstMatch` (the scan as
  intended, see Findings), `CheckArenaAccounting` and `Destroy`, plus
  `ValidateTree`.
  - The scan is specified by `Promotions`: for each child of the old root,
    that child's first qualifying child, in scan order.
  - The arena it leaves behind is specified by `ResumeLive`.

Integer conventions: the C++ integer division truncates toward zero. It is
written out as `TimeControl.TruncDiv` wherever it can see a negative operand.
Following the code, the coefficients `3/8` and `5/4` in
`expectedHalfMovesTillEOG` are integer divisions worth 0 and 1. So the
heuristic is `score + 10` below 20, exactly 22 from 20 to 60, and
`score - 30` above 60, not the fractions 3/8 and 5/4 the coefficients were
meant to be. Likewise,
the constructor sets the move time to `false`, which is 0, so the
fixed-move-time branch wins until the move time is set to -1.

## Model

| member | source | states |
|---|---|---|
| `TimeControl.ExpectedHalfMovesTillEog` | lib/clock.cpp:144-153 | score below 20 gives score+10, 20..60 gives exactly 22 (3/8 is 0), above 60 gives score-30 (5/4 is 1); non-negative scores give at least 10; the divisor is 0 only for score -10 |
| `TimeControl.EasingCurve` | lib/clock.cpp:155-163 | the default build's easing curve is the identity |
| `TimeControl.Ideal` | lib/clock.cpp:174-179 | for non-negative time and score the ideal slice is `t / expectedHalfMoves + inc`, and at least the increment when that is non-negative |
| `TimeControl.NextTrendFactor` | lib/clock.cpp:181-187 | the trend factor is never negative; a Better trend halves a non-negative factor (never increasing it), any other trend adds the step, and a negative sum is clamped to 0 |
| `TimeControl.DeadlineFor` | lib/clock.cpp:189-197 | the deadline is never negative and follows the priority chain: move time less overhead, else min(time less overhead, ideal) once depth 3 is reached, else time less overhead, else 5000 |
| `TimeControl.DeadlineWithinRemainingTime` | lib/clock.cpp:190-197 | with a clock time and no move time, the deadline never exceeds the remaining time less the overhead (floored at 0) |
| `TimeControl.DepthOnlyShortens` | lib/clock.cpp:193-196 | reaching the minimum depth can only shorten the deadline |
| `TimeControl.SixtySecondScenario` | lib/clock.cpp:174-197 | 60000 ms, no increment, score 10, overhead 100, depth 3: 20 half-moves, ideal 3000, deadline 3000 |
| `TimeControl.Clock.constructor` | lib/clock.cpp:30-48 | times and increments start at -1, move time at 0 (from `false`), deadline, trend factor, material score and half-move number at 0, not infinite, not active |
| `TimeControl.Clock.Time` | lib/clock.cpp:54-60 | White's time for White, Black's for Black; `SetTime` reads back through it |
| `TimeControl.Clock.Increment` | lib/clock.cpp:70-76 | White's increment for White, Black's for Black; `SetIncrement` reads back through it |
| `TimeControl.Clock.TrendFactor` | lib/clock.cpp:129-132 | the trend factor, which the class invariant keeps non-negative |
| `TimeControl.Clock.SetTime` | lib/clock.cpp:54-68 | the army's time reads back as set; the other army's time and every other field are unchanged |
| `TimeControl.Clock.SetIncrement` | lib/clock.cpp:70-84 | the army's increment reads back as set; the other army's increment and every other field are unchanged |
| `TimeControl.Clock.SetInfinite` | lib/clock.cpp:86-89 | sets only the infinite flag |
| `TimeControl.Clock.SetMoveTime` | lib/clock.cpp:91-94 | sets only the move time |
| `TimeControl.Clock.CalculateDeadline` | lib/clock.cpp:165-199 | infinite mode: deadline -1, timer stopped, trend factor untouched; otherwise the trend factor becomes `NextTrendFactor` (so it stays non-negative), the deadline becomes `DeadlineFor` (so it is non-negative and does not depend on the trend factor), and the timer is armed for max(0, deadline - elapsed) |
| `TimeControl.Clock.StartDeadline` | lib/clock.cpp:96-104 | marks the clock active for the army, resets the telemetry and recomputes with 0 ms elapsed: move time less overhead, else the whole remaining time less overhead, else 5000, floored at 0; the trend factor is halved |
| `TimeControl.Clock.UpdateDeadline` | lib/clock.cpp:106-110 | stores the telemetry and recomputes; a Better trend never increases the trend factor |
| `TimeControl.Clock.TimeToDeadline` | lib/clock.cpp:122-127 | -1 in infinite mode whatever the elapsed time, otherwise the deadline less the elapsed time |
| `TimeControl.Clock.HasExpired` | lib/clock.cpp:117-120 | expired exactly when more than `deadline` ms have elapsed; a negative deadline never expires |
| `TimeControl.Clock.LessThanMoveOverhead` | lib/clock.cpp:134-137 | infinite mode: true exactly when the overhead exceeds -1; otherwise true exactly when the deadline is less than elapsed plus overhead |
| `TimeControl.Clock.PastMoveOverhead` | lib/clock.cpp:139-142 | true exactly when more than the overhead has elapsed, so always for a negative overhead |
| `TimeControl.Clock.ExpiredIffNoTimeLeft` | lib/clock.cpp:117-127 | in finite mode with a non-negative deadline, expiry and a negative time-to-deadline coincide |
| `TimeControl.Clock.ExpiredIsLessThanMoveOverhead` | lib/clock.cpp:117-137 | once expired, less than any non-negative overhead is left |
| `TimeControl.DefaultMoveTimeScenario` | lib/clock.cpp:37 | a fresh clock whose move time was never set to -1 gets deadline max(0, -overhead) whatever time is on the clock |
| `TimeControl.SixtySecondClockScenario` | lib/clock.cpp:96-110 | start with 60000 ms gives 59900 ms; after telemetry at depth 3 the deadline is 3000 ms |
| `Arena.Cache.NewNode` | lib/tree.h:140 | below capacity a fresh slot, never live before, is allocated and `used` grows by one; at capacity exhaustion is reported and nothing changes |
| `Arena.Cache.ContainsNodePosition` | lib/tree.h:145 | true exactly when the arena holds an entry for the hash |
| `Arena.Cache.NodePosition` | lib/tree.h:146 | defined only for a hash the arena holds; returns that hash's entry |
| `Arena.Cache.NewNodePosition` | lib/tree.h:145-148 | adds an uninitialised entry for the hash and changes no other entry |
| `Arena.Cache.InitializePosition` | lib/tree.h:151 | the entry for the hash now holds the position and points back at the node |
| `Arena.Cache.UnlinkNode` | lib/tree.h:88 | exactly the slots of `Freed(t)` stop being live: the node and its subtree except below nodes marked as root |
| `Arena.Cache.ResetNodes` | lib/tree.h:114-115 | `used` becomes the number of live slots |
| `Arena.MarkRoot` | lib/tree.h:98 | marks exactly the node with the given slot id as root (the others keep their mark) without changing the slot ids of the subtree |
| `Arena.PromotedSubtreeSurvives` | lib/tree.h:98-99 | after marking grandchild g and unlinking the old root, exactly g's slots stay live |
| `Arena.SizeIsCardinality` | lib/tree.h:117-124 | in a subtree without repeated slots, the node count equals the number of slot ids |
| `Arena.FreedWhole` | lib/tree.h:86-89 | with no root mark below it, unlinking a node frees its whole subtree |
| `Arena.FreedAllMarkedGrandchild` | lib/tree.h:98-99 | marking one grandchild as root spares exactly its subtree from the unlink |
| `Arena.ResumeKeepsPromotedSubtree` | lib/tree.h:97-103 | after marking grandchild g and unlinking the old root, exactly g's subtree stays live, g owns it, and its size is its slot count |
| `SearchTree.Qualifies` | lib/tree.h:97 | a qualifying node has a position entry equal to the game's position and is not truly terminal |
| `SearchTree.FirstQualifying` | lib/tree.h:96-104 | the index found qualifies (same position, not truly terminal) and none before it does; none found means none qualifies |
| `SearchTree.ScanChild` | lib/tree.h:95-104 | the grandchild loop returns the first qualifying grandchild of one child, or none |
| `SearchTree.FirstQualifyingIsFirst` | lib/tree.h:96-104 | proof helper for `ScanChild`: the first qualifying index is determined by the nodes before it qualifying or not |
| `SearchTree.PromotionsAreQualifyingGrandchildren` | lib/tree.h:93-104 | every node the scan promotes is a grandchild of the old root at the game's position and not truly terminal |
| `SearchTree.PromotionsEmptyIff` | lib/tree.h:92-110 | the scan promotes nothing exactly when no grandchild qualifies |
| `SearchTree.FirstPromotionIsFirstMatch` | lib/tree.h:93-103 | the first promotion is the first qualifying grandchild in scan order |
| `SearchTree.PromotionsSnoc` | lib/tree.h:94-106 | proof helper (one unfolding of `Promotions`): scanning one more child appends that child's promotion |
| `SearchTree.ResumeLiveShrinks` | lib/tree.h:98-99 | the chain of unlinks only ever frees slots |
| `SearchTree.ResumeLiveSnoc` | lib/tree.h:98-100 | proof helper (one unfolding of `ResumeLive`): each further promotion unlinks the current root with the new grandchild marked, and that grandchild becomes the root |
| `SearchTree.SinglePromotionOwnsArena` | lib/tree.h:93-124 | on a tree that owns the arena, a scan with exactly one promotion leaves an arena owned by the promoted node, with as many live slots as its subtree has nodes |
| `SearchTree.ValidateTree` | lib/tree.h:68-79 | requires every node to have visits, a prior unless it is the root, and a position with a transposition; increments a present counter exactly once per node of the subtree and leaves a missing one missing |
| `SearchTree.Tree.constructor` | lib/tree.h:50-55 | the tree starts empty with the given resume setting |
| `SearchTree.Tree.EmbodiedRoot` | lib/tree.h:131-154 | an existing root is returned as is with no arena change; otherwise, given an empty arena, exactly one slot is allocated as a root; the entry for the game's hash is reused or created and points back at it; the new root owns the arena and `used` is 1 |
| `SearchTree.Tree.Reset` | lib/tree.h:63-66 | the root is dropped and the arena is not touched |
| `SearchTree.Tree.ResumeFromChild` | lib/tree.h:95-104 | the grandchild loop for one child: with a qualifying grandchild, the first one is marked as root, the current root is unlinked with it marked and it becomes the root; without one nothing changes |
| `SearchTree.Tree.ResumeStep` | lib/tree.h:94-106 | one outer iteration of the scan as written appends that child's promotion and keeps the root and the live slots equal to `LastRoot` and `ResumeLive` of the promotions so far |
| `SearchTree.Tree.ResumeScan` | lib/tree.h:90-106 | reports a match exactly when some grandchild qualifies; the root becomes the last promotion and the live slots are those left by the chain of unlinks `ResumeLive` |
| `SearchTree.Tree.ClearRoot` | lib/tree.h:81-115 | an empty tree only resets `used`; without resume the whole tree is freed and the root dropped; with resume the root is the last promotion and the live slots are `ResumeLive`, or, without a match, the whole tree is freed and the root dropped; a surviving root is a root-marked grandchild of the old root at the game's position and not truly terminal; `used` equals the live slots; on a tree that owns the arena, with resume off or at most one promotion, the new root owns what is left and `used` is its size, or `used` is 0 without a root |
| `SearchTree.Tree.ResumeOrDrop` | lib/tree.h:90-111 | the resume branch as written: the root and live slots follow `Promotions` and `ResumeLive`, the whole tree is freed without a match, and with at most one promotion an owned arena stays owned by the new root |
| `SearchTree.Tree.ResumeScanFirstMatch` | lib/tree.h:90-111 | the root becomes the first promotion and the old root is unlinked with it marked, or the whole tree is unlinked if none qualifies |
| `SearchTree.Tree.ClearRootFirstMatch` | lib/tree.h:81-124 | as `ClearRoot` with the scan stopping at the first match; on a tree that owns the arena, the new root owns what is left and `used` is its size, or `used` is 0 without a root |
| `SearchTree.Tree.CheckArenaAccounting` | lib/tree.h:117-124 | the debug check passes exactly when `used` equals the tree check's count for the root, or 0 without a root |
| `SearchTree.Tree.Destroy` | lib/tree.h:57-61 | resumption is forced off, the root is dropped and the whole tree freed; a tree that owned the arena leaves it empty |
| `SearchTree.TwoMatchesLoseTheRoot` | lib/tree.h:93-106 | with two children that each have a matching grandchild, the as-written scan ends with a root whose slot is not live and `used` 0, while the root's subtree has 1 node |

## Left out

- The Qt timer (`QTimer`) and its `timeout` signal are not modelled. `Clock` only records whether the timer is armed and the interval it was last armed with.
- Real time (`QElapsedTimer`) is not read. Each operation that looks at elapsed time takes it as a parameter, and `StartDeadline` restarts the timer, so it sees 0 ms.
- `TimeControl.Clock.HasExpired`: Qt's `hasExpired` is not part of this model. The contract assumes Qt's documented meaning: more than `deadline` ms have elapsed, and a negative deadline never expires.
- Floating point is left out:
  - the experimental sine easing;
  - the `trendDegree` product. The rounded quarter-of-maximum step is passed to the calculation as the integer `trendStep`;
  - the precision lost by `qRound(float(...))` for very large times;
  - the narrowing `int(...)` of the timer interval.
- 64-bit wrap-around of the `qint64` fields is not modelled; times are unbounded integers.
- The `MoveOverhead` option is passed in as a parameter instead of being read from the global options store.
- The current game (its position and position hash) and the arena are passed to the tree instead of being read from the global history and cache.
- `TimeControl.Clock.CalculateDeadline`, `StartDeadline` and `UpdateDeadline` require the half-move divisor to be nonzero in finite mode. The source divides by it unconditionally, which is undefined for a material score of -10.
- `isPartial` is accepted and ignored, as in the source.
- `m_isActive` and `m_halfMoveNumber` are only stored.
- The material-score setter is declared in the class header, which is not part of this model. `SetMaterialScore` stands in for it.
- Default telemetry: `SearchInfo`'s declaration is not part of this model. A default `SearchInfo` is taken to report depth -1 and a Better trend. This is why `StartDeadline` passes a trend step of 0 and halves the trend factor.
- The tree mutex and all concurrency are left out, as is the unused `m_pinned` vector.
- Nodes are immutable values, not shared objects. `setAsRootNode` is modelled by marking a copy of the subtree (`MarkRoot`) before the unlink. Aliasing between node objects and in-place updates of a node seen from elsewhere are therefore not captured.
- `Node::initialize` and `setPosition` are not part of this model. A newly embodied root is taken to have no visits, no prior, no parent, the root mark and no terminal mark.
- `isSamePosition` is modelled as equality of `Position` values.
- `isTrueTerminal` is modelled as a node flag.
- `updateTranspositions` is not modelled: the position entries are unchanged after a resume.
- The cache's internals are not part of this model. Reference counting of position entries and freeing of entries are left out: the hash-to-entry map only grows.
- Slot ids are never reused. A reused slot would be a fresh id here.
- `lib/zobrist.h` declares the hashing class but holds no hash body or key generation. The position hash is an input (`Game.hash`), with no behaviour stated.
- `SearchTree.Tree.ClearRoot` states the arena-ownership and `used`-equals-tree-size property only when resume is off or the scan promotes at most one node. For the scan as written it does not hold once two children each have a qualifying grandchild; see Findings. The corrected scan (`ClearRootFirstMatch`) has it unconditionally.
- `SearchTree.Tree.constructor` takes the resume setting explicitly; the C++ default argument `true` for it is not modelled.
- The destructor (`Destroy`) calls the corrected clear. With resumption forced off, both clears do the same thing.

## Findings

| source | as written | input that shows it | evidently intended | confidence | as-written member | corrected member |
|---|---|---|---|---|---|---|
| lib/tree.h:103 | the `break` leaves only the grandchild loop, so the scan goes on over the remaining children. A later match marks its node as root, unlinks the current root (the earlier match) and becomes the root. That later node's slot was already freed by the first unlink, so the new root is not live and `used` no longer equals the tree check's count (the debug check at lib/tree.h:121 fails) | an old root with two children that each have a non-truly-terminal child at the game's position, e.g. a7-a8=Q and a7-a8=R each answered by the capture on a8 | stop the scan at the first match: the scan keeps a single `foundResume` flag (lib/tree.h:92, :102), and the `DEBUG_RESUME` check `cache.used() == total` (lib/tree.h:117-124) only holds after at most one promotion | medium (not executed; relies on `unlinkNode` freeing every node not under a root mark, and on a freed node still listing its children (lib/tree.h:95) and reaching a readable position entry (lib/tree.h:97), which the model gets for free because nodes are immutable values) | `SearchTree.TwoMatchesLoseTheRoot` | `SearchTree.Tree.ClearRootFirstMatch` |
