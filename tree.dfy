/**
 * The search tree's root lifecycle: lazy creation of the root, dropping
 * it, the resume scan that promotes a grandchild of the old root to be the
 * new root after both sides have moved, and the recursive tree check.
 *
 * The current game (its position and the position's hash) is passed in
 * instead of being read from the global game history, and the arena is
 * passed in instead of being the global cache.
 */
module SearchTree {
  import opened Arena

  /** The current game position and its fingerprint. */
  datatype Game = Game(position: Position, hash: Hash)

  /** Position equality as the game defines it. */
  predicate IsSamePosition(a: Position, b: Position)
  {
    a == b
  }

  /** A node the tree may resume at: its position is the game's and it is not a true terminal. */
  predicate Qualifies(g: Node, game: Game, positions: map<Hash, Entry>)
    ensures Qualifies(g, game, positions) ==>
              g.position.Some? && g.position.value in positions && !g.trueTerminal &&
              positions[g.position.value].position == game.position
  {
    && g.position.Some?
    && g.position.value in positions
    && IsSamePosition(positions[g.position.value].position, game.position)
    && !g.trueTerminal
  }

  /** Every node of `gs` has a position entry in the arena (the scan dereferences it). */
  predicate AllHavePositions(gs: seq<Node>, positions: map<Hash, Entry>)
  {
    forall j :: 0 <= j < |gs| ==> gs[j].position.Some? && gs[j].position.value in positions
  }

  /** Every grandchild of `t` has a position entry in the arena. */
  predicate GrandchildrenHavePositions(t: Node, positions: map<Hash, Entry>)
  {
    forall i :: 0 <= i < |t.children| ==> AllHavePositions(t.children[i].children, positions)
  }

  /** The index of the first node of `gs` that qualifies, if any. */
  function FirstQualifying(gs: seq<Node>, game: Game, positions: map<Hash, Entry>): (r: Option<nat>)
    ensures r.Some? ==> r.value < |gs| && Qualifies(gs[r.value], game, positions)
    ensures r.Some? ==> forall k :: 0 <= k < r.value ==> !Qualifies(gs[k], game, positions)
    ensures r.None? ==> forall k :: 0 <= k < |gs| ==> !Qualifies(gs[k], game, positions)
    decreases |gs|
  {
    if gs == [] then None
    else if Qualifies(gs[0], game, positions) then Some(0)
    else match FirstQualifying(gs[1..], game, positions)
      case None => None
      case Some(k) => Some(k + 1)
  }

  /** What the scan of one child contributes: its first qualifying child, if any. */
  function PromotionStep(c: Node, game: Game, positions: map<Hash, Entry>): seq<Node>
  {
    match FirstQualifying(c.children, game, positions)
    case None => []
    case Some(k) => [c.children[k]]
  }

  /**
   * The grandchildren the resume scan promotes, in order: for each child of
   * the old root, its first qualifying child (the inner loop stops there; the
   * outer loop goes on to the next child).
   */
  function Promotions(cs: seq<Node>, game: Game, positions: map<Hash, Entry>): (r: seq<Node>)
    ensures |r| <= |cs|
    decreases |cs|
  {
    if cs == [] then []
    else Promotions(cs[..|cs| - 1], game, positions) + PromotionStep(cs[|cs| - 1], game, positions)
  }

  /** Every promoted node qualifies and is a grandchild, i.e. a child of one of `cs`. */
  lemma {:induction false} PromotionsAreQualifyingGrandchildren(cs: seq<Node>, game: Game, positions: map<Hash, Entry>, m: nat)
    requires m < |Promotions(cs, game, positions)|
    ensures var g := Promotions(cs, game, positions)[m];
            && Qualifies(g, game, positions)
            && exists i, j :: 0 <= i < |cs| && 0 <= j < |cs[i].children| && g == cs[i].children[j]
    decreases |cs|
  {
    var front := cs[..|cs| - 1];
    var c := cs[|cs| - 1];
    assert forall i :: 0 <= i < |front| ==> front[i] == cs[i];
    if m < |Promotions(front, game, positions)| {
      PromotionsAreQualifyingGrandchildren(front, game, positions, m);
    } else {
      var k := FirstQualifying(c.children, game, positions).value;
      assert Promotions(cs, game, positions)[m] == c.children[k];
    }
  }

  /** The scan promotes nothing exactly when no grandchild qualifies. */
  lemma {:induction false} PromotionsEmptyIff(cs: seq<Node>, game: Game, positions: map<Hash, Entry>)
    ensures |Promotions(cs, game, positions)| == 0 <==>
              forall i, j :: 0 <= i < |cs| && 0 <= j < |cs[i].children| ==>
                !Qualifies(cs[i].children[j], game, positions)
    decreases |cs|
  {
    if cs != [] {
      var front := cs[..|cs| - 1];
      var c := cs[|cs| - 1];
      assert forall i :: 0 <= i < |front| ==> front[i] == cs[i];
      PromotionsEmptyIff(front, game, positions);
      if |Promotions(cs, game, positions)| != 0 {
        if |Promotions(front, game, positions)| == 0 {
          var k := FirstQualifying(c.children, game, positions).value;
          assert Qualifies(cs[|cs| - 1].children[k], game, positions);
        }
      }
    }
  }

  /** The first grandchild in scan order that qualifies is the first promotion. */
  lemma {:induction false} FirstPromotionIsFirstMatch(cs: seq<Node>, game: Game, positions: map<Hash, Entry>, i: nat)
    requires i < |cs| && FirstQualifying(cs[i].children, game, positions).Some?
    requires forall i', j :: 0 <= i' < i && 0 <= j < |cs[i'].children| ==>
               !Qualifies(cs[i'].children[j], game, positions)
    ensures var p := Promotions(cs, game, positions);
            |p| > 0 && p[0] == cs[i].children[FirstQualifying(cs[i].children, game, positions).value]
    decreases |cs|
  {
    var front := cs[..|cs| - 1];
    assert forall k :: 0 <= k < |front| ==> front[k] == cs[k];
    if i < |cs| - 1 {
      FirstPromotionIsFirstMatch(front, game, positions, i);
    } else {
      PromotionsEmptyIff(front, game, positions);
    }
  }

  /** The root after the first `|p|` promotions of a scan that started at `start`. */
  function LastRoot(start: Node, p: seq<Node>): (r: Node)
    ensures p != [] ==> r.isRoot && r.id == p[|p| - 1].id
  {
    if p == [] then start else p[|p| - 1].(isRoot := true)
  }

  /**
   * The live slots after the promotions `p`, as the scan performs them:
   * each promotion marks the grandchild as root and unlinks the CURRENT root,
   * which after the first promotion is the previously promoted grandchild.
   */
  function ResumeLive(live: set<NodeId>, start: Node, p: seq<Node>): (r: set<NodeId>)
    decreases |p|
  {
    if p == [] then live
    else
      var front := p[..|p| - 1];
      ResumeLive(live, start, front) - Freed(MarkRoot(LastRoot(start, front), p[|p| - 1].id))
  }

  lemma {:induction false} ResumeLiveShrinks(live: set<NodeId>, start: Node, p: seq<Node>)
    ensures ResumeLive(live, start, p) <= live
    decreases |p|
  {
    if p != [] {
      ResumeLiveShrinks(live, start, p[..|p| - 1]);
    }
  }

  /** One more promotion unlinks the current root with the new grandchild marked. */
  lemma ResumeLiveSnoc(live: set<NodeId>, start: Node, p: seq<Node>, g: Node)
    ensures ResumeLive(live, start, p + [g]) == ResumeLive(live, start, p) - Freed(MarkRoot(LastRoot(start, p), g.id))
    ensures LastRoot(start, p + [g]) == g.(isRoot := true)
  {
    assert (p + [g])[..|p|] == p;
  }

  /**
   * With a single promotion the scan as written keeps exactly the promoted
   * grandchild's subtree: it owns what is left and its size is the number of
   * live slots.
   */
  lemma SinglePromotionOwnsArena(start: Node, live: set<NodeId>, game: Game, positions: map<Hash, Entry>)
    requires OwnsArena(start, live)
    requires |Promotions(start.children, game, positions)| == 1
    ensures var p := Promotions(start.children, game, positions);
            && OwnsArena(LastRoot(start, p), ResumeLive(live, start, p))
            && |ResumeLive(live, start, p)| == Size(LastRoot(start, p))
  {
    var p := Promotions(start.children, game, positions);
    PromotionsAreQualifyingGrandchildren(start.children, game, positions, 0);
    var i, j :| 0 <= i < |start.children| && 0 <= j < |start.children[i].children| &&
                p[0] == start.children[i].children[j];
    ResumeKeepsPromotedSubtree(start, i, j);
    assert p[..0] == [];
    assert Size(p[0].(isRoot := true)) == Size(p[0]);
  }

  /** Scanning one more child appends that child's promotion. */
  lemma PromotionsSnoc(cs: seq<Node>, i: nat, game: Game, positions: map<Hash, Entry>)
    requires i < |cs|
    ensures Promotions(cs[..i + 1], game, positions) == Promotions(cs[..i], game, positions) + PromotionStep(cs[i], game, positions)
  {
    assert cs[..i + 1][..i] == cs[..i];
  }

  /**
   * Scans one child's children for the first that qualifies (the inner loop
   * of the resume scan, which stops at the first match).
   */
  method ScanChild(grandChildren: seq<Node>, cache: Cache, game: Game) returns (k: Option<nat>)
    requires AllHavePositions(grandChildren, cache.positions)
    ensures k == FirstQualifying(grandChildren, game, cache.positions)
  {
    var j := 0;
    while j < |grandChildren|
      invariant 0 <= j <= |grandChildren|
      invariant forall m :: 0 <= m < j ==> !Qualifies(grandChildren[m], game, cache.positions)
    {
      var g := grandChildren[j];
      if IsSamePosition(cache.NodePosition(g.position.value).position, game.position) && !g.trueTerminal {
        FirstQualifyingIsFirst(grandChildren, game, cache.positions, j);
        return Some(j);
      }
      j := j + 1;
    }
    FirstQualifyingIsFirst(grandChildren, game, cache.positions, |grandChildren|);
    return None;
  }

  /** FirstQualifying finds the first qualifying index, so it is determined by the nodes before it. */
  lemma {:induction false} FirstQualifyingIsFirst(gs: seq<Node>, game: Game, positions: map<Hash, Entry>, j: nat)
    requires j <= |gs|
    requires forall m :: 0 <= m < j ==> !Qualifies(gs[m], game, positions)
    requires j < |gs| ==> Qualifies(gs[j], game, positions)
    ensures FirstQualifying(gs, game, positions) == if j < |gs| then Some(j) else None
    decreases |gs|
  {
    if gs != [] && j > 0 {
      FirstQualifyingIsFirst(gs[1..], game, positions, j - 1);
    }
  }

  /** The debug checks of the tree check: visited, prior unless root, position and transposition present. */
  predicate NodeChecks(t: Node, positions: map<Hash, Entry>)
  {
    && t.visits != 0
    && (t.isRoot || t.hasPrior)
    && t.position.Some?
    && t.position.value in positions
    && positions[t.position.value].transposition.Some?
  }

  /** Every node of the subtree of `t` passes the debug checks. */
  predicate SubtreeChecks(t: Node, positions: map<Hash, Entry>)
    decreases t
  {
    NodeChecks(t, positions) && forall c | c in t.children :: SubtreeChecks(c, positions)
  }

  lemma {:induction false} SizeAllSnoc(cs: seq<Node>, k: nat)
    requires k < |cs|
    ensures SizeAll(cs[..k + 1]) == SizeAll(cs[..k]) + Size(cs[k])
    decreases k
  {
    if k > 0 {
      assert cs[..k + 1][1..] == cs[1..][..k];
      assert cs[..k][1..] == cs[1..][..k - 1];
      SizeAllSnoc(cs[1..], k - 1);
    }
  }

  /**
   * The recursive tree check: with a counter present it is incremented once
   * per node of the subtree; a missing counter stays missing.
   */
  method ValidateTree(t: Node, positions: map<Hash, Entry>, total: Option<int>) returns (after: Option<int>)
    requires SubtreeChecks(t, positions)
    ensures total.None? ==> after.None?
    ensures total.Some? ==> after == Some(total.value + Size(t))
    decreases t
  {
    after := if total.Some? then Some(total.value + 1) else None;
    var children := t.children;
    var i := 0;
    while i < |children|
      invariant 0 <= i <= |children|
      invariant total.None? ==> after.None?
      invariant total.Some? ==> after == Some(total.value + 1 + SizeAll(children[..i]))
    {
      SizeAllSnoc(children, i);
      after := ValidateTree(children[i], positions, after);
      i := i + 1;
    }
    assert children[..i] == t.children;
  }

  class Tree {
    var root: Option<Node>
    var resumeIfPossible: bool

    constructor (resumePreviousPositionIfPossible: bool)
      ensures root == None && resumeIfPossible == resumePreviousPositionIfPossible
    {
      root := None;
      resumeIfPossible := resumePreviousPositionIfPossible;
    }

    /**
     * The root for the current game.  An existing root is returned as it is.
     * Otherwise the arena must be empty; one node is allocated, initialised
     * as an unvisited root without a prior, and attached to the position
     * entry for the game's hash, reused if the arena has one and created
     * if not; the entry is initialised to point back at the new root.
     */
    method EmbodiedRoot(cache: Cache, game: Game) returns (r: Node)
      requires cache.Valid()
      requires root.None? ==> cache.used == 0
      modifies this`root, cache`live, cache`used, cache`nextId, cache`positions
      ensures cache.Valid()
      ensures root == Some(r)
      ensures old(root).Some? ==>
                && r == old(root).value
                && cache.live == old(cache.live) && cache.used == old(cache.used)
                && cache.nextId == old(cache.nextId) && cache.positions == old(cache.positions)
      ensures old(root).None? ==>
                && r == Node(old(cache.nextId), [], Some(game.hash), 0, false, true, false)
                && cache.live == {r.id} && r.id !in old(cache.live)
                && cache.used == 1 && cache.nextId == old(cache.nextId) + 1
                && cache.positions == old(cache.positions)[game.hash := Entry(game.position, Some(r.id))]
                && OwnsArena(r, cache.live) && cache.used == Size(r)
    {
      if root.Some? {
        return root.value;
      }
      var id := cache.NewNode();
      var rootId := id.value;
      if !cache.ContainsNodePosition(game.hash) {
        cache.NewNodePosition(game.hash);
      }
      r := Node(rootId, [], Some(game.hash), 0, false, true, false);
      cache.InitializePosition(game.hash, rootId, game.position);
      root := Some(r);
    }

    /** Drops the root without touching the arena. */
    method Reset()
      modifies this`root
      ensures root == None
    {
      root := None;
    }

    /**
     * The grandchild loop for one child of the old root: its first child at
     * the game's position that is not a true terminal is marked as root, the
     * current root is unlinked and that grandchild becomes the root.
     */
    method ResumeFromChild(cache: Cache, game: Game, child: Node) returns (found: bool)
      requires cache.Valid() && root.Some?
      requires AllHavePositions(child.children, cache.positions)
      modifies this`root, cache`live
      ensures cache.Valid()
      ensures var step := PromotionStep(child, game, cache.positions);
              && found == (step != [])
              && (step == [] ==> root == old(root) && cache.live == old(cache.live))
              && (step != [] ==> root == Some(step[0].(isRoot := true)) &&
                                 cache.live == old(cache.live) - Freed(MarkRoot(old(root).value, step[0].id)))
    {
      var k := ScanChild(child.children, cache, game);
      found := k.Some?;
      if found {
        var g := child.children[k.value];
        cache.UnlinkNode(MarkRoot(root.value, g.id));
        root := Some(g.(isRoot := true));
      }
    }

    /**
     * The state of the resume scan as written after the children before `i`:
     * `p` holds their promotions, the root is the last one promoted (or the
     * old root) and the live slots are those the chain of unlinks leaves.
     */
    ghost predicate ScanState(cache: Cache, game: Game, children: seq<Node>, i: nat,
                              start: Node, live0: set<NodeId>, p: seq<Node>)
      reads this, cache
    {
      && i <= |children|
      && cache.Valid()
      && p == Promotions(children[..i], game, cache.positions)
      && root == Some(LastRoot(start, p))
      && cache.live == ResumeLive(live0, start, p)
    }

    /**
     * One iteration of the resume scan as written, over child `i`: the
     * grandchild loop for that child extends the promotions with the child's
     * promotion, and the root and the live slots follow.
     */
    method ResumeStep(cache: Cache, game: Game, children: seq<Node>, i: nat,
                      ghost start: Node, ghost live0: set<NodeId>, ghost p: seq<Node>)
      returns (found: bool, ghost next: seq<Node>)
      requires i < |children| && ScanState(cache, game, children, i, start, live0, p)
      requires AllHavePositions(children[i].children, cache.positions)
      modifies this`root, cache`live
      ensures ScanState(cache, game, children, i + 1, start, live0, next)
      ensures |next| >= |p| && found == (|next| > |p|)
    {
      PromotionsSnoc(children, i, game, cache.positions);
      ghost var step := PromotionStep(children[i], game, cache.positions);
      if step != [] {
        ResumeLiveSnoc(live0, start, p, step[0]);
        assert step == [step[0]];
      } else {
        assert p + step == p;
      }
      found := ResumeFromChild(cache, game, children[i]);
      next := p + step;
    }

    /**
     * The resume scan as it is written: each child of the root is scanned for
     * a grandchild at the game's position that is not a true terminal; one
     * found is marked as root, the current root is unlinked and the grandchild
     * becomes the root.  The scan of a child stops at its first match, but the
     * scan of the children goes on, so a later match replaces (and unlinks) an
     * earlier one.  Reports whether any match was found.
     */
    method ResumeScan(cache: Cache, game: Game) returns (foundResume: bool)
      requires cache.Valid() && root.Some?
      requires GrandchildrenHavePositions(root.value, cache.positions)
      modifies this`root, cache`live
      ensures cache.Valid()
      ensures var p := Promotions(old(root).value.children, game, cache.positions);
              && foundResume == (|p| > 0)
              && root == Some(LastRoot(old(root).value, p))
              && cache.live == ResumeLive(old(cache.live), old(root).value, p)
    {
      ghost var start := root.value;
      ghost var live0 := cache.live;
      ghost var p: seq<Node> := [];
      foundResume := false;
      var children := root.value.children;
      var i := 0;
      assert children[..0] == [];
      while i < |children|
        invariant ScanState(cache, game, children, i, start, live0, p)
        invariant foundResume == (|p| > 0)
      {
        var found;
        found, p := ResumeStep(cache, game, children, i, start, live0, p);
        foundResume := foundResume || found;
        i := i + 1;
      }
      assert children[..i] == children;
    }

    /**
     * Prepares the tree for the next move.  Without resumption the whole tree
     * is unlinked; with it the resume scan runs.  The arena's `used` counter
     * is then reset to the live slots.  A root that survives is a grandchild
     * of the old root, marked as root, at the game's position and not a true
     * terminal.
     */
    method ClearRoot(cache: Cache, game: Game)
      requires cache.Valid()
      requires root.Some? && resumeIfPossible ==> GrandchildrenHavePositions(root.value, cache.positions)
      modifies this`root, cache`live, cache`used
      ensures cache.Valid()
      ensures cache.used == |cache.live| && cache.live <= old(cache.live)
      ensures old(root).None? ==> root.None? && cache.live == old(cache.live)
      ensures old(root).Some? && !resumeIfPossible ==>
                root.None? && cache.live == old(cache.live) - Freed(old(root).value)
      ensures old(root).Some? && resumeIfPossible ==>
                var p := Promotions(old(root).value.children, game, cache.positions);
                && (|p| == 0 ==> root.None? && cache.live == old(cache.live) - Freed(old(root).value))
                && (|p| > 0 ==> root == Some(LastRoot(old(root).value, p)) &&
                                cache.live == ResumeLive(old(cache.live), old(root).value, p))
      ensures old(root).Some? && root.Some? ==>
                && root.value.isRoot && Qualifies(root.value, game, cache.positions)
                && exists i, j :: 0 <= i < |old(root).value.children| && 0 <= j < |old(root).value.children[i].children| &&
                     root.value == old(root).value.children[i].children[j].(isRoot := true)
      ensures old(root).Some? && old(OwnsArena(root.value, cache.live)) &&
              (!resumeIfPossible || |Promotions(old(root).value.children, game, cache.positions)| <= 1) ==>
                && (root.None? ==> cache.live == {} && cache.used == 0)
                && (root.Some? ==> OwnsArena(root.value, cache.live) && cache.used == Size(root.value))
    {
      if root.Some? {
        if !resumeIfPossible {
          if OwnsArena(root.value, cache.live) { FreedWhole(root.value); }
          cache.UnlinkNode(root.value);
          root := None;
        } else {
          ResumeOrDrop(cache, game);
        }
      }
      cache.ResetNodes();
    }

    /**
     * The resume branch of the clear as written: the resume scan, then the
     * whole tree is unlinked if it found nothing.  With at most one promotion,
     * a tree that owned the arena leaves it owned by the new root (or empty).
     */
    method ResumeOrDrop(cache: Cache, game: Game)
      requires cache.Valid() && root.Some?
      requires GrandchildrenHavePositions(root.value, cache.positions)
      modifies this`root, cache`live
      ensures cache.Valid() && cache.used == old(cache.used) && cache.live <= old(cache.live)
      ensures var p := Promotions(old(root).value.children, game, cache.positions);
              && (|p| == 0 ==> root.None? && cache.live == old(cache.live) - Freed(old(root).value))
              && (|p| > 0 ==> root == Some(LastRoot(old(root).value, p)) &&
                              cache.live == ResumeLive(old(cache.live), old(root).value, p))
      ensures root.Some? ==>
                && root.value.isRoot && Qualifies(root.value, game, cache.positions)
                && exists i, j :: 0 <= i < |old(root).value.children| && 0 <= j < |old(root).value.children[i].children| &&
                     root.value == old(root).value.children[i].children[j].(isRoot := true)
      ensures old(OwnsArena(root.value, cache.live)) && |Promotions(old(root).value.children, game, cache.positions)| <= 1 ==>
                && (root.None? ==> cache.live == {})
                && (root.Some? ==> OwnsArena(root.value, cache.live) && |cache.live| == Size(root.value))
    {
      ghost var start := root.value;
      ghost var owned := OwnsArena(start, cache.live);
      var foundResume := ResumeScan(cache, game);
      ghost var p := Promotions(start.children, game, cache.positions);
      if !foundResume {
        if owned { FreedWhole(start); }
        cache.UnlinkNode(root.value);
        root := None;
      } else {
        ResumeLiveShrinks(old(cache.live), start, p);
        PromotionsAreQualifyingGrandchildren(start.children, game, cache.positions, |p| - 1);
        if owned && |p| == 1 {
          SinglePromotionOwnsArena(start, old(cache.live), game, cache.positions);
        }
      }
    }

    /**
     * The resume scan as it is evidently meant: the scan stops at the first
     * match (in the order children, then grandchildren).  On a tree that owns
     * the arena, the promoted grandchild's subtree is exactly what stays live.
     */
    method ResumeScanFirstMatch(cache: Cache, game: Game)
      requires cache.Valid() && root.Some?
      requires GrandchildrenHavePositions(root.value, cache.positions)
      modifies this`root, cache`live
      ensures cache.Valid() && cache.used == old(cache.used)
      ensures var p := Promotions(old(root).value.children, game, cache.positions);
              && root == (if |p| == 0 then None else Some(p[0].(isRoot := true)))
              && cache.live == (if |p| == 0 then old(cache.live) - Freed(old(root).value)
                                else old(cache.live) - Freed(MarkRoot(old(root).value, p[0].id)))
    {
      ghost var start := root.value;
      ghost var live0 := cache.live;
      var foundResume := false;
      var children := root.value.children;
      var i := 0;
      while i < |children| && !foundResume
        invariant 0 <= i <= |children|
        invariant cache.Valid() && cache.used == old(cache.used)
        invariant !foundResume ==> root == Some(start) && cache.live == live0
        invariant !foundResume ==> forall i', j :: 0 <= i' < i && 0 <= j < |children[i'].children| ==>
                                     !Qualifies(children[i'].children[j], game, cache.positions)
        invariant foundResume ==>
                    var p := Promotions(children, game, cache.positions);
                    && |p| > 0 && root == Some(p[0].(isRoot := true))
                    && cache.live == live0 - Freed(MarkRoot(start, p[0].id))
      {
        if FirstQualifying(children[i].children, game, cache.positions).Some? {
          FirstPromotionIsFirstMatch(children, game, cache.positions, i);
        }
        foundResume := ResumeFromChild(cache, game, children[i]);
        i := i + 1;
      }
      if !foundResume {
        PromotionsEmptyIff(children, game, cache.positions);
        cache.UnlinkNode(root.value);
        root := None;
      }
    }

    /**
     * Prepares the tree for the next move with the first-match resume scan.
     * On a tree that owns the arena, what is left afterwards is owned by the
     * new root, and `used` is its size, which is what the tree check counts;
     * without a root nothing is left.
     */
    method ClearRootFirstMatch(cache: Cache, game: Game)
      requires cache.Valid()
      requires root.Some? && resumeIfPossible ==> GrandchildrenHavePositions(root.value, cache.positions)
      modifies this`root, cache`live, cache`used
      ensures cache.Valid()
      ensures cache.used == |cache.live| && cache.live <= old(cache.live)
      ensures old(root).None? ==> root.None? && cache.live == old(cache.live)
      ensures old(root).Some? && !resumeIfPossible ==>
                root.None? && cache.live == old(cache.live) - Freed(old(root).value)
      ensures old(root).Some? && resumeIfPossible ==>
                var p := Promotions(old(root).value.children, game, cache.positions);
                && (|p| == 0 ==> root.None? && cache.live == old(cache.live) - Freed(old(root).value))
                && (|p| > 0 ==> root == Some(p[0].(isRoot := true)) &&
                                cache.live == old(cache.live) - Freed(MarkRoot(old(root).value, p[0].id)))
      ensures old(root).Some? && old(OwnsArena(root.value, cache.live)) ==>
                && (root.None? ==> cache.live == {} && cache.used == 0)
                && (root.Some? ==> OwnsArena(root.value, cache.live) && cache.used == Size(root.value))
    {
      if root.Some? {
        ghost var start := root.value;
        ghost var owned := OwnsArena(start, cache.live);
        if !resumeIfPossible {
          cache.UnlinkNode(root.value);
          root := None;
        } else {
          ResumeScanFirstMatch(cache, game);
          ghost var p := Promotions(start.children, game, cache.positions);
          if owned && |p| > 0 {
            PromotionsAreQualifyingGrandchildren(start.children, game, cache.positions, 0);
            ghost var i, j :| 0 <= i < |start.children| && 0 <= j < |start.children[i].children| &&
                              p[0] == start.children[i].children[j];
            ResumeKeepsPromotedSubtree(start, i, j);
          }
        }
        if owned && root.None? { FreedWhole(start); }
      }
      cache.ResetNodes();
    }
    /**
     * The debug check after a clear: with a root, the tree check's count must
     * equal the arena's `used`; without one, `used` must be 0.
     */
    method CheckArenaAccounting(cache: Cache) returns (ok: bool)
      requires root.Some? ==> SubtreeChecks(root.value, cache.positions)
      ensures root.Some? ==> (ok <==> cache.used == Size(root.value))
      ensures root.None? ==> (ok <==> cache.used == 0)
    {
      if root.Some? {
        var total := ValidateTree(root.value, cache.positions, Some(0));
        ok := cache.used == total.value;
      } else {
        ok := cache.used == 0;
      }
    }

    /** Destruction forces resumption off and unlinks the whole tree. */
    method Destroy(cache: Cache, game: Game)
      requires cache.Valid()
      modifies this`root, this`resumeIfPossible, cache`live, cache`used
      ensures cache.Valid() && !resumeIfPossible && root.None?
      ensures cache.used == |cache.live|
      ensures old(root).None? ==> cache.live == old(cache.live)
      ensures old(root).Some? ==> cache.live == old(cache.live) - Freed(old(root).value)
      ensures old(root).Some? && old(OwnsArena(root.value, cache.live)) ==> cache.live == {} && cache.used == 0
    {
      resumeIfPossible := false;
      ClearRootFirstMatch(cache, game);
    }
  }

  /** A tree whose two children each have one child at the game's position. */
  const ExamplePositions: map<Hash, Entry> := map[7 := Entry([1], Some(0))]
  const ExampleGame := Game([1], 7)
  const G3 := Node(3, [], Some(7), 1, true, false, false)
  const G4 := Node(4, [], Some(7), 1, true, false, false)
  const C1 := Node(1, [G3], Some(7), 1, true, false, false)
  const C2 := Node(2, [G4], Some(7), 1, true, false, false)
  const ExampleTree := Node(0, [C1, C2], Some(7), 1, false, true, false)

  lemma ExampleOwnsArena()
    ensures OwnsArena(ExampleTree, {0, 1, 2, 3, 4})
  {
    assert [G3][1..] == [] && [G4][1..] == [] && [C1, C2][1..] == [C2] && [C2][1..] == [];
    assert Ids(G3) == {3} && Ids(G4) == {4};
    assert IdsAll([G3]) == {3} && IdsAll([G4]) == {4};
    assert Ids(C1) == {1, 3} && Ids(C2) == {2, 4};
    assert IdsAll([C2]) == {2, 4};
    assert IdsAll([C1, C2]) == {1, 2, 3, 4};
    assert Distinct(G3) && Distinct(G4);
    assert DistinctAll([G3]) && DistinctAll([G4]);
    assert DistinctAll([C2]);
    assert DistinctAll([C1, C2]);
    assert NoRootAll([G3]) && NoRootAll([G4]);
    assert NoRootAll([C2]);
  }

  lemma ExamplePromotions()
    ensures Promotions(ExampleTree.children, ExampleGame, ExamplePositions) == [G3, G4]
  {
    assert Qualifies(G3, ExampleGame, ExamplePositions) && Qualifies(G4, ExampleGame, ExamplePositions);
    assert FirstQualifying([G3], ExampleGame, ExamplePositions) == Some(0);
    assert FirstQualifying([G4], ExampleGame, ExamplePositions) == Some(0);
    assert PromotionStep(C1, ExampleGame, ExamplePositions) == [G3];
    assert PromotionStep(C2, ExampleGame, ExamplePositions) == [G4];
    assert [C1, C2][..1] == [C1] && [C1][..0] == [];
    assert Promotions([C1], ExampleGame, ExamplePositions) == [G3];
  }

  lemma ExampleUnlinks()
    ensures ResumeLive({0, 1, 2, 3, 4}, ExampleTree, [G3, G4]) == {}
  {
    assert [G3, G4][..1] == [G3] && [G3][..0] == [];
    var m := MarkRoot(ExampleTree, 3);
    assert [C1, C2][1..] == [C2] && [C2][1..] == [] && [G3][1..] == [] && [G4][1..] == [];
    assert MarkAll([G3], 3) == [G3.(isRoot := true)];
    assert MarkRoot(C1, 3) == C1.(children := [G3.(isRoot := true)]);
    assert MarkAll([G4], 3) == [G4];
    assert MarkRoot(C2, 3) == C2;
    assert MarkAll([C2], 3) == [C2];
    assert MarkAll([C1, C2], 3) == [MarkRoot(C1, 3)] + MarkAll([C2], 3);
    assert m.children == [C1.(children := [G3.(isRoot := true)]), C2];
    assert Freed(G4) == {4} && FreedAll([G4]) == {4} && Freed(C2) == {2, 4};
    assert FreedAll([G3.(isRoot := true)]) == {};
    assert Freed(C1.(children := [G3.(isRoot := true)])) == {1};
    assert FreedAll([C2]) == {2, 4};
    assert Freed(m) == {0, 1, 2, 4};
    assert ResumeLive({0, 1, 2, 3, 4}, ExampleTree, [G3]) == {3};
    assert MarkRoot(G3.(isRoot := true), 4) == G3.(isRoot := true);
    assert Freed(G3.(isRoot := true)) == {3};
  }

  /**
   * As written, two matches under different children of the old root lose
   * the root: the first promotion unlinks the old tree, which frees the
   * second match's slot, and the second promotion then makes that freed
   * node the root.  In the example, children 1 and 2 of root 0 each have
   * one child (3 and 4) at the game's position: after the scan the root is
   * node 4, no slot is live, and `used` (0) differs from the size of the
   * root's subtree (1), which the tree check counts.
   */
  lemma TwoMatchesLoseTheRoot()
    ensures var p := Promotions(ExampleTree.children, ExampleGame, ExamplePositions);
            && OwnsArena(ExampleTree, {0, 1, 2, 3, 4})
            && |p| == 2
            && LastRoot(ExampleTree, p).id == 4
            && ResumeLive({0, 1, 2, 3, 4}, ExampleTree, p) == {}
            && Size(LastRoot(ExampleTree, p)) == 1
  {
    ExampleOwnsArena();
    ExamplePromotions();
    ExampleUnlinks();
    assert Size(G4.(isRoot := true)) == 1;
  }
}
