/**
 * The node arena (Cache) that the search tree lives in, at the level of
 * detail the tree relies on.
 *
 * A node is a value: its id (the arena slot it occupies), its children, the
 * hash of its position entry, its visit count, whether it has a prior, and
 * its root and true-terminal flags.  The arena keeps the set of live node
 * ids, the map from position hash to position entry, the `used` counter and
 * its capacity.  Ids are handed out in increasing order and never reused.
 */
module Arena {

  datatype Option<T> = None | Some(value: T)

  type NodeId = nat

  /** A 64-bit unsigned position fingerprint. */
  newtype Hash = x: int | 0 <= x < 0x1_0000_0000_0000_0000

  /** The board state of a game position; the tree only compares positions for equality. */
  type Position = seq<int>

  /** A position entry: the position and the node it is attached to (its transposition). */
  datatype Entry = Entry(position: Position, transposition: Option<NodeId>)

  datatype Node = Node(
    id: NodeId,
    children: seq<Node>,
    position: Option<Hash>,
    visits: nat,
    hasPrior: bool,
    isRoot: bool,
    trueTerminal: bool)

  /** Number of nodes in the subtree of `t`. */
  function Size(t: Node): nat
    decreases t
  {
    1 + SizeAll(t.children)
  }

  function SizeAll(cs: seq<Node>): nat
    decreases cs
  {
    if cs == [] then 0 else Size(cs[0]) + SizeAll(cs[1..])
  }

  /** Ids of the nodes in the subtree of `t`. */
  function Ids(t: Node): set<NodeId>
    decreases t
  {
    {t.id} + IdsAll(t.children)
  }

  function IdsAll(cs: seq<Node>): set<NodeId>
    decreases cs
  {
    if cs == [] then {} else Ids(cs[0]) + IdsAll(cs[1..])
  }

  /** No arena slot occurs twice in the subtree of `t`. */
  predicate Distinct(t: Node)
    decreases t
  {
    t.id !in IdsAll(t.children) && DistinctAll(t.children)
  }

  predicate DistinctAll(cs: seq<Node>)
    decreases cs
  {
    cs == [] || (Distinct(cs[0]) && Ids(cs[0]) !! IdsAll(cs[1..]) && DistinctAll(cs[1..]))
  }

  /** No node of the forest `cs` is marked as a root. */
  predicate NoRootAll(cs: seq<Node>)
    decreases cs
  {
    cs == [] || (!cs[0].isRoot && NoRootAll(cs[0].children) && NoRootAll(cs[1..]))
  }

  /** The subtree of `t` with the node whose id is `x` marked as a root (setAsRootNode). */
  function MarkRoot(t: Node, x: NodeId): (r: Node)
    ensures r.id == t.id && r.isRoot == (t.isRoot || t.id == x)
    ensures Ids(r) == Ids(t)
    decreases t
  {
    t.(isRoot := t.isRoot || t.id == x, children := MarkAll(t.children, x))
  }

  function MarkAll(cs: seq<Node>, x: NodeId): (r: seq<Node>)
    ensures |r| == |cs| && IdsAll(r) == IdsAll(cs)
    decreases cs
  {
    if cs == [] then [] else [MarkRoot(cs[0], x)] + MarkAll(cs[1..], x)
  }

  /**
   * The slots unlinking `t` frees: `t` itself and, recursively, every child
   * that is not marked as a root; the subtree below a root-marked node survives.
   */
  function Freed(t: Node): set<NodeId>
    decreases t
  {
    {t.id} + FreedAll(t.children)
  }

  function FreedAll(cs: seq<Node>): set<NodeId>
    decreases cs
  {
    if cs == [] then {}
    else (if cs[0].isRoot then {} else Freed(cs[0])) + FreedAll(cs[1..])
  }

  /** The tree rooted at `t` accounts for exactly the live slots of the arena. */
  ghost predicate OwnsArena(t: Node, live: set<NodeId>)
  {
    live == Ids(t) && Distinct(t) && NoRootAll(t.children)
  }

  lemma {:induction false} IdsAllContains(cs: seq<Node>, k: nat)
    requires k < |cs|
    ensures Ids(cs[k]) <= IdsAll(cs)
    decreases cs
  {
    if k > 0 {
      IdsAllContains(cs[1..], k - 1);
    }
  }

  lemma {:induction false} DistinctAllElement(cs: seq<Node>, k: nat)
    requires DistinctAll(cs) && k < |cs|
    ensures Distinct(cs[k])
    decreases cs
  {
    if k > 0 {
      DistinctAllElement(cs[1..], k - 1);
    }
  }

  lemma {:induction false} NoRootAllElement(cs: seq<Node>, k: nat)
    requires NoRootAll(cs) && k < |cs|
    ensures !cs[k].isRoot && NoRootAll(cs[k].children)
    decreases cs
  {
    if k > 0 {
      NoRootAllElement(cs[1..], k - 1);
    }
  }

  /** In a subtree without repeated slots, counting nodes and counting ids agree. */
  lemma {:induction false} SizeIsCardinality(t: Node)
    requires Distinct(t)
    ensures |Ids(t)| == Size(t)
    decreases t
  {
    SizeAllIsCardinality(t.children);
  }

  lemma {:induction false} SizeAllIsCardinality(cs: seq<Node>)
    requires DistinctAll(cs)
    ensures |IdsAll(cs)| == SizeAll(cs)
    decreases cs
  {
    if cs != [] {
      SizeIsCardinality(cs[0]);
      SizeAllIsCardinality(cs[1..]);
      assert Ids(cs[0]) * IdsAll(cs[1..]) == {};
    }
  }

  /** Marking an id that does not occur in a subtree leaves it unchanged. */
  lemma {:induction false} MarkAbsent(t: Node, x: NodeId)
    requires x !in Ids(t)
    ensures MarkRoot(t, x) == t
    decreases t
  {
    MarkAllAbsent(t.children, x);
  }

  lemma {:induction false} MarkAllAbsent(cs: seq<Node>, x: NodeId)
    requires x !in IdsAll(cs)
    ensures MarkAll(cs, x) == cs
    decreases cs
  {
    if cs != [] {
      MarkAbsent(cs[0], x);
      MarkAllAbsent(cs[1..], x);
    }
  }

  /** With no root mark below it, unlinking a node frees its whole subtree. */
  lemma {:induction false} FreedWhole(t: Node)
    requires NoRootAll(t.children)
    ensures Freed(t) == Ids(t)
    decreases t
  {
    FreedAllWhole(t.children);
  }

  lemma {:induction false} FreedAllWhole(cs: seq<Node>)
    requires NoRootAll(cs)
    ensures FreedAll(cs) == IdsAll(cs)
    decreases cs
  {
    if cs != [] {
      FreedWhole(cs[0]);
      FreedAllWhole(cs[1..]);
    }
  }

  /** Marking one node of a forest as root spares exactly its subtree from the unlink. */
  lemma {:induction false} FreedAllMarkedTop(cs: seq<Node>, k: nat)
    requires DistinctAll(cs) && NoRootAll(cs) && k < |cs|
    ensures FreedAll(MarkAll(cs, cs[k].id)) == IdsAll(cs) - Ids(cs[k])
    decreases cs
  {
    var x := cs[k].id;
    assert MarkAll(cs, x)[0] == MarkRoot(cs[0], x);
    assert MarkAll(cs, x)[1..] == MarkAll(cs[1..], x);
    if k == 0 {
      assert x in Ids(cs[0]);
      MarkAllAbsent(cs[1..], x);
      FreedAllWhole(cs[1..]);
    } else {
      IdsAllContains(cs[1..], k - 1);
      MarkAbsent(cs[0], x);
      FreedWhole(cs[0]);
      FreedAllMarkedTop(cs[1..], k - 1);
    }
  }

  /** Marking one grandchild of a forest as root spares exactly its subtree from the unlink. */
  lemma {:induction false} FreedAllMarkedGrandchild(cs: seq<Node>, i: nat, j: nat)
    requires DistinctAll(cs) && NoRootAll(cs)
    requires i < |cs| && j < |cs[i].children|
    ensures FreedAll(MarkAll(cs, cs[i].children[j].id)) == IdsAll(cs) - Ids(cs[i].children[j])
    decreases cs
  {
    var g := cs[i].children[j];
    var x := g.id;
    assert MarkAll(cs, x)[0] == MarkRoot(cs[0], x);
    assert MarkAll(cs, x)[1..] == MarkAll(cs[1..], x);
    if i == 0 {
      var c := cs[0];
      assert Distinct(c);
      IdsAllContains(c.children, j);
      assert x in IdsAll(c.children);
      DistinctAllElement(c.children, j);
      assert x != c.id;
      FreedAllMarkedTop(c.children, j);
      assert Freed(MarkRoot(c, x)) == {c.id} + (IdsAll(c.children) - Ids(g));
      assert x !in IdsAll(cs[1..]);
      MarkAllAbsent(cs[1..], x);
      FreedAllWhole(cs[1..]);
    } else {
      IdsAllContains(cs[1..], i - 1);
      IdsAllContains(cs[i].children, j);
      assert x in Ids(cs[i]);
      assert x !in Ids(cs[0]);
      MarkAbsent(cs[0], x);
      FreedWhole(cs[0]);
      FreedAllMarkedGrandchild(cs[1..], i - 1, j);
    }
  }

  /** Unlinking the old root with grandchild `g` marked frees every slot of the tree except `g`'s subtree. */
  lemma PromotedSubtreeSurvives(t: Node, i: nat, j: nat)
    requires Distinct(t) && NoRootAll(t.children)
    requires i < |t.children| && j < |t.children[i].children|
    ensures var g := t.children[i].children[j];
            Ids(t) - Freed(MarkRoot(t, g.id)) == Ids(g)
  {
    var g := t.children[i].children[j];
    IdsAllContains(t.children, i);
    IdsAllContains(t.children[i].children, j);
    assert Ids(g) <= IdsAll(t.children);
    assert t.id !in Ids(g);
    FreedAllMarkedGrandchild(t.children, i, j);
    assert Freed(MarkRoot(t, g.id)) == {t.id} + (IdsAll(t.children) - Ids(g));
  }

  /**
   * Resuming at grandchild `g` of a tree that owns the arena: unlinking the
   * old root once `g` is marked leaves exactly `g`'s subtree live, and that
   * subtree again owns what is left.
   */
  lemma ResumeKeepsPromotedSubtree(t: Node, i: nat, j: nat)
    requires Distinct(t) && NoRootAll(t.children)
    requires i < |t.children| && j < |t.children[i].children|
    ensures var g := t.children[i].children[j];
            && Ids(t) - Freed(MarkRoot(t, g.id)) == Ids(g)
            && OwnsArena(g.(isRoot := true), Ids(g))
            && |Ids(g)| == Size(g)
  {
    var c := t.children[i];
    var g := c.children[j];
    PromotedSubtreeSurvives(t, i, j);
    DistinctAllElement(t.children, i);
    DistinctAllElement(c.children, j);
    NoRootAllElement(t.children, i);
    NoRootAllElement(c.children, j);
    SizeIsCardinality(g);
  }

  /** The node arena: live slots, position entries by hash, and the `used` counter. */
  class Cache {
    var live: set<NodeId>
    var positions: map<Hash, Entry>
    var used: nat
    var nextId: NodeId
    const capacity: nat

    ghost predicate Valid()
      reads this
    {
      0 < capacity && |live| <= used <= capacity && forall id | id in live :: id < nextId
    }

    constructor (capacity: nat)
      requires capacity > 0
      ensures Valid() && this.capacity == capacity
      ensures live == {} && positions == map[] && used == 0
    {
      this.capacity := capacity;
      live := {};
      positions := map[];
      used := 0;
      nextId := 0;
    }

    /** Allocates a node slot, or reports exhaustion when `used` has reached the capacity. */
    method NewNode() returns (id: Option<NodeId>)
      requires Valid()
      modifies this`live, this`used, this`nextId
      ensures Valid()
      ensures old(used) < capacity ==>
                id == Some(old(nextId)) && old(nextId) !in old(live) &&
                live == old(live) + {old(nextId)} && used == old(used) + 1 && nextId == old(nextId) + 1
      ensures old(used) == capacity ==>
                id == None && live == old(live) && used == old(used) && nextId == old(nextId)
    {
      if used < capacity {
        id := Some(nextId);
        live := live + {nextId};
        used := used + 1;
        nextId := nextId + 1;
      } else {
        id := None;
      }
    }

    function ContainsNodePosition(hash: Hash): (r: bool)
      reads this
      ensures r <==> hash in positions
    {
      hash in positions
    }

    function NodePosition(hash: Hash): (e: Entry)
      reads this
      requires hash in positions
      ensures e == positions[hash]
    {
      positions[hash]
    }

    /** Creates an uninitialised position entry for `hash`. */
    method NewNodePosition(hash: Hash)
      modifies this`positions
      ensures positions == old(positions)[hash := Entry([], None)]
    {
      positions := positions[hash := Entry([], None)];
    }

    /** Initialises the entry for `hash` with a position and the node it belongs to. */
    method InitializePosition(hash: Hash, node: NodeId, position: Position)
      requires hash in positions
      modifies this`positions
      ensures positions == old(positions)[hash := Entry(position, Some(node))]
    {
      positions := positions[hash := Entry(position, Some(node))];
    }

    /** Frees `t` and the part of its subtree that is not below a root-marked node. */
    method UnlinkNode(t: Node)
      requires Valid()
      modifies this`live
      ensures Valid()
      ensures live == old(live) - Freed(t)
    {
      live := live - Freed(t);
    }

    /** Reconciles the `used` counter with the slots that are still live. */
    method ResetNodes()
      requires Valid()
      modifies this`used
      ensures Valid()
      ensures used == |live|
    {
      used := |live|;
    }
  }
}
