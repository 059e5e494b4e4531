/**
 * The code tree of the compressor: leaves carry a symbol and its count,
 * internal nodes only the sum of their children's weights. The tree is built
 * from the priority queue by a greedy pairing order, and the code table is
 * read off it by path ('0' left, '1' right).
 */
module CodeTree {
  import opened Bits
  import opened Wrappers

  /** A priority-queue entry: a symbol and its number of occurrences. */
  type Entry = (char, nat)

  datatype Tree =
    | Leaf(symbol: char, weight: nat)
    | Node(weight: nat, left: Tree, right: Tree)

  /** Why `createTree` yields no tree: an empty queue gives none, and a queue of
      one to three entries asks the size of a tree not yet built. */
  datatype TreeError = EmptyQueue | SizeOfMissingTree

  /** A code table entry: symbol, code length and code. */
  datatype Key = Key(symbol: char, length: nat, code: string)

  /** The header and the code table, in traversal order. */
  datatype KeyTable = KeyTable(total: nat, count: nat, entries: seq<Key>)

  /** Every internal node weighs as much as its two children together. */
  predicate WellWeighted(t: Tree) {
    match t
    case Leaf(_, _) => true
    case Node(w, l, r) => w == l.weight + r.weight && WellWeighted(l) && WellWeighted(r)
  }

  /** The leaves, left to right. */
  function Leaves(t: Tree): seq<Entry> {
    match t
    case Leaf(s, w) => [(s, w)]
    case Node(_, l, r) => Leaves(l) + Leaves(r)
  }

  function Height(t: Tree): nat {
    match t
    case Leaf(_, _) => 0
    case Node(_, l, r) => 1 + if Height(l) < Height(r) then Height(r) else Height(l)
  }

  function SumWeights(entries: seq<Entry>): nat {
    if entries == [] then 0 else SumWeights(entries[..|entries| - 1]) + entries[|entries| - 1].1
  }

  /** A tree that may not exist yet: its weight, its leaves and its well-weightedness. */
  function OptWeight(t: Option<Tree>): nat {
    if t.Some? then t.value.weight else 0
  }

  function OptLeaves(t: Option<Tree>): multiset<Entry> {
    if t.Some? then multiset(Leaves(t.value)) else multiset{}
  }

  predicate OptWellWeighted(t: Option<Tree>) {
    t.Some? ==> WellWeighted(t.value)
  }

  /** The single subtree waiting to be paired, if any. */
  function Waiting(subtrees: seq<Tree>): Option<Tree> {
    if |subtrees| == 1 then Some(subtrees[0]) else None
  }

  /** Two queue entries as the two leaves of a new subtree. */
  function CreateSubtree(items: seq<Entry>): (t: Tree)
    requires |items| == 2
    ensures WellWeighted(t) && t.weight == items[0].1 + items[1].1
    ensures Leaves(t) == items
  {
    Node(items[0].1 + items[1].1, Leaf(items[0].0, items[0].1), Leaf(items[1].0, items[1].1))
  }

  /** Joins two trees under a new root, `lTree` on the left; with no left tree, `rTree` itself. */
  function CombineSubtrees(lTree: Option<Tree>, rTree: Tree): (t: Tree)
    ensures lTree.None? ==> t == rTree
    ensures lTree.Some? ==> t.Node? && t.left == lTree.value && t.right == rTree
    ensures lTree.Some? ==> t.weight == lTree.value.weight + rTree.weight
    ensures Leaves(t) == (if lTree.Some? then Leaves(lTree.value) else []) + Leaves(rTree)
    ensures (lTree.Some? ==> WellWeighted(lTree.value)) && WellWeighted(rTree) ==> WellWeighted(t)
  {
    if lTree.None? then rTree else Node(lTree.value.weight + rTree.weight, lTree.value, rTree)
  }

  /** A leftover tree joins the main tree, on the left when strictly lighter, else on the right. */
  function JoinLeftover(tree: Tree, leftover: Tree): (t: Tree)
    ensures t.Node? && t.left.weight <= t.right.weight
    ensures (t.left, t.right) == (tree, leftover) || (t.left, t.right) == (leftover, tree)
    ensures leftover.weight == tree.weight ==> t.left == tree
    ensures t.weight == tree.weight + leftover.weight
    ensures multiset(Leaves(t)) == multiset(Leaves(tree)) + multiset(Leaves(leftover))
    ensures WellWeighted(tree) && WellWeighted(leftover) ==> WellWeighted(t)
  {
    if leftover.weight < tree.weight then CombineSubtrees(Some(leftover), tree)
    else CombineSubtrees(Some(tree), leftover)
  }

  /** The main tree and the waiting subtree hold exactly the entries `taken`:
      both are well weighted, they weigh as much as those entries and have them as leaves. */
  predicate Pool(tree: Option<Tree>, waiting: Option<Tree>, taken: seq<Entry>) {
    OptWellWeighted(tree) && OptWellWeighted(waiting)
    && OptWeight(tree) + OptWeight(waiting) == SumWeights(taken)
    && OptLeaves(tree) + OptLeaves(waiting) == multiset(taken)
  }

  /**
   * Builds the tree from the queue: entries are paired into two-leaf subtrees;
   * two pending subtrees are joined into a candidate, which becomes the right
   * child of the main tree only when strictly heavier than it and is held back
   * otherwise; leftovers join at the end, the strictly lighter side on the left.
   */
  method CreateTree(priorityQueue: seq<Entry>) returns (r: Result<Tree, TreeError>)
    ensures |priorityQueue| == 0 <==> r == Err(EmptyQueue)
    ensures 1 <= |priorityQueue| < 4 <==> r == Err(SizeOfMissingTree)
    ensures r.Ok? ==> WellWeighted(r.value)
    ensures r.Ok? ==> r.value.weight == SumWeights(priorityQueue)
    ensures r.Ok? ==> multiset(Leaves(r.value)) == multiset(priorityQueue)
    ensures r == TreeOf(priorityQueue)
  {
    var tree, subtrees, queue, taken, pairs := PairEntries(priorityQueue);
    r := FinishTree(tree, subtrees, queue);
    assert (|priorityQueue| == 0 <==> r == Err(EmptyQueue))
      && (1 <= |priorityQueue| < 4 <==> r == Err(SizeOfMissingTree)) by {
      if pairs == 0 {
        assert tree.None? && subtrees == [] && |priorityQueue| == |queue|;
      } else if pairs == 1 {
        assert tree.None? && subtrees != [] && 2 <= |priorityQueue| <= 3;
      } else {
        assert tree.Some? && |priorityQueue| >= 4;
      }
    }
    assert r.Ok? ==> Pool(Some(r.value), None, priorityQueue) by {
      if r.Ok? {
        PoolFinished(tree, subtrees, queue, taken);
      }
    }
  }

  /** The pairing loop of `CreateTree`: two entries at a time leave the queue
      for the pool of the main tree and the waiting subtree. */
  method PairEntries(priorityQueue: seq<Entry>)
    returns (tree: Option<Tree>, subtrees: seq<Tree>, queue: seq<Entry>, ghost taken: seq<Entry>, ghost pairs: nat)
    ensures taken + queue == priorityQueue && |taken| == 2 * pairs
    ensures |queue| <= 1 && |subtrees| <= 1
    ensures pairs == 0 ==> tree.None? && subtrees == []
    ensures pairs == 1 ==> tree.None? && |subtrees| == 1
    ensures pairs >= 2 ==> tree.Some?
    ensures Pool(tree, Waiting(subtrees), taken)
    ensures (tree, subtrees, queue) == PairFold(None, [], priorityQueue)
  {
    tree, subtrees, queue := None, [], priorityQueue;
    taken, pairs := [], 0;
    while |queue| > 1
      invariant taken + queue == priorityQueue && |taken| == 2 * pairs
      invariant |subtrees| <= 1
      invariant FoldsTo(tree, subtrees, queue, priorityQueue)
      invariant pairs == 0 ==> tree.None? && subtrees == []
      invariant pairs == 1 ==> tree.None? && |subtrees| == 1
      invariant pairs >= 2 ==> tree.Some?
      invariant Pool(tree, Waiting(subtrees), taken)
    {
      var subtree := CreateSubtree(queue[..2]);
      assert (taken + queue[..2]) + queue[2..] == priorityQueue by {
        assert queue == queue[..2] + queue[2..];
      }
      var round := PairRound(tree, subtrees, subtree);
      assert Pool(round.0, Waiting(round.1), taken + queue[..2]) by {
        PoolRound(tree, subtrees, taken, queue[..2]);
      }
      assert FoldsTo(round.0, round.1, queue[2..], priorityQueue) by {
        PairFoldStep(tree, subtrees, queue);
      }
      tree, subtrees := round.0, round.1;
      taken := taken + queue[..2];
      queue := queue[2..];
      pairs := pairs + 1;
    }
    assert (tree, subtrees, queue) == PairFold(None, [], priorityQueue) by {
      assert FoldsTo(tree, subtrees, queue, priorityQueue);
    }
  }

  /** The pool and queue are a state the pairing loop passes through on `priorityQueue`. */
  predicate FoldsTo(tree: Option<Tree>, subtrees: seq<Tree>, queue: seq<Entry>, priorityQueue: seq<Entry>)
    requires |subtrees| <= 1
  {
    PairFold(tree, subtrees, queue) == PairFold(None, [], priorityQueue)
  }

  /** One round of the pairing loop: the new subtree joins the pending ones;
      two pending subtrees are joined into a candidate, which becomes the right
      child of the main tree when strictly heavier than it, and waits otherwise. */
  function PairRound(tree: Option<Tree>, subtrees: seq<Tree>, subtree: Tree): (r: (Option<Tree>, seq<Tree>))
    requires |subtrees| <= 1
    ensures |r.1| <= 1
    ensures subtrees == [] ==> r == (tree, [subtree])
    ensures subtrees != [] ==> r.0.Some? && (tree.None? ==> r.1 == [])
    ensures subtrees != [] ==>
      var candidate := Node(subtrees[0].weight + subtree.weight, subtrees[0], subtree);
      if tree.None? || candidate.weight > tree.value.weight
      then r == (Some(CombineSubtrees(tree, candidate)), [])
      else r == (tree, [candidate])
  {
    var pending := subtrees + [subtree];
    if |pending| == 2 then
      var newSubtree := CombineSubtrees(Some(pending[0]), pending[1]);
      if tree.None? || newSubtree.weight > tree.value.weight then (Some(CombineSubtrees(tree, newSubtree)), [])
      else (tree, [newSubtree])
    else
      assert pending == [subtree];
      (tree, pending)
  }

  /** The pairing loop as a function: rounds of `PairRound` over the queue, two
      entries at a time, until fewer than two are left; returns the main tree,
      the waiting subtree and the unpaired entry. */
  function PairFold(tree: Option<Tree>, subtrees: seq<Tree>, queue: seq<Entry>): (r: (Option<Tree>, seq<Tree>, seq<Entry>))
    requires |subtrees| <= 1
    ensures |r.1| <= 1 && |r.2| <= 1
    decreases |queue|
  {
    if |queue| <= 1 then (tree, subtrees, queue)
    else
      var round := PairRound(tree, subtrees, CreateSubtree(queue[..2]));
      PairFold(round.0, round.1, queue[2..])
  }

  lemma PairFoldStep(tree: Option<Tree>, subtrees: seq<Tree>, queue: seq<Entry>)
    requires |subtrees| <= 1 && |queue| > 1
    ensures var round := PairRound(tree, subtrees, CreateSubtree(queue[..2]));
      PairFold(tree, subtrees, queue) == PairFold(round.0, round.1, queue[2..])
  {
  }

  /** The tree `createTree` builds from the queue, or why it fails. */
  function TreeOf(priorityQueue: seq<Entry>): Result<Tree, TreeError> {
    var pool := PairFold(None, [], priorityQueue);
    FinishTree(pool.0, pool.1, pool.2)
  }

  /** On four entries the two pairs join into one candidate, which becomes the tree:
      the first pair on the left, the second on the right. */
  lemma TreeOfFour(priorityQueue: seq<Entry>)
    requires |priorityQueue| == 4
    ensures TreeOf(priorityQueue) == Ok(Node(CreateSubtree(priorityQueue[..2]).weight + CreateSubtree(priorityQueue[2..]).weight,
                                             CreateSubtree(priorityQueue[..2]), CreateSubtree(priorityQueue[2..])))
  {
    PairFoldStep(None, [], priorityQueue);
    PairFoldStep(None, [CreateSubtree(priorityQueue[..2])], priorityQueue[2..]);
    assert priorityQueue[2..][..2] == priorityQueue[2..];
  }

  /** The pairing loop ends with a main tree exactly when one existed, or when the
      waiting subtree and the pairs still to come number at least two. */
  lemma {:induction false} PairFoldBuilds(tree: Option<Tree>, subtrees: seq<Tree>, queue: seq<Entry>)
    requires |subtrees| <= 1
    ensures PairFold(tree, subtrees, queue).0.Some? <==> tree.Some? || |subtrees| + |queue| / 2 >= 2
    decreases |queue|
  {
    if |queue| > 1 {
      var round := PairRound(tree, subtrees, CreateSubtree(queue[..2]));
      PairFoldBuilds(round.0, round.1, queue[2..]);
      assert |queue[2..]| / 2 == |queue| / 2 - 1;
    }
  }

  /** `createTree` yields a tree exactly for queues of four entries or more. */
  lemma TreeOfBuilds(priorityQueue: seq<Entry>)
    ensures TreeOf(priorityQueue).Ok? <==> |priorityQueue| >= 4
  {
    PairFoldBuilds(None, [], priorityQueue);
  }

  /** A pairing round moves the new pair's entries into the pool. */
  lemma PoolRound(tree: Option<Tree>, subtrees: seq<Tree>, taken: seq<Entry>, pair: seq<Entry>)
    requires |subtrees| <= 1 && |pair| == 2 && Pool(tree, Waiting(subtrees), taken)
    ensures var r := PairRound(tree, subtrees, CreateSubtree(pair));
      Pool(r.0, Waiting(r.1), taken + pair)
  {
    var subtree := CreateSubtree(pair);
    var r := PairRound(tree, subtrees, subtree);
    if subtrees == [] {
      PoolPairWaits(tree, taken, pair);
      assert Waiting(r.1) == Some(subtree);
    } else {
      var waiting := subtrees[0];
      assert Waiting(subtrees) == Some(waiting);
      var pending := subtrees + [subtree];
      assert pending[0] == waiting && pending[1] == subtree;
      var newSubtree := CombineSubtrees(Some(waiting), subtree);
      if tree.None? || newSubtree.weight > tree.value.weight {
        PoolCandidateJoins(tree, waiting, taken, pair);
        assert r == (Some(CombineSubtrees(tree, newSubtree)), []);
      } else {
        PoolCandidateWaits(tree.value, waiting, taken, pair);
        assert r == (tree, [newSubtree]);
        assert Waiting(r.1) == Some(newSubtree);
      }
    }
  }

  /** What follows the pairing loop: a waiting subtree, then a last unpaired entry,
      joins the main tree; either one without a main tree asks the size of a missing tree. */
  function FinishTree(tree: Option<Tree>, subtrees: seq<Tree>, queue: seq<Entry>): (r: Result<Tree, TreeError>)
    requires |subtrees| <= 1 && |queue| <= 1
    ensures r.Err? <==> tree.None?
    ensures tree.None? && subtrees == [] && queue == [] ==> r == Err(EmptyQueue)
    ensures tree.None? && (subtrees != [] || queue != []) ==> r == Err(SizeOfMissingTree)
  {
    if |subtrees| == 1 && tree.None? then Err(SizeOfMissingTree)
    else
      var joined := if |subtrees| == 1 then Some(JoinLeftover(tree.value, subtrees[0])) else tree;
      if |queue| == 1 then
        if joined.None? then Err(SizeOfMissingTree)
        else Ok(JoinLeftover(joined.value, Leaf(queue[0].0, queue[0].1)))
      else if joined.None? then Err(EmptyQueue)
      else Ok(joined.value)
  }

  /** The finished tree holds every entry of the queue. */
  lemma PoolFinished(tree: Option<Tree>, subtrees: seq<Tree>, queue: seq<Entry>, taken: seq<Entry>)
    requires |subtrees| <= 1 && |queue| <= 1 && Pool(tree, Waiting(subtrees), taken)
    requires FinishTree(tree, subtrees, queue).Ok?
    ensures Pool(Some(FinishTree(tree, subtrees, queue).value), None, taken + queue)
  {
    var joined := if |subtrees| == 1 then Some(JoinLeftover(tree.value, subtrees[0])) else tree;
    assert Pool(joined, None, taken) by {
      if |subtrees| == 1 {
        assert Waiting(subtrees) == Some(subtrees[0]);
        PoolLeftover(tree.value, subtrees[0], taken);
      }
    }
    if |queue| == 1 {
      assert queue == [queue[0]];
      PoolLast(joined.value, taken, queue[0]);
      assert FinishTree(tree, subtrees, queue) == Ok(JoinLeftover(joined.value, Leaf(queue[0].0, queue[0].1)));
    } else {
      assert taken + queue == taken;
      assert FinishTree(tree, subtrees, queue) == Ok(joined.value);
    }
  }

  // ---------------------------------------------------------------- the tree builder as intended

  /**
   * `createTree` with the leftovers handled as `_combineSubtrees(None, t)`
   * handles them: a waiting subtree or a last entry with no main tree yet
   * becomes the main tree. Every non-empty queue then gives a tree.
   */
  method CreateTreeFixed(priorityQueue: seq<Entry>) returns (r: Result<Tree, TreeError>)
    ensures r.Err? <==> |priorityQueue| == 0
    ensures r.Err? ==> r.error == EmptyQueue
    ensures r.Ok? ==> WellWeighted(r.value)
    ensures r.Ok? ==> r.value.weight == SumWeights(priorityQueue)
    ensures r.Ok? ==> multiset(Leaves(r.value)) == multiset(priorityQueue)
    ensures r == TreeOfFixed(priorityQueue)
  {
    var tree, subtrees, queue, taken, pairs := PairEntries(priorityQueue);
    r := FinishTreeFixed(tree, subtrees, queue);
    assert r.Err? <==> |priorityQueue| == 0 by {
      if pairs == 0 {
        assert |priorityQueue| == |queue|;
      }
    }
    assert r.Ok? ==> Pool(Some(r.value), None, priorityQueue) by {
      if r.Ok? {
        PoolFinishedFixed(tree, subtrees, queue, taken);
      }
    }
  }

  /** A leftover joins the main tree as in `JoinLeftover`, or is the tree when there is none yet. */
  function JoinOrAdopt(tree: Option<Tree>, leftover: Tree): (t: Tree)
    ensures tree.None? ==> t == leftover
    ensures tree.Some? ==> t == JoinLeftover(tree.value, leftover)
  {
    if tree.None? then leftover else JoinLeftover(tree.value, leftover)
  }

  /** The tail of the intended `createTree`: fails only when there was nothing to build from. */
  function FinishTreeFixed(tree: Option<Tree>, subtrees: seq<Tree>, queue: seq<Entry>): (r: Result<Tree, TreeError>)
    requires |subtrees| <= 1 && |queue| <= 1
    ensures r.Err? <==> tree.None? && subtrees == [] && queue == []
    ensures r.Err? ==> r.error == EmptyQueue
    ensures tree.Some? ==> r == FinishTree(tree, subtrees, queue)
  {
    var joined := if |subtrees| == 1 then Some(JoinOrAdopt(tree, subtrees[0])) else tree;
    if |queue| == 1 then Ok(JoinOrAdopt(joined, Leaf(queue[0].0, queue[0].1)))
    else if joined.None? then Err(EmptyQueue)
    else Ok(joined.value)
  }

  /** The tree the intended `createTree` builds from the queue. */
  function TreeOfFixed(priorityQueue: seq<Entry>): Result<Tree, TreeError> {
    var pool := PairFold(None, [], priorityQueue);
    FinishTreeFixed(pool.0, pool.1, pool.2)
  }

  /** Wherever `createTree` as written succeeds, that is on four entries or more,
      the intended builder builds the same tree. */
  lemma TreeOfFixedAgrees(priorityQueue: seq<Entry>)
    ensures |priorityQueue| >= 4 ==> TreeOfFixed(priorityQueue) == TreeOf(priorityQueue)
  {
    PairFoldBuilds(None, [], priorityQueue);
  }

  /** The intended tail's tree holds every entry of the queue. */
  lemma PoolFinishedFixed(tree: Option<Tree>, subtrees: seq<Tree>, queue: seq<Entry>, taken: seq<Entry>)
    requires |subtrees| <= 1 && |queue| <= 1 && Pool(tree, Waiting(subtrees), taken)
    requires FinishTreeFixed(tree, subtrees, queue).Ok?
    ensures Pool(Some(FinishTreeFixed(tree, subtrees, queue).value), None, taken + queue)
  {
    var joined := if |subtrees| == 1 then Some(JoinOrAdopt(tree, subtrees[0])) else tree;
    assert Pool(joined, None, taken) by {
      if |subtrees| == 1 {
        assert Waiting(subtrees) == Some(subtrees[0]);
        if tree.Some? {
          PoolLeftover(tree.value, subtrees[0], taken);
        }
      }
    }
    if |queue| == 1 {
      var last := queue[0];
      assert queue == [last];
      if joined.Some? {
        PoolLast(joined.value, taken, last);
      } else {
        PoolFirst(taken, last);
      }
      assert FinishTreeFixed(tree, subtrees, queue) == Ok(JoinOrAdopt(joined, Leaf(last.0, last.1)));
    } else {
      assert taken + queue == taken;
    }
  }

  /** A last entry with nothing else taken is a one-leaf tree. */
  lemma PoolFirst(taken: seq<Entry>, last: Entry)
    requires Pool(None, None, taken)
    ensures Pool(Some(Leaf(last.0, last.1)), None, taken + [last])
  {
    assert taken == [] by {
      assert |multiset(taken)| == 0;
    }
    assert taken + [last] == [last] && [last][..0] == [];
  }

  /** A new pair waits when nothing else does. */
  lemma PoolPairWaits(tree: Option<Tree>, taken: seq<Entry>, pair: seq<Entry>)
    requires |pair| == 2 && Pool(tree, None, taken)
    ensures Pool(tree, Some(CreateSubtree(pair)), taken + pair)
  {
    var s := CreateSubtree(pair);
    TakePair(taken, pair);
    assert multiset(Leaves(s)) == multiset(pair);
    assert multiset(taken + pair) == multiset(taken) + multiset(pair);
  }

  /** A new pair joins the waiting subtree into a candidate, which joins the main tree. */
  lemma PoolCandidateJoins(tree: Option<Tree>, waiting: Tree, taken: seq<Entry>, pair: seq<Entry>)
    requires |pair| == 2 && Pool(tree, Some(waiting), taken)
    ensures Pool(Some(CombineSubtrees(tree, CombineSubtrees(Some(waiting), CreateSubtree(pair)))), None, taken + pair)
  {
    var c := CombineSubtrees(Some(waiting), CreateSubtree(pair));
    var j := CombineSubtrees(tree, c);
    TakePair(taken, pair);
    assert c.weight == waiting.weight + pair[0].1 + pair[1].1;
    assert j.weight == OptWeight(tree) + c.weight;
    assert multiset(Leaves(c)) == multiset(Leaves(waiting)) + multiset(pair);
    assert multiset(Leaves(j)) == OptLeaves(tree) + multiset(Leaves(c));
    assert multiset(taken + pair) == multiset(taken) + multiset(pair);
  }

  /** A new pair joins the waiting subtree into a candidate, which waits in its turn. */
  lemma PoolCandidateWaits(tree: Tree, waiting: Tree, taken: seq<Entry>, pair: seq<Entry>)
    requires |pair| == 2 && Pool(Some(tree), Some(waiting), taken)
    ensures Pool(Some(tree), Some(CombineSubtrees(Some(waiting), CreateSubtree(pair))), taken + pair)
  {
    var c := CombineSubtrees(Some(waiting), CreateSubtree(pair));
    TakePair(taken, pair);
    assert c.weight == waiting.weight + pair[0].1 + pair[1].1;
    assert multiset(Leaves(c)) == multiset(Leaves(waiting)) + multiset(pair);
    assert multiset(taken + pair) == multiset(taken) + multiset(pair);
  }

  lemma PoolLeftover(tree: Tree, leftover: Tree, taken: seq<Entry>)
    requires Pool(Some(tree), Some(leftover), taken)
    ensures Pool(Some(JoinLeftover(tree, leftover)), None, taken)
  {
    var j := JoinLeftover(tree, leftover);
    assert j.weight == tree.weight + leftover.weight;
    assert multiset(Leaves(j)) == multiset(Leaves(tree)) + multiset(Leaves(leftover));
  }

  lemma PoolLast(tree: Tree, taken: seq<Entry>, last: Entry)
    requires Pool(Some(tree), None, taken)
    ensures Pool(Some(JoinLeftover(tree, Leaf(last.0, last.1))), None, taken + [last])
  {
    var j := JoinLeftover(tree, Leaf(last.0, last.1));
    assert (taken + [last])[..|taken|] == taken;
    assert j.weight == tree.weight + last.1;
    assert multiset(Leaves(j)) == multiset(Leaves(tree)) + multiset{last};
    assert multiset(taken + [last]) == multiset(taken) + multiset{last};
  }

  lemma TakePair(taken: seq<Entry>, pair: seq<Entry>)
    requires |pair| == 2
    ensures SumWeights(taken + pair) == SumWeights(taken) + pair[0].1 + pair[1].1
  {
    assert (taken + pair)[..|taken| + 1] == taken + [pair[0]];
    assert (taken + [pair[0]])[..|taken|] == taken;
  }

  // ---------------------------------------------------------------- code table

  /** The code table of a subtree reached by the path `bitCode` ('0' per left
      step, '1' per right step): one entry per leaf, left before right. */
  function GenerateKeys(node: Tree, bitCode: string): seq<Key> {
    match node
    case Leaf(symbol, _) => [Key(symbol, |bitCode|, bitCode)]
    case Node(_, left, right) => GenerateKeys(left, bitCode + "0") + GenerateKeys(right, bitCode + "1")
  }

  /** An entry's length field is its code's length, its code extends the path
      `bitCode`, and the extension is at most `height` steps. */
  predicate KeyBelow(key: Key, bitCode: string, height: nat) {
    key.length == |key.code| && bitCode <= key.code && |key.code| <= |bitCode| + height
  }

  /** No code is a prefix of another entry's code. */
  predicate PrefixFree(keys: seq<Key>) {
    forall i, j :: 0 <= i < |keys| && 0 <= j < |keys| && i != j ==> !(keys[i].code <= keys[j].code)
  }

  /** The table lists the leaves' symbols in order, each under a code that
      extends the path by at most the subtree's height, and over '0'/'1' when
      the path is. */
  lemma {:induction false} GenerateKeysShape(node: Tree, bitCode: string)
    ensures var keys := GenerateKeys(node, bitCode);
      && |keys| == |Leaves(node)|
      && (forall i :: 0 <= i < |keys| ==> keys[i].symbol == Leaves(node)[i].0)
      && (forall i :: 0 <= i < |keys| ==> KeyBelow(keys[i], bitCode, Height(node)))
      && (IsCode(bitCode) ==> forall i :: 0 <= i < |keys| ==> IsCode(keys[i].code))
  {
    match node
    case Leaf(_, _) =>
    case Node(_, left, right) =>
      var lb, rb := bitCode + "0", bitCode + "1";
      GenerateKeysShape(left, lb);
      GenerateKeysShape(right, rb);
      var lk, rk := GenerateKeys(left, lb), GenerateKeys(right, rb);
      var keys := GenerateKeys(node, bitCode);
      assert keys == lk + rk;
      forall i | 0 <= i < |keys|
        ensures keys[i].symbol == Leaves(node)[i].0
        ensures KeyBelow(keys[i], bitCode, Height(node))
        ensures IsCode(bitCode) ==> IsCode(keys[i].code)
      {
        var code := keys[i].code;
        if i < |lk| {
          assert keys[i] == lk[i] && KeyBelow(lk[i], lb, Height(left));
          assert code[..|lb|] == lb;
          assert code[..|bitCode|] == lb[..|bitCode|];
        } else {
          assert keys[i] == rk[i - |lk|] && KeyBelow(rk[i - |lk|], rb, Height(right));
          assert code[..|rb|] == rb;
          assert code[..|bitCode|] == rb[..|bitCode|];
        }
      }
  }

  /** The codes of a subtree's table form a prefix-free set. */
  lemma {:induction false} GenerateKeysPrefixFree(node: Tree, bitCode: string)
    ensures PrefixFree(GenerateKeys(node, bitCode))
  {
    match node
    case Leaf(_, _) =>
    case Node(_, left, right) =>
      var lb, rb := bitCode + "0", bitCode + "1";
      GenerateKeysPrefixFree(left, lb);
      GenerateKeysPrefixFree(right, rb);
      GenerateKeysShape(left, lb);
      GenerateKeysShape(right, rb);
      var lk, rk := GenerateKeys(left, lb), GenerateKeys(right, rb);
      var keys := lk + rk;
      assert GenerateKeys(node, bitCode) == keys;
      forall i, j | 0 <= i < |keys| && 0 <= j < |keys| && i != j
        ensures !(keys[i].code <= keys[j].code)
      {
        if i < |lk| && j < |lk| {
          assert keys[i] == lk[i] && keys[j] == lk[j];
        } else if i >= |lk| && j >= |lk| {
          assert keys[i] == rk[i - |lk|] && keys[j] == rk[j - |lk|];
        } else {
          var a, b := keys[i].code, keys[j].code;
          var k := |bitCode|;
          if i < |lk| {
            assert KeyBelow(lk[i], lb, Height(left)) && KeyBelow(rk[j - |lk|], rb, Height(right));
            assert a[k] == lb[k] == '0' && b[k] == rb[k] == '1';
          } else {
            assert KeyBelow(rk[i - |lk|], rb, Height(right)) && KeyBelow(lk[j], lb, Height(left));
            assert a[k] == rb[k] == '1' && b[k] == lb[k] == '0';
          }
          assert k < |a|;
        }
      }
  }

  /** A tree with n leaves is at most n - 1 levels deep. */
  lemma {:induction false} HeightBelowLeaves(t: Tree)
    ensures Height(t) < |Leaves(t)|
  {
    match t
    case Leaf(_, _) =>
    case Node(_, l, r) =>
      HeightBelowLeaves(l);
      HeightBelowLeaves(r);
  }

  /** The key: the header (the root's weight and the number of entries) and the
      code table of the whole tree, one prefix-free binary code per leaf, in order. */
  function CreateKey(tree: Tree): (key: KeyTable)
    ensures key.total == tree.weight && key.count == |key.entries| == |Leaves(tree)|
    ensures forall i :: 0 <= i < |key.entries| ==> key.entries[i].symbol == Leaves(tree)[i].0
    ensures forall i :: 0 <= i < |key.entries| ==>
      var code := key.entries[i].code;
      key.entries[i].length == |code| && IsCode(code) && |code| < |Leaves(tree)|
    ensures PrefixFree(key.entries)
  {
    var keys := GenerateKeys(tree, "");
    GenerateKeysShape(tree, "");
    GenerateKeysPrefixFree(tree, "");
    HeightBelowLeaves(tree);
    KeyTable(tree.weight, |keys|, keys)
  }
}
