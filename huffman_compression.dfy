/*
 * HuffmanCompressionUtilities: the state the codec engine keeps between
 * calls (the priority queue, the tree root, the table of codes and the
 * count of bits the last decode consumed) and the operations on it.
 */
module HuffmanCompression {
  import opened HuffmanNode
  import opened HuffmanCodes

  /** The alphabet: 7-bit characters, symbol 0 being the end-of-data marker. */
  const ALPHABET_SIZE: nat := 128

  // ---------------------------------------------------------------------
  // The leaves initializeHuffmanQueue enqueues
  // ---------------------------------------------------------------------

  /**
   * The leaves for indices `i` and up of the weight table, in the order they
   * are enqueued, ids counting up from `id`: a zero weight is enqueued only
   * when not minimizing.
   */
  function LeavesFrom(w: seq<int>, i: nat, minimize: bool, id: int): (r: seq<Tree>)
    ensures |r| <= (if i < |w| then |w| - i else 0)
    ensures !minimize ==> |r| == (if i < |w| then |w| - i else 0)
    decreases |w| - i
  {
    if i >= |w| then []
    else if w[i] == 0 then
      (if !minimize then [Leaf(i, w[i], id)] + LeavesFrom(w, i + 1, minimize, id + 1)
       else LeavesFrom(w, i + 1, minimize, id))
    else [Leaf(i, w[i], id)] + LeavesFrom(w, i + 1, minimize, id + 1)
  }

  /**
   * Unfolding helper for the enqueuing loop: once `prefix` is enqueued and
   * the leaves from index `i` are still to come, enqueuing index `i`'s leaf
   * (or skipping it) leaves the leaves from `i + 1` to come.
   */
  lemma LeavesFromAdvance(prefix: seq<Tree>, w: seq<int>, i: nat, minimize: bool, id: int, goal: seq<Tree>)
    requires i < |w| && prefix + LeavesFrom(w, i, minimize, id) == goal
    ensures w[i] == 0 && minimize ==> prefix + LeavesFrom(w, i + 1, minimize, id) == goal
    ensures !(w[i] == 0 && minimize) ==>
      (prefix + [Leaf(i, w[i], id)]) + LeavesFrom(w, i + 1, minimize, id + 1) == goal
  {
    if !(w[i] == 0 && minimize) {
      var rest := LeavesFrom(w, i + 1, minimize, id + 1);
      assert (prefix + [Leaf(i, w[i], id)]) + rest == prefix + ([Leaf(i, w[i], id)] + rest);
    }
  }

  /**
   * The leaves a build starts from: symbol 0 with weight 1, then the table's
   * indices from 1. Index 0 stands for the terminator, so there is at most
   * one leaf per table entry, and exactly one when not minimizing.
   */
  function InitialQueue(w: seq<int>, minimize: bool, id0: int): (q: seq<Tree>)
    ensures 1 <= |q| <= (if |w| > 1 then |w| else 1)
    ensures !minimize ==> |q| == (if |w| > 1 then |w| else 1)
  {
    [Leaf(0, 1, id0)] + LeavesFrom(w, 1, minimize, id0 + 1)
  }

  /** Symbol `s` gets a leaf when a build starts from weight table `w`. */
  predicate Enqueued(w: seq<int>, minimize: bool, s: int) {
    s == 0 || (1 <= s < |w| && (w[s] != 0 || !minimize))
  }

  /** The sum of the weights of indices `i` and up. */
  function SumFrom(w: seq<int>, i: nat): int
    decreases |w| - i
  {
    if i >= |w| then 0 else w[i] + SumFrom(w, i + 1)
  }

  /** The nodes of `q` are leaves whose ids count up from `id`. */
  predicate NumberedLeaves(q: seq<Tree>, id: int) {
    forall k :: 0 <= k < |q| ==> q[k].Leaf? && q[k].id == id + k
  }

  /** Every node of `q` has an index of `w` from `lo` on as symbol, and that index's weight. */
  predicate FromTable(q: seq<Tree>, w: seq<int>, lo: nat) {
    forall k :: 0 <= k < |q| ==> lo <= q[k].ord < |w| && q[k].weight == w[q[k].ord]
  }

  /** The symbols of `q` strictly increase. */
  predicate AscendingOrds(q: seq<Tree>) {
    forall j, k :: 0 <= j < k < |q| ==> q[j].ord < q[k].ord
  }

  /** Each leaf from index `i` on carries its index as symbol and that index's weight, ids counting up. */
  lemma {:induction false} LeavesFromElements(w: seq<int>, i: nat, minimize: bool, id: int)
    ensures NumberedLeaves(LeavesFrom(w, i, minimize, id), id)
    ensures FromTable(LeavesFrom(w, i, minimize, id), w, i)
    decreases |w| - i
  {
    if i < |w| {
      var kept := w[i] != 0 || !minimize;
      var next := if kept then id + 1 else id;
      LeavesFromElements(w, i + 1, minimize, next);
      var q, rest := LeavesFrom(w, i, minimize, id), LeavesFrom(w, i + 1, minimize, next);
      if kept {
        assert q == [Leaf(i, w[i], id)] + rest;
        assert forall k :: 1 <= k < |q| ==> q[k] == rest[k - 1];
      } else {
        assert q == rest;
      }
    }
  }

  /** The leaves from index `i` on come in strictly ascending symbol order. */
  lemma {:induction false} LeavesFromSorted(w: seq<int>, i: nat, minimize: bool, id: int)
    ensures AscendingOrds(LeavesFrom(w, i, minimize, id))
    decreases |w| - i
  {
    if i < |w| {
      var kept := w[i] != 0 || !minimize;
      var next := if kept then id + 1 else id;
      LeavesFromSorted(w, i + 1, minimize, next);
      LeavesFromElements(w, i + 1, minimize, next);
      var q, rest := LeavesFrom(w, i, minimize, id), LeavesFrom(w, i + 1, minimize, next);
      if !kept {
        assert q == rest;
      } else {
        assert q == [Leaf(i, w[i], id)] + rest;
        forall j, k | 0 <= j < k < |q| ensures q[j].ord < q[k].ord {
          assert q[k] == rest[k - 1];
          if j > 0 {
            assert q[j] == rest[j - 1];
          }
        }
      }
    }
  }

  /** Both of the above. */
  lemma LeavesFromShape(w: seq<int>, i: nat, minimize: bool, id: int)
    ensures NumberedLeaves(LeavesFrom(w, i, minimize, id), id)
    ensures FromTable(LeavesFrom(w, i, minimize, id), w, i)
    ensures AscendingOrds(LeavesFrom(w, i, minimize, id))
  {
    LeavesFromElements(w, i, minimize, id);
    LeavesFromSorted(w, i, minimize, id);
  }

  /** Some node of `q` has symbol `s`. */
  predicate HasOrd(q: seq<Tree>, s: int) {
    exists k :: 0 <= k < |q| && q[k].ord == s
  }

  /** A symbol occurs in two queues put together exactly when it occurs in one of them. */
  lemma HasOrdConcat(a: seq<Tree>, b: seq<Tree>, s: int)
    ensures HasOrd(a + b, s) <==> HasOrd(a, s) || HasOrd(b, s)
  {
    if HasOrd(a + b, s) {
      var k :| 0 <= k < |a + b| && (a + b)[k].ord == s;
      if k >= |a| {
        assert b[k - |a|].ord == s;
      }
    }
    if HasOrd(b, s) {
      var k :| 0 <= k < |b| && b[k].ord == s;
      assert (a + b)[|a| + k].ord == s;
    }
    if HasOrd(a, s) {
      var k :| 0 <= k < |a| && a[k].ord == s;
      assert (a + b)[k].ord == s;
    }
  }

  /** Index `s` from `i` on gets a leaf exactly when its weight is non-zero or zero weights are kept. */
  lemma {:induction false} LeavesFromMembers(w: seq<int>, i: nat, minimize: bool, id: int, s: int)
    requires i <= s < |w|
    ensures HasOrd(LeavesFrom(w, i, minimize, id), s) <==> (w[s] != 0 || !minimize)
    decreases |w| - i
  {
    var kept := w[i] != 0 || !minimize;
    var next := if kept then id + 1 else id;
    var head, rest := if kept then [Leaf(i, w[i], id)] else [], LeavesFrom(w, i + 1, minimize, next);
    assert LeavesFrom(w, i, minimize, id) == head + rest;
    HasOrdConcat(head, rest, s);
    if s == i {
      LeavesFromElements(w, i + 1, minimize, next);
      assert forall k :: 0 <= k < |rest| ==> rest[k].ord != s;
      if kept {
        assert head[0].ord == s;
      }
    } else {
      LeavesFromMembers(w, i + 1, minimize, next, s);
      assert forall k :: 0 <= k < |head| ==> head[k].ord != s;
    }
  }

  /** Leaves left out have weight zero, so the kept leaves' weights sum to the table's. */
  lemma {:induction false} LeavesFromTotal(w: seq<int>, i: nat, minimize: bool, id: int)
    ensures Total(LeavesFrom(w, i, minimize, id)) == SumFrom(w, i)
    decreases |w| - i
  {
    if i < |w| {
      LeavesFromTotal(w, i + 1, minimize, id + 1);
      LeavesFromTotal(w, i + 1, minimize, id);
      var q := LeavesFrom(w, i, minimize, id);
      if w[i] != 0 || !minimize {
        assert q[1..] == LeavesFrom(w, i + 1, minimize, id + 1);
      }
    }
  }

  /**
   * What the starting queue holds: leaf 0 with weight 1 whatever the table
   * says, then leaves for indices from 1 carrying their table weight, in
   * ascending symbol order with consecutive ids; their weights add up to 1
   * plus the table's weights from index 1.
   */
  lemma InitialQueueShape(w: seq<int>, minimize: bool, id0: int)
    ensures InitialQueue(w, minimize, id0)[0] == Leaf(0, 1, id0)
    ensures NumberedLeaves(InitialQueue(w, minimize, id0), id0)
    ensures FromTable(InitialQueue(w, minimize, id0)[1..], w, 1)
    ensures AscendingOrds(InitialQueue(w, minimize, id0))
    ensures Total(InitialQueue(w, minimize, id0)) == 1 + SumFrom(w, 1)
  {
    var q := InitialQueue(w, minimize, id0);
    var rest := LeavesFrom(w, 1, minimize, id0 + 1);
    LeavesFromShape(w, 1, minimize, id0 + 1);
    LeavesFromTotal(w, 1, minimize, id0 + 1);
    assert q[1..] == rest;
    forall k | 1 <= k < |q| ensures q[k] == rest[k - 1] && q[0].ord < q[k].ord {
    }
  }

  /**
   * Nothing else is enqueued: symbol `s` has a leaf in the starting queue
   * exactly when it is 0, or an index from 1 whose weight is non-zero or,
   * when not minimizing, zero.
   */
  lemma InitialQueueMembers(w: seq<int>, minimize: bool, id0: int, s: int)
    ensures HasOrd(InitialQueue(w, minimize, id0), s) <==> Enqueued(w, minimize, s)
  {
    var head, rest := [Leaf(0, 1, id0)], LeavesFrom(w, 1, minimize, id0 + 1);
    HasOrdConcat(head, rest, s);
    LeavesFromElements(w, 1, minimize, id0 + 1);
    if 1 <= s < |w| {
      LeavesFromMembers(w, 1, minimize, id0 + 1, s);
      assert forall k :: 0 <= k < |head| ==> head[k].ord != s;
    } else if s == 0 {
      assert head[0].ord == s;
    } else {
      assert forall k :: 0 <= k < |rest| ==> rest[k].ord != s;
    }
  }

  // ---------------------------------------------------------------------
  // A queue of trees as a whole
  // ---------------------------------------------------------------------

  /** All leaves of the trees in `q`. */
  function LeafBag(q: seq<Tree>): multiset<Tree> {
    if q == [] then multiset{} else multiset(Leaves(q[0])) + LeafBag(q[1..])
  }

  /** The leaves and the weight total of two queues put together are those of each added up. */
  lemma {:induction false} LeafBagConcat(a: seq<Tree>, b: seq<Tree>)
    ensures LeafBag(a + b) == LeafBag(a) + LeafBag(b)
    ensures Total(a + b) == Total(a) + Total(b)
  {
    if a != [] {
      assert (a + b)[1..] == a[1..] + b;
      LeafBagConcat(a[1..], b);
    } else {
      assert a + b == b;
    }
  }

  /** Unfolding helper: a queue of one node holds that node's leaves. */
  lemma LeafBagOfOne(t: Tree)
    ensures LeafBag([t]) == multiset(Leaves(t)) && Total([t]) == LeafTotal(t)
  {
    assert [t][1..] == [];
  }

  lemma LeafBagAppend(q: seq<Tree>, t: Tree)
    ensures LeafBag(q + [t]) == LeafBag(q) + multiset(Leaves(t))
    ensures Total(q + [t]) == Total(q) + LeafTotal(t)
    ensures t.Node? ==>
      LeafBag(q + [t]) == LeafBag(q) + multiset(Leaves(t.left)) + multiset(Leaves(t.right)) &&
      Total(q + [t]) == Total(q) + LeafTotal(t.left) + LeafTotal(t.right)
  {
    LeafBagConcat(q, [t]);
    assert [t][1..] == [];
  }

  lemma LeafBagRemove(q: seq<Tree>, k: nat)
    requires k < |q|
    ensures LeafBag(q) == LeafBag(q[..k] + q[k + 1..]) + multiset(Leaves(q[k]))
    ensures Total(q) == Total(q[..k] + q[k + 1..]) + LeafTotal(q[k])
  {
    var pre, post := q[..k], q[k + 1..];
    var tail := q[k..];
    assert q == pre + tail;
    assert tail[0] == q[k] && tail[1..] == post;
    LeafBagConcat(pre, tail);
    LeafBagConcat(pre, post);
  }

  lemma {:induction false} LeafBagOfLeaves(q: seq<Tree>)
    requires forall k :: 0 <= k < |q| ==> q[k].Leaf?
    ensures LeafBag(q) == multiset(q)
  {
    if q != [] {
      LeafBagOfLeaves(q[1..]);
      assert q == [q[0]] + q[1..];
    }
  }

  /** Two occurrences of a value in `a` give it a multiplicity of at least two. */
  lemma TwiceInSeq(a: seq<Tree>, i: nat, j: nat)
    requires i < j < |a| && a[i] == a[j]
    ensures multiset(a)[a[i]] >= 2
  {
    assert a == a[..j] + [a[j]] + a[j + 1..];
    assert a[i] in a[..j];
  }

  /** In leaves with strictly increasing symbols, every leaf occurs once. */
  lemma OnceInSeq(b: seq<Tree>, p: nat)
    requires AscendingOrds(b)
    requires p < |b|
    ensures multiset(b)[b[p]] == 1
  {
    assert b == b[..p] + [b[p]] + b[p + 1..];
    assert b[p] !in b[..p] && b[p] !in b[p + 1..];
  }

  /** A rearrangement of leaves with strictly increasing symbols repeats no leaf. */
  lemma NoRepeats(a: seq<Tree>, b: seq<Tree>, i: nat, j: nat)
    requires multiset(a) == multiset(b)
    requires AscendingOrds(b)
    requires i < j < |a|
    ensures a[i] != a[j]
  {
    assert a[i] in multiset(b);
    var p :| 0 <= p < |b| && b[p] == a[i];
    OnceInSeq(b, p);
    if a[i] == a[j] {
      TwiceInSeq(a, i, j);
    }
  }

  /** A rearrangement of leaves with distinct symbols has distinct symbols. */
  lemma PermutationKeepsDistinctOrds(a: seq<Tree>, b: seq<Tree>)
    requires multiset(a) == multiset(b)
    requires AscendingOrds(b)
    ensures forall i, j :: 0 <= i < j < |a| ==> a[i].ord != a[j].ord
  {
    forall i, j | 0 <= i < j < |a| ensures a[i].ord != a[j].ord {
      NoRepeats(a, b, i, j);
      assert a[i] in multiset(b) && a[j] in multiset(b);
      var p :| 0 <= p < |b| && b[p] == a[i];
      var r :| 0 <= r < |b| && b[r] == a[j];
      assert p != r;
    }
  }

  /**
   * The tree a build from weight table `w` ends with holds the starting
   * leaves rearranged, so its symbols are distinct and come from the table.
   */
  lemma BuiltTreeDistinct(root: Tree, w: seq<int>, minimize: bool, id0: int)
    requires multiset(Leaves(root)) == multiset(InitialQueue(w, minimize, id0))
    ensures DistinctOrds(root)
    ensures forall x :: x in Leaves(root) ==> x.ord == 0 || 1 <= x.ord < |w|
  {
    var q := InitialQueue(w, minimize, id0);
    InitialQueueShape(w, minimize, id0);
    PermutedLeaves(Leaves(root), q, w);
  }

  /**
   * A rearrangement of a queue of leaves like the starting one (symbol 0
   * first, then table indices in increasing order) has distinct symbols
   * taken from the table.
   */
  lemma PermutedLeaves(a: seq<Tree>, q: seq<Tree>, w: seq<int>)
    requires multiset(a) == multiset(q) && AscendingOrds(q)
    requires q != [] && q[0].ord == 0 && FromTable(q[1..], w, 1)
    ensures forall i, j :: 0 <= i < j < |a| ==> a[i].ord != a[j].ord
    ensures forall x :: x in a ==> x.ord == 0 || 1 <= x.ord < |w|
  {
    PermutationKeepsDistinctOrds(a, q);
    forall x | x in a ensures x.ord == 0 || 1 <= x.ord < |w| {
      assert x in multiset(q);
      var k :| 0 <= k < |q| && q[k] == x;
      if k > 0 {
        assert q[1..][k - 1] == x;
      }
    }
  }

  /** In that tree a symbol has a code exactly when the build enqueued it. */
  lemma BuiltTreeCodes(root: Tree, w: seq<int>, minimize: bool, id0: int, s: int)
    requires multiset(Leaves(root)) == multiset(InitialQueue(w, minimize, id0))
    ensures CodeOf(root, s).Some? <==> Enqueued(w, minimize, s)
  {
    var q := InitialQueue(w, minimize, id0);
    InitialQueueMembers(w, minimize, id0, s);
    CodeExistsIffLeaf(root, s);
    if CodeOf(root, s).Some? {
      var x :| x in Leaves(root) && x.ord == s;
      assert x in multiset(q);
    }
    if Enqueued(w, minimize, s) {
      var k :| 0 <= k < |q| && q[k].ord == s;
      assert q[k] in multiset(Leaves(root));
    }
  }

  /**
   * Every queued node was built by the merge rule, and the nodes' creation
   * ids are distinct and below the counter's next id.
   */
  predicate QueueInvariant(q: seq<Tree>, nodeCount: int, mergedOrd: (Tree, Tree) -> int) {
    q == [] ||
    (WellFormed(q[0], mergedOrd) && q[0].id < nodeCount &&
     (forall j :: 1 <= j < |q| ==> q[j].id != q[0].id) &&
     QueueInvariant(q[1..], nodeCount, mergedOrd))
  }

  /** The queue invariant, position by position. */
  lemma {:induction false} QueueInvariantAt(q: seq<Tree>, nodeCount: int, mergedOrd: (Tree, Tree) -> int)
    ensures QueueInvariant(q, nodeCount, mergedOrd) <==>
      (forall i :: 0 <= i < |q| ==> WellFormed(q[i], mergedOrd) && q[i].id < nodeCount) &&
      (forall i, j :: 0 <= i < j < |q| ==> q[i].id != q[j].id)
  {
    if q != [] {
      QueueInvariantAt(q[1..], nodeCount, mergedOrd);
      assert forall i :: 1 <= i < |q| ==> q[i] == q[1..][i - 1];
    }
  }

  lemma RemoveKeepsInvariant(q: seq<Tree>, k: nat, nodeCount: int, mergedOrd: (Tree, Tree) -> int)
    requires QueueInvariant(q, nodeCount, mergedOrd) && k < |q|
    ensures QueueInvariant(q[..k] + q[k + 1..], nodeCount, mergedOrd)
  {
    var r := q[..k] + q[k + 1..];
    assert forall i :: 0 <= i < |r| ==> r[i] == q[if i < k then i else i + 1];
    QueueInvariantAt(q, nodeCount, mergedOrd);
    QueueInvariantAt(r, nodeCount, mergedOrd);
  }

  /** Enqueuing the node made from two queued nodes, the first-handed-out on the left, keeps the invariant. */
  lemma AppendKeepsInvariant(q: seq<Tree>, node: Tree, nodeCount: int, mergedOrd: (Tree, Tree) -> int)
    requires QueueInvariant(q, nodeCount, mergedOrd)
    requires WellFormed(node, mergedOrd) && node.id == nodeCount
    ensures QueueInvariant(q + [node], nodeCount + 1, mergedOrd)
  {
    var r := q + [node];
    QueueInvariantAt(q, nodeCount, mergedOrd);
    QueueInvariantAt(r, nodeCount + 1, mergedOrd);
  }

  /**
   * One round of the merge loop keeps the queue's leaves and their weight
   * total: taking out `q[kl]`, then `mid[kr]`, and enqueuing a parent of the two.
   */
  lemma MergeKeepsLeaves(q: seq<Tree>, mid: seq<Tree>, rest: seq<Tree>, kl: nat, kr: nat, node: Tree)
    requires kl < |q| && mid == q[..kl] + q[kl + 1..]
    requires kr < |mid| && rest == mid[..kr] + mid[kr + 1..]
    requires node.Node? && node.left == q[kl] && node.right == mid[kr]
    ensures LeafBag(rest + [node]) == LeafBag(q) && Total(rest + [node]) == Total(q)
  {
    LeafBagRemove(q, kl);
    LeafBagRemove(mid, kr);
    LeafBagAppend(rest, node);
    var a, l, r := LeafBag(rest), multiset(Leaves(node.left)), multiset(Leaves(node.right));
    assert LeafBag(q) == (a + r) + l;
  }

  /**
   * `root` is a tree a build from weight table `w` can end with: built by
   * the merge rule from exactly the starting leaves, so its symbols are
   * distinct, a symbol has a code exactly when it was enqueued, and its
   * weight is the Java int sum of the starting weights.
   */
  ghost predicate BuiltFrom(root: Tree, w: seq<int>, minimize: bool, id0: int, mergedOrd: (Tree, Tree) -> int) {
    WellFormed(root, mergedOrd) &&
    multiset(Leaves(root)) == LeafBag(InitialQueue(w, minimize, id0)) &&
    DistinctOrds(root) &&
    (forall x :: x in Leaves(root) ==> x.ord == 0 || 1 <= x.ord < |w|) &&
    (forall s :: CodeOf(root, s).Some? <==> Enqueued(w, minimize, s)) &&
    root.weight == Wrap32(1 + SumFrom(w, 1))
  }

  /** The last node left when merging the starting leaves is such a tree. */
  lemma LastNode(last: Tree, w: seq<int>, minimize: bool, id0: int, mergedOrd: (Tree, Tree) -> int)
    requires WellFormed(last, mergedOrd)
    requires multiset(Leaves(last)) == LeafBag(InitialQueue(w, minimize, id0))
    requires last.weight == Wrap32(Total(InitialQueue(w, minimize, id0)))
    ensures BuiltFrom(last, w, minimize, id0, mergedOrd)
  {
    var q0 := InitialQueue(w, minimize, id0);
    InitialQueueShape(w, minimize, id0);
    LeafBagOfLeaves(q0);
    BuiltTreeDistinct(last, w, minimize, id0);
    forall s ensures CodeOf(last, s).Some? <==> Enqueued(w, minimize, s) {
      BuiltTreeCodes(last, w, minimize, id0, s);
    }
  }

  // ---------------------------------------------------------------------
  // The priority queue's remove()
  // ---------------------------------------------------------------------

  /** The position of the node the priority queue hands out first. */
  method MinIndex(q: seq<Tree>) returns (k: nat)
    requires q != []
    ensures k < |q|
    ensures forall j :: 0 <= j < |q| ==> Precedes(q[k], q[j])
    ensures k == MinPos(q)
  {
    k := 0;
    var i := 1;
    while i < |q|
      invariant 1 <= i <= |q| && k < i
      invariant forall j :: 0 <= j < i ==> Precedes(q[k], q[j])
      invariant k == MinPos(q[..i])
    {
      assert q[..i + 1][..i] == q[..i];
      if Compare(q[i], q[k]) < 0 {
        k := i;
      }
      i := i + 1;
    }
    assert q[..i] == q;
  }

  /** With distinct creation ids, only one node can come first: the order is deterministic. */
  lemma MinimumIsUnique(q: seq<Tree>, a: nat, b: nat)
    requires forall i, j :: 0 <= i < j < |q| ==> q[i].id != q[j].id
    requires a < |q| && b < |q|
    requires forall j :: 0 <= j < |q| ==> Precedes(q[a], q[j])
    requires forall j :: 0 <= j < |q| ==> Precedes(q[b], q[j])
    ensures a == b
  {
    if a != b {
      ComparatorIsTotalOrder(q[a], q[b], q[b]);
    }
  }

  /**
   * The position remove() hands out first, as a scan from the front finds
   * it: a later node replaces the candidate only when it compares below it.
   * With distinct ids no other position qualifies (MinimumIsUnique).
   */
  function MinPos(q: seq<Tree>): (k: nat)
    requires q != []
    ensures k < |q|
    ensures forall j :: 0 <= j < |q| ==> Precedes(q[k], q[j])
  {
    if |q| == 1 then 0
    else
      var k := MinPos(q[..|q| - 1]);
      if Compare(q[|q| - 1], q[k]) < 0 then |q| - 1 else k
  }

  // ---------------------------------------------------------------------
  // The greedy merge buildHuffmanTree performs
  // ---------------------------------------------------------------------

  /** Queue `q` once remove() took out position `k`; the others keep their order. */
  function Removed(q: seq<Tree>, k: nat): (r: seq<Tree>)
    requires k < |q|
    ensures |r| == |q| - 1
  {
    q[..k] + q[k + 1..]
  }

  /** `new HuffmanTreeNode(left.getWeight() + right.getWeight(), left, right)` with creation id `id`. */
  function Parent(left: Tree, right: Tree, id: int, mergedOrd: (Tree, Tree) -> int): (p: Tree)
    ensures p.Node? && p.id == id && IsInt32(p.weight)
    ensures Leaves(p) == Leaves(left) + Leaves(right)
    ensures LeafTotal(p) == LeafTotal(left) + LeafTotal(right)
  {
    Node(mergedOrd(left, right), Wrap32(left.weight + right.weight), id, left, right)
  }

  /**
   * One pass of the merge loop on queue `q`: the first node remove() hands
   * out becomes the left child, the next one the right child, and their
   * parent, created with id `id`, joins the queue.
   */
  function Step(q: seq<Tree>, id: int, mergedOrd: (Tree, Tree) -> int): (r: seq<Tree>)
    requires |q| >= 2
    ensures |r| == |q| - 1
    ensures r[|r| - 1].Node? && r[|r| - 1].id == id && r[|r| - 1].left == q[MinPos(q)]
  {
    var kl := MinPos(q);
    var mid := Removed(q, kl);
    var kr := MinPos(mid);
    Removed(mid, kr) + [Parent(q[kl], mid[kr], id, mergedOrd)]
  }

  /**
   * Unfolding helper: one pass is the removal of the first-handed-out node,
   * then of the next one, and the enqueuing of their parent.
   */
  lemma StepIs(q: seq<Tree>, id: int, mergedOrd: (Tree, Tree) -> int, kl: nat, mid: seq<Tree>, kr: nat)
    requires |q| >= 2 && kl == MinPos(q) && mid == Removed(q, kl) && kr == MinPos(mid)
    ensures Step(q, id, mergedOrd) == Removed(mid, kr) + [Parent(q[kl], mid[kr], id, mergedOrd)]
  {
  }

  /**
   * The node the merge loop leaves over, starting from queue `q` with next
   * creation id `id`. A lone node is never merged; otherwise the result is
   * the internal node created last, by the |q| - 1st pass.
   */
  function Merge(q: seq<Tree>, id: int, mergedOrd: (Tree, Tree) -> int): (r: Tree)
    requires q != []
    ensures |q| > 1 ==> r.Node? && r.id == id + |q| - 2
    decreases |q|
  {
    if |q| == 1 then q[0] else Merge(Step(q, id, mergedOrd), id + 1, mergedOrd)
  }

  /** Unfolding helper: merging a queue of two or more nodes is merging what one pass leaves. */
  lemma MergeUnfold(q: seq<Tree>, id: int, mergedOrd: (Tree, Tree) -> int)
    requires |q| >= 2
    ensures Merge(q, id, mergedOrd) == Merge(Step(q, id, mergedOrd), id + 1, mergedOrd)
  {
  }

  /**
   * The tree buildHuffmanTree builds from weight table `w` when the next
   * creation id is `id0`: the starting leaves take ids from `id0` on, and
   * the merged nodes the ids after them.
   */
  function HuffmanTree(w: seq<int>, minimize: bool, id0: int, mergedOrd: (Tree, Tree) -> int): (t: Tree)
    ensures |InitialQueue(w, minimize, id0)| == 1 ==> t == Leaf(0, 1, id0)
    ensures |InitialQueue(w, minimize, id0)| > 1 ==>
      t.Node? && t.id == id0 + 2 * |InitialQueue(w, minimize, id0)| - 2
  {
    var q0 := InitialQueue(w, minimize, id0);
    Merge(q0, id0 + |q0|, mergedOrd)
  }

  /**
   * Unfolding helper: merging the starting leaves, with the counter past
   * their ids, gives the tree buildHuffmanTree builds, and one id per leaf
   * and per merge is used up.
   */
  lemma GrownTree(w: seq<int>, minimize: bool, id0: int, mergedOrd: (Tree, Tree) -> int,
                  q0: seq<Tree>, id: int, t: Tree, n: int)
    requires q0 == InitialQueue(w, minimize, id0) && id == id0 + |q0| && n == id + |q0| - 1
    requires t == Merge(q0, id, mergedOrd)
    ensures t == HuffmanTree(w, minimize, id0, mergedOrd)
    ensures n == id0 + 2 * |InitialQueue(w, minimize, id0)| - 1
  {
  }

  /** One pass keeps the queue's leaves and their weight total. */
  lemma StepKeepsLeaves(q: seq<Tree>, id: int, mergedOrd: (Tree, Tree) -> int)
    requires |q| >= 2
    ensures LeafBag(Step(q, id, mergedOrd)) == LeafBag(q)
    ensures Total(Step(q, id, mergedOrd)) == Total(q)
  {
    var kl := MinPos(q);
    var mid := Removed(q, kl);
    var kr := MinPos(mid);
    var node := Parent(q[kl], mid[kr], id, mergedOrd);
    assert Step(q, id, mergedOrd) == Removed(mid, kr) + [node];
    MergeKeepsLeaves(q, mid, Removed(mid, kr), kl, kr, node);
  }

  /** One pass keeps the queue invariant, the counter moving past the new parent's id. */
  lemma StepKeepsInvariant(q: seq<Tree>, id: int, mergedOrd: (Tree, Tree) -> int)
    requires |q| >= 2 && QueueInvariant(q, id, mergedOrd)
    ensures QueueInvariant(Step(q, id, mergedOrd), id + 1, mergedOrd)
  {
    var kl := MinPos(q);
    var mid := Removed(q, kl);
    var kr := MinPos(mid);
    var left, right := q[kl], mid[kr];
    QueueInvariantAt(q, id, mergedOrd);
    RemoveKeepsInvariant(q, kl, id, mergedOrd);
    QueueInvariantAt(mid, id, mergedOrd);
    RemoveKeepsInvariant(mid, kr, id, mergedOrd);
    assert Precedes(left, right) by {
      assert right == q[if kr < kl then kr else kr + 1];
    }
    AppendKeepsInvariant(Removed(mid, kr), Parent(left, right, id, mergedOrd), id, mergedOrd);
  }

  /** The greedy merge keeps exactly the queue's leaves and their weight total. */
  lemma {:induction false} MergeKeepsLeafBag(q: seq<Tree>, id: int, mergedOrd: (Tree, Tree) -> int)
    requires q != []
    ensures multiset(Leaves(Merge(q, id, mergedOrd))) == LeafBag(q)
    ensures LeafTotal(Merge(q, id, mergedOrd)) == Total(q)
    decreases |q|
  {
    if |q| == 1 {
      assert q == [q[0]];
      LeafBagOfOne(q[0]);
    } else {
      StepKeepsLeaves(q, id, mergedOrd);
      MergeKeepsLeafBag(Step(q, id, mergedOrd), id + 1, mergedOrd);
    }
  }

  /** From a queue that keeps its invariant, the greedy merge builds a tree by the merge rule. */
  lemma {:induction false} MergeWellFormed(q: seq<Tree>, id: int, mergedOrd: (Tree, Tree) -> int)
    requires q != [] && QueueInvariant(q, id, mergedOrd)
    ensures WellFormed(Merge(q, id, mergedOrd), mergedOrd)
    decreases |q|
  {
    if |q| >= 2 {
      StepKeepsInvariant(q, id, mergedOrd);
      MergeWellFormed(Step(q, id, mergedOrd), id + 1, mergedOrd);
    }
  }

  /**
   * From a queue that keeps its invariant, the greedy merge builds a tree
   * by the merge rule holding exactly the queue's leaves, whose weight is
   * the Java int sum of theirs.
   */
  lemma MergedTree(q: seq<Tree>, id: int, mergedOrd: (Tree, Tree) -> int)
    requires q != [] && QueueInvariant(q, id, mergedOrd)
    ensures WellFormed(Merge(q, id, mergedOrd), mergedOrd)
    ensures multiset(Leaves(Merge(q, id, mergedOrd))) == LeafBag(q)
    ensures Merge(q, id, mergedOrd).weight == Wrap32(Total(q))
  {
    MergeWellFormed(q, id, mergedOrd);
    MergeKeepsLeafBag(q, id, mergedOrd);
    WeightConserved(Merge(q, id, mergedOrd), mergedOrd);
  }

  /**
   * The tree a queue merges down to, named `t`: the merge rule's tree over
   * exactly the queue's leaves, the lone node itself when there is one and
   * an internal node otherwise.
   */
  lemma MergedRoot(q: seq<Tree>, id: int, mergedOrd: (Tree, Tree) -> int, t: Tree)
    requires q != [] && QueueInvariant(q, id, mergedOrd) && t == Merge(q, id, mergedOrd)
    ensures WellFormed(t, mergedOrd)
    ensures multiset(Leaves(t)) == LeafBag(q)
    ensures t.weight == Wrap32(Total(q))
    ensures |q| == 1 ==> t == q[0]
    ensures |q| > 1 ==> t.Node?
  {
    MergedTree(q, id, mergedOrd);
  }

  /** A queue that one pass turned into `next` merges down to the same tree as before. */
  lemma MergeAfterStep(q: seq<Tree>, id: int, mergedOrd: (Tree, Tree) -> int, next: seq<Tree>, t: Tree)
    requires |q| >= 2 && next == Step(q, id, mergedOrd) && t == Merge(q, id, mergedOrd)
    ensures t == Merge(next, id + 1, mergedOrd)
  {
    MergeUnfold(q, id, mergedOrd);
  }

  /** The starting leaves with Java int weights, counter past their ids, meet the queue invariant. */
  lemma InitialQueueValid(w: seq<int>, minimize: bool, id0: int, mergedOrd: (Tree, Tree) -> int)
    requires forall i :: 0 <= i < |w| ==> IsInt32(w[i])
    ensures QueueInvariant(InitialQueue(w, minimize, id0), id0 + |InitialQueue(w, minimize, id0)|, mergedOrd)
  {
    var q0 := InitialQueue(w, minimize, id0);
    InitialQueueShape(w, minimize, id0);
    assert forall k :: 1 <= k < |q0| ==> q0[k] == q0[1..][k - 1];
    QueueInvariantAt(q0, id0 + |q0|, mergedOrd);
  }

  /**
   * The tree buildHuffmanTree builds holds exactly the enqueued leaves:
   * distinct symbols, a code for exactly the enqueued symbols, and the
   * Java int sum of the starting weights at its root.
   */
  lemma HuffmanTreeIsBuiltFrom(w: seq<int>, minimize: bool, id0: int, mergedOrd: (Tree, Tree) -> int)
    requires forall i :: 0 <= i < |w| ==> IsInt32(w[i])
    ensures BuiltFrom(HuffmanTree(w, minimize, id0, mergedOrd), w, minimize, id0, mergedOrd)
  {
    var q0 := InitialQueue(w, minimize, id0);
    var t := Merge(q0, id0 + |q0|, mergedOrd);
    assert HuffmanTree(w, minimize, id0, mergedOrd) == t;
    assert q0 != [] by {
      assert q0[0] == Leaf(0, 1, id0);
    }
    InitialQueueValid(w, minimize, id0, mergedOrd);
    MergedTree(q0, id0 + |q0|, mergedOrd);
    LastNode(t, w, minimize, id0, mergedOrd);
  }

  // ---------------------------------------------------------------------
  // The engine
  // ---------------------------------------------------------------------

  /** `new String[128]`: a code table with no code in it. */
  method NewCodeTable() returns (table: array<Option<seq<char>>>)
    ensures fresh(table) && table.Length == ALPHABET_SIZE
    ensures forall k :: 0 <= k < table.Length ==> table[k] == None
  {
    table := new Option<seq<char>>[ALPHABET_SIZE](_ => None);
  }

  class HuffmanCompressionUtilities {
    /** The priority queue of nodes, as a sequence; remove() takes its minimum. */
    var queue: seq<Tree>
    /** The root of the last tree built, or None (null) before any build. */
    var root: Option<Tree>
    /** Symbol to code; null before the first build, then 128 slots. */
    var encodeMap: array?<Option<seq<char>>>
    /** The weight table given to setWeights (the same array, not a copy). */
    var weights: array?<int>
    /** How many bits the last decode consumed. */
    var numCharsDecoded: int
    /** HuffmanTreeNode's creation counter: the id the next node gets. */
    var nodeCount: int
    /** The ordinal value HuffmanTreeNode gives an internal node made from two children. */
    const mergedOrd: (Tree, Tree) -> int

    ghost predicate Valid()
      reads this
    {
      QueueInvariant(queue, nodeCount, mergedOrd)
    }

    constructor (mergedOrd: (Tree, Tree) -> int)
      ensures Valid()
      ensures queue == [] && root == None && encodeMap == null && weights == null
      ensures numCharsDecoded == 0 && nodeCount == 0 && this.mergedOrd == mergedOrd
    {
      queue := [];
      root := None;
      encodeMap := null;
      weights := null;
      numCharsDecoded := 0;
      nodeCount := 0;
      this.mergedOrd := mergedOrd;
    }

    method GetTreeRoot() returns (r: Option<Tree>)
      ensures r == root
    {
      r := root;
    }

    method GetEncodeMap() returns (m: array?<Option<seq<char>>>)
      ensures m == encodeMap
    {
      m := encodeMap;
    }

    method SetWeights(weights: array?<int>)
      modifies this`weights
      ensures this.weights == weights
    {
      this.weights := weights;
    }

    method GetNumCharsDecoded() returns (n: int)
      ensures n == numCharsDecoded
    {
      n := numCharsDecoded;
    }

    method SetNumCharsDecoded(numCharsDecoded: int)
      modifies this`numCharsDecoded
      ensures this.numCharsDecoded == numCharsDecoded
    {
      this.numCharsDecoded := numCharsDecoded;
    }

    /**
     * Enqueues leaf 0 with weight 1, then a leaf for each further index of
     * the weight table whose weight is non-zero, or zero and not minimizing.
     */
    method InitializeHuffmanQueue(minimize: bool)
      requires Valid()
      requires weights != null && forall i :: 0 <= i < weights.Length ==> IsInt32(weights[i])
      modifies this`queue, this`nodeCount
      ensures Valid()
      ensures queue == old(queue) + InitialQueue(weights[..], minimize, old(nodeCount))
      ensures nodeCount == old(nodeCount) + |queue| - |old(queue)|
    {
      ghost var w := weights[..];
      ghost var goal := old(queue) + InitialQueue(w, minimize, old(nodeCount));
      EnqueueLeaf(0, 1);
      var i := 1;
      while i < weights.Length
        invariant 1 <= i && (i <= weights.Length || weights.Length == 0)
        invariant queue + LeavesFrom(w, i, minimize, nodeCount) == goal
        invariant nodeCount - old(nodeCount) == |queue| - |old(queue)|
        invariant Valid()
      {
        LeavesFromAdvance(queue, w, i, minimize, nodeCount, goal);
        if weights[i] == 0 {
          if !minimize {
            EnqueueLeaf(i, weights[i]);
          }
        } else {
          EnqueueLeaf(i, weights[i]);
        }
        i := i + 1;
      }
    }

    /** queue.add(new HuffmanTreeNode(ord, weight)): enqueues a leaf with the next creation id. */
    method EnqueueLeaf(ord: int, weight: int)
      requires Valid() && IsInt32(weight)
      modifies this`queue, this`nodeCount
      ensures Valid()
      ensures queue == old(queue) + [Leaf(ord, weight, old(nodeCount))]
      ensures nodeCount == old(nodeCount) + 1
    {
      var leaf := Leaf(ord, weight, nodeCount);
      AppendKeepsInvariant(queue, leaf, nodeCount, mergedOrd);
      nodeCount := nodeCount + 1;
      queue := queue + [leaf];
    }

    /** queue.remove(): takes out the node the comparator puts first. */
    method RemoveHead() returns (head: Tree, ghost k: nat)
      requires Valid() && queue != []
      modifies this`queue
      ensures Valid()
      ensures k == MinPos(old(queue)) && head == old(queue)[k]
      ensures queue == Removed(old(queue), k)
      ensures forall j :: 0 <= j < |old(queue)| ==> Precedes(head, old(queue)[j])
      ensures forall x :: x in queue ==> Precedes(head, x)
      ensures WellFormed(head, mergedOrd) && head.id < nodeCount
    {
      var m := MinIndex(queue);
      RemoveKeepsInvariant(queue, m, nodeCount, mergedOrd);
      QueueInvariantAt(queue, nodeCount, mergedOrd);
      head, k := queue[m], m;
      queue := queue[..m] + queue[m + 1..];
    }

    /**
     * queue.add(new HuffmanTreeNode(left.getWeight() + right.getWeight(), left, right)):
     * enqueues the parent of two nodes the queue handed out, the first as
     * left child, with the next creation id.
     */
    method EnqueueParent(left: Tree, right: Tree)
      requires Valid()
      requires WellFormed(left, mergedOrd) && WellFormed(right, mergedOrd)
      requires left.id < nodeCount && right.id < nodeCount && Precedes(left, right)
      modifies this`queue, this`nodeCount
      ensures Valid()
      ensures queue == old(queue) + [Parent(left, right, old(nodeCount), mergedOrd)]
      ensures nodeCount == old(nodeCount) + 1
    {
      var node := Parent(left, right, nodeCount, mergedOrd);
      AppendKeepsInvariant(queue, node, nodeCount, mergedOrd);
      nodeCount := nodeCount + 1;
      queue := queue + [node];
    }

    /**
     * Discards the previous tree and code table, enqueues the starting
     * leaves and merges the queue down to one node, which becomes the root.
     * The root holds exactly the leaves that were queued and its weight is
     * their Java int sum; starting from an empty queue, its symbols are
     * distinct and a symbol has a code exactly when it was enqueued.
     */
    method BuildHuffmanTree(minimize: bool)
      requires Valid() && queue == []
      requires weights != null && forall i :: 0 <= i < weights.Length ==> IsInt32(weights[i])
      modifies this
      ensures Valid() && queue == []
      ensures weights == old(weights) && numCharsDecoded == old(numCharsDecoded)
      ensures fresh(encodeMap) && encodeMap.Length == ALPHABET_SIZE
      ensures forall k :: 0 <= k < encodeMap.Length ==> encodeMap[k] == None
      ensures root.Some?
      ensures root.value == HuffmanTree(old(weights[..]), minimize, old(nodeCount), mergedOrd)
      ensures BuiltFrom(root.value, old(weights[..]), minimize, old(nodeCount), mergedOrd)
      ensures |InitialQueue(old(weights[..]), minimize, old(nodeCount))| == 1 ==>
        root.value == Leaf(0, 1, old(nodeCount))
      ensures |InitialQueue(old(weights[..]), minimize, old(nodeCount))| > 1 ==>
        root.value.Node? && root.value.id == nodeCount - 1
      ensures nodeCount == old(nodeCount) + 2 * |InitialQueue(old(weights[..]), minimize, old(nodeCount))| - 1
    {
      root := None;
      encodeMap := NewCodeTable();
      GrowTree(minimize);
      HuffmanTreeIsBuiltFrom(weights[..], minimize, old(nodeCount), mergedOrd);
    }

    /** Steps 3 and 4 of buildHuffmanTree: enqueue the starting leaves and merge them down to the root. */
    method GrowTree(minimize: bool)
      requires Valid() && queue == []
      requires weights != null && forall i :: 0 <= i < weights.Length ==> IsInt32(weights[i])
      modifies this`queue, this`nodeCount, this`root
      ensures Valid() && queue == [] && root.Some?
      ensures root.value == HuffmanTree(weights[..], minimize, old(nodeCount), mergedOrd)
      ensures nodeCount == old(nodeCount) + 2 * |InitialQueue(weights[..], minimize, old(nodeCount))| - 1
    {
      InitializeHuffmanQueue(minimize);
      MergeLeaves(weights[..], minimize, old(nodeCount));
    }

    /** Step 4 of buildHuffmanTree, started from the leaves step 3 enqueued. */
    method MergeLeaves(ghost w: seq<int>, ghost minimize: bool, ghost id0: int)
      requires Valid() && queue == InitialQueue(w, minimize, id0) && nodeCount == id0 + |queue|
      modifies this`queue, this`nodeCount, this`root
      ensures Valid() && queue == [] && root.Some?
      ensures root.value == HuffmanTree(w, minimize, id0, mergedOrd)
      ensures nodeCount == id0 + 2 * |InitialQueue(w, minimize, id0)| - 1
    {
      ghost var q0 := queue;
      MergeQueue();
      GrownTree(w, minimize, id0, mergedOrd, q0, old(nodeCount), root.value, nodeCount);
    }

    /**
     * One pass of buildHuffmanTree's loop: takes out the first node; if it
     * was the last, it becomes the root and the pass reports the build done;
     * otherwise takes out the next one and enqueues their parent.
     */
    method MergeRound() returns (done: bool)
      requires Valid() && queue != []
      modifies this`queue, this`nodeCount, this`root
      ensures Valid()
      ensures done <==> |old(queue)| == 1
      ensures done ==> queue == [] && root == Some(old(queue)[0]) && nodeCount == old(nodeCount)
      ensures done ==> WellFormed(root.value, mergedOrd)
      ensures !done ==>
        |queue| == |old(queue)| - 1 && queue[|queue| - 1].Node? &&
        nodeCount == old(nodeCount) + 1 && root == old(root)
      ensures !done ==> LeafBag(queue) == LeafBag(old(queue)) && Total(queue) == Total(old(queue))
      ensures !done ==> queue == Step(old(queue), old(nodeCount), mergedOrd)
    {
      var left, kl := RemoveHead();
      if queue == [] {
        root := Some(left);
        return true;
      }
      ghost var middle := queue;
      var right, kr := RemoveHead();
      ghost var next := Step(old(queue), nodeCount, mergedOrd);
      StepIs(old(queue), nodeCount, mergedOrd, kl, middle, kr);
      StepKeepsLeaves(old(queue), nodeCount, mergedOrd);
      EnqueueParent(left, right);
      assert queue == next;
      return false;
    }

    /**
     * The loop of buildHuffmanTree: merges the queue down to one node,
     * which becomes the root.
     */
    method MergeQueue()
      requires Valid() && queue != []
      modifies this`queue, this`nodeCount, this`root
      ensures Valid() && queue == [] && root.Some? && WellFormed(root.value, mergedOrd)
      ensures multiset(Leaves(root.value)) == LeafBag(old(queue))
      ensures root.value.weight == Wrap32(Total(old(queue)))
      ensures |old(queue)| == 1 ==> root.value == old(queue)[0]
      ensures |old(queue)| > 1 ==> root.value.Node?
      ensures nodeCount == old(nodeCount) + |old(queue)| - 1
      ensures root.value == Merge(old(queue), old(nodeCount), mergedOrd)
    {
      ghost var q0, n0 := queue, nodeCount;
      ghost var t := Merge(q0, n0, mergedOrd);
      MergedRoot(q0, n0, mergedOrd, t);
      ghost var merges: nat := 0;
      while queue != []
        invariant Valid() && queue != []
        invariant |queue| + merges == |q0| && nodeCount == n0 + merges
        invariant Merge(queue, nodeCount, mergedOrd) == t
        decreases |queue|
      {
        ghost var before, id := queue, nodeCount;
        var done := MergeRound();
        if done {
          MergedRoot(before, id, mergedOrd, t);
          return;
        }
        MergeAfterStep(before, id, mergedOrd, queue, t);
        merges := merges + 1;
      }
      // the loop ends only through the return above, as the Java loop does once the root is set
      assert false;
    }

    /**
     * Writes, for every leaf below `node`, `code` followed by the path to
     * that leaf into the leaf symbol's slot of encodeMap; other slots keep
     * what they held.
     */
    method CreateHuffmanCodes(node: Tree, code: seq<char>, level: int)
      requires encodeMap != null
      requires forall x :: x in Leaves(node) ==> 0 <= x.ord < encodeMap.Length
      modifies encodeMap
      ensures forall k :: 0 <= k < encodeMap.Length ==>
        encodeMap[k] == (if CodeOf(node, k).Some? then Some(code + CodeOf(node, k).value) else old(encodeMap[k]))
      decreases node
    {
      if node.Leaf? {
        encodeMap[node.ord] := Some(code);
        assert code + [] == code;
      } else {
        CreateHuffmanCodes(node.left, code + ['0'], level + 1);
        CreateHuffmanCodes(node.right, code + ['1'], level + 1);
        forall k | 0 <= k < encodeMap.Length && CodeOf(node, k).Some?
          ensures encodeMap[k] == Some(code + CodeOf(node, k).value)
        {
          if CodeOf(node.right, k).Some? {
            assert code + CodeOf(node, k).value == (code + ['1']) + CodeOf(node.right, k).value;
          } else {
            assert code + CodeOf(node, k).value == (code + ['0']) + CodeOf(node.left, k).value;
          }
        }
      }
    }

    /**
     * Walks from `node` one digit at a time, counting each digit consumed:
     * returns the byte of the leaf reached, or -1 when the digits run out
     * at an internal node.
     */
    method TraverseTree(node: Tree, binStr: seq<char>) returns (b: int)
      requires IsDigits(binStr)
      modifies this`numCharsDecoded
      ensures numCharsDecoded == old(numCharsDecoded) + Walk(node, binStr).used
      ensures b == Emit(Walk(node, binStr))
      decreases node
    {
      if !node.Leaf? {
        if |binStr| == 0 {
          return -1;
        } else {
          var direction := binStr[0] as int - '0' as int;
          numCharsDecoded := numCharsDecoded + 1;
          if direction == 1 {
            b := TraverseTree(node.right, binStr[1..]);
          } else {
            b := TraverseTree(node.left, binStr[1..]);
          }
        }
      } else {
        b := ToByte(node.ord);
      }
    }

    /**
     * Decodes one symbol from the front of `binStr`. An empty string gives
     * -1 and leaves the counter alone; otherwise the counter restarts at 0
     * and ends at the number of digits the walk from the root consumed.
     */
    method DecodeString(binStr: seq<char>) returns (b: int)
      requires IsDigits(binStr)
      requires binStr != [] ==> root.Some?
      modifies this`numCharsDecoded
      ensures binStr == [] ==> b == -1 && numCharsDecoded == old(numCharsDecoded)
      ensures binStr != [] ==>
        numCharsDecoded == Walk(root.value, binStr).used && b == Emit(Walk(root.value, binStr))
    {
      if |binStr| == 0 {
        return -1;
      }
      numCharsDecoded := 0;
      b := TraverseTree(root.value, binStr);
    }
  }
}
