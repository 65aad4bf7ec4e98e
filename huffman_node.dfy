/*
 * The nodes of a Huffman tree, the three-key order in which the priority
 * queue hands them out, and the invariants a tree built by merging keeps.
 *
 * HuffmanTreeNode is not part of this model: its shape is inferred from its
 * uses. A leaf is made from (ord, weight), an internal node from
 * (weight, left, right); every node reports a weight, an ordinal value and a
 * creation id.
 */
module HuffmanNode {

  datatype Option<T> = None | Some(value: T)

  // ---------------------------------------------------------------------
  // Java `int` arithmetic
  // ---------------------------------------------------------------------

  const INT32_MIN: int := -0x8000_0000
  const INT32_MAX: int := 0x7fff_ffff
  const TWO_TO_32: int := 0x1_0000_0000

  predicate IsInt32(x: int) {
    INT32_MIN <= x <= INT32_MAX
  }

  /** The value Java's 32-bit `int` arithmetic gives for the mathematical value `x`. */
  function Wrap32(x: int): (r: int)
    ensures IsInt32(r)
    ensures (r - x) % TWO_TO_32 == 0
    ensures IsInt32(x) ==> r == x
  {
    (x + 0x8000_0000) % TWO_TO_32 - 0x8000_0000
  }

  /** Two Java ints that agree modulo 2^32 are equal. */
  lemma Int32Congruent(r1: int, r2: int)
    requires IsInt32(r1) && IsInt32(r2)
    requires (r1 - r2) % TWO_TO_32 == 0
    ensures r1 == r2
  {
  }

  /** Adding wrapped values and wrapping again is wrapping the true sum. */
  lemma WrapAdd(a: int, b: int)
    ensures Wrap32(Wrap32(a) + Wrap32(b)) == Wrap32(a + b)
  {
    var ka := (Wrap32(a) - a) / TWO_TO_32;
    var kb := (Wrap32(b) - b) / TWO_TO_32;
    assert Wrap32(a) == a + ka * TWO_TO_32;
    assert Wrap32(b) == b + kb * TWO_TO_32;
    var x := Wrap32(a) + Wrap32(b);
    assert x == (a + b) + (ka + kb) * TWO_TO_32;
    var kx := (Wrap32(x) - x) / TWO_TO_32;
    var ks := (Wrap32(a + b) - (a + b)) / TWO_TO_32;
    assert Wrap32(x) == x + kx * TWO_TO_32;
    assert Wrap32(a + b) == (a + b) + ks * TWO_TO_32;
    assert Wrap32(x) - Wrap32(a + b) == (ka + kb + kx - ks) * TWO_TO_32;
    Int32Congruent(Wrap32(x), Wrap32(a + b));
  }

  // ---------------------------------------------------------------------
  // Nodes
  // ---------------------------------------------------------------------

  /**
   * A node of the Huffman tree. `ord` is the symbol of a leaf; for an
   * internal node it is whatever HuffmanTreeNode reports, which the builder
   * takes as a parameter. `id` is the node's creation number.
   */
  datatype Tree =
    | Leaf(ord: int, weight: int, id: int)
    | Node(ord: int, weight: int, id: int, left: Tree, right: Tree)

  /**
   * The reference order the queue is meant to follow: weight ascending, then
   * ordinal value ascending, then creation id ascending (a node is at most
   * itself).
   */
  predicate KeyAtMost(a: Tree, b: Tree) {
    a.weight < b.weight ||
    (a.weight == b.weight && a.ord < b.ord) ||
    (a.weight == b.weight && a.ord == b.ord && a.id <= b.id)
  }

  /**
   * The comparator compareWeightOrd: negative means `ht1` leaves the queue
   * first. It never answers 0, not even for a node and itself.
   */
  function Compare(ht1: Tree, ht2: Tree): (r: int)
    ensures r == 1 || r == -1
    ensures r == -1 <==> KeyAtMost(ht1, ht2)
  {
    if ht1.weight != ht2.weight then
      (if ht1.weight > ht2.weight then 1 else -1)
    else if ht1.ord != ht2.ord then
      (if ht1.ord > ht2.ord then 1 else -1)
    else
      (if ht1.id > ht2.id then 1 else -1)
  }

  /** `a` is handed out by the priority queue no later than `b`. */
  predicate Precedes(a: Tree, b: Tree) {
    Compare(a, b) < 0
  }

  /**
   * The comparator is a total preorder, and on nodes whose creation ids
   * differ it is a strict total order: exactly one of the two comes first,
   * so the two calls answer with opposite signs.
   */
  lemma ComparatorIsTotalOrder(a: Tree, b: Tree, c: Tree)
    ensures Precedes(a, a)
    ensures Precedes(a, b) || Precedes(b, a)
    ensures Precedes(a, b) && Precedes(b, c) ==> Precedes(a, c)
    ensures a.id != b.id ==> (Precedes(a, b) <==> !Precedes(b, a))
    ensures a.id != b.id ==> Compare(a, b) == -Compare(b, a)
  {
  }

  // ---------------------------------------------------------------------
  // What a tree holds
  // ---------------------------------------------------------------------

  /** The leaves of `t`, left to right. */
  function Leaves(t: Tree): (s: seq<Tree>)
    ensures |s| >= 1
    ensures forall x :: x in s ==> x.Leaf?
  {
    match t
    case Leaf(_, _, _) => [t]
    case Node(_, _, _, l, r) => Leaves(l) + Leaves(r)
  }

  /** The sum of the leaf weights below `t`, as a mathematical integer. */
  function LeafTotal(t: Tree): int {
    match t
    case Leaf(_, w, _) => w
    case Node(_, _, _, l, r) => LeafTotal(l) + LeafTotal(r)
  }

  /** The sum of the weights of a sequence of nodes' leaves. */
  function Total(q: seq<Tree>): int {
    if q == [] then 0 else LeafTotal(q[0]) + Total(q[1..])
  }

  /** Every leaf symbol occurs once in `t`. */
  predicate DistinctOrds(t: Tree) {
    var s := Leaves(t);
    forall i, j :: 0 <= i < j < |s| ==> s[i].ord != s[j].ord
  }

  /**
   * A tree as the merge loop builds it: leaves carry Java int weights, and
   * each internal node was made from the two nodes the queue handed out,
   * the first as left child, after both of them, with the Java int sum of
   * their weights and the ordinal value `mergedOrd` gives it.
   */
  predicate WellFormed(t: Tree, mergedOrd: (Tree, Tree) -> int) {
    match t
    case Leaf(_, w, _) => IsInt32(w)
    case Node(o, w, i, l, r) =>
      WellFormed(l, mergedOrd) && WellFormed(r, mergedOrd) &&
      w == Wrap32(l.weight + r.weight) && o == mergedOrd(l, r) &&
      Precedes(l, r) && l.id < i && r.id < i
  }

  /** Leaf weights are conserved into the root, modulo Java int wrap-around. */
  lemma {:induction false} WeightConserved(t: Tree, mergedOrd: (Tree, Tree) -> int)
    requires WellFormed(t, mergedOrd)
    ensures t.weight == Wrap32(LeafTotal(t))
  {
    match t
    case Leaf(_, _, _) =>
    case Node(_, _, _, l, r) =>
      WeightConserved(l, mergedOrd);
      WeightConserved(r, mergedOrd);
      WrapAdd(LeafTotal(l), LeafTotal(r));
  }

  /** A node's creation id is larger than that of every node below it. */
  lemma {:induction false} IdsIncreaseUpward(t: Tree, mergedOrd: (Tree, Tree) -> int)
    requires WellFormed(t, mergedOrd)
    ensures forall x :: x in Leaves(t) ==> x.id <= t.id
  {
    match t
    case Leaf(_, _, _) =>
    case Node(_, _, _, l, r) =>
      IdsIncreaseUpward(l, mergedOrd);
      IdsIncreaseUpward(r, mergedOrd);
  }

  /** The leaves of the two subtrees of a tree with distinct symbols hold distinct symbols. */
  lemma DistinctOrdsSplit(t: Tree)
    requires t.Node? && DistinctOrds(t)
    ensures DistinctOrds(t.left) && DistinctOrds(t.right)
    ensures forall x, y :: x in Leaves(t.left) && y in Leaves(t.right) ==> x.ord != y.ord
  {
    var sl, sr := Leaves(t.left), Leaves(t.right);
    var s := Leaves(t);
    assert s == sl + sr;
    forall i, j | 0 <= i < j < |sl| ensures sl[i].ord != sl[j].ord {
      assert sl[i] == s[i] && sl[j] == s[j];
    }
    forall i, j | 0 <= i < j < |sr| ensures sr[i].ord != sr[j].ord {
      assert sr[i] == s[|sl| + i] && sr[j] == s[|sl| + j];
    }
    forall x, y | x in sl && y in sr ensures x.ord != y.ord {
      var i :| 0 <= i < |sl| && sl[i] == x;
      var j :| 0 <= j < |sr| && sr[j] == y;
      assert s[i] == x && s[|sl| + j] == y;
    }
  }
}
