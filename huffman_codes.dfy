/*
 * The codes a Huffman tree assigns (root-to-leaf paths, '0' for a left
 * step and '1' for a right step) and the tree walk that decodes them.
 */
module HuffmanCodes {
  import opened HuffmanNode

  /** A string of '0' and '1' characters. */
  predicate IsBits(s: seq<char>) {
    forall i :: 0 <= i < |s| ==> s[i] == '0' || s[i] == '1'
  }

  /**
   * A string of ASCII decimal digits. The model restricts the bits it
   * decodes to these; Integer.parseInt also accepts other Unicode digits.
   */
  predicate IsDigits(s: seq<char>) {
    forall i :: 0 <= i < |s| ==> '0' <= s[i] <= '9'
  }

  /** `p` is a prefix of `q`. */
  predicate IsPrefix(p: seq<char>, q: seq<char>) {
    |p| <= |q| && q[..|p|] == p
  }

  // ---------------------------------------------------------------------
  // Code assignment
  // ---------------------------------------------------------------------

  /**
   * The code of symbol `s` in `t`: the path from the root to a leaf whose
   * ord is `s`, or None when no leaf holds `s`. When several leaves hold
   * `s`, the path found last by a left-then-right walk is taken, as that is
   * the one a left-then-right walk writing into a table leaves behind.
   */
  function CodeOf(t: Tree, s: int): (c: Option<seq<char>>)
    ensures c.Some? ==> IsBits(c.value)
    ensures c.Some? && t.Node? ==> |c.value| >= 1
  {
    match t
    case Leaf(o, _, _) => if o == s then Some([]) else None
    case Node(_, _, _, l, r) =>
      match CodeOf(r, s)
      case Some(p) => Some(['1'] + p)
      case None =>
        match CodeOf(l, s)
        case Some(p) => Some(['0'] + p)
        case None => None
  }

  /** A symbol has a code exactly when some leaf of the tree holds it. */
  lemma {:induction false} CodeExistsIffLeaf(t: Tree, s: int)
    ensures CodeOf(t, s).Some? <==> exists x :: x in Leaves(t) && x.ord == s
  {
    match t
    case Leaf(_, _, _) =>
    case Node(_, _, _, l, r) =>
      CodeExistsIffLeaf(l, s);
      CodeExistsIffLeaf(r, s);
  }

  /** The codes of two different symbols are never prefixes of one another. */
  lemma {:induction false} PrefixFree(t: Tree, a: int, b: int)
    requires a != b
    requires CodeOf(t, a).Some? && CodeOf(t, b).Some?
    ensures !IsPrefix(CodeOf(t, a).value, CodeOf(t, b).value)
  {
    match t
    case Leaf(_, _, _) =>
    case Node(_, _, _, l, r) =>
      var ca, cb := CodeOf(t, a).value, CodeOf(t, b).value;
      // a shared prefix of the whole codes is a shared prefix after the first step
      assert IsPrefix(ca, cb) ==> ca[0] == cb[0] && IsPrefix(ca[1..], cb[1..]);
      if ca[0] == cb[0] {
        if ca[0] == '1' {
          assert ca[1..] == CodeOf(r, a).value && cb[1..] == CodeOf(r, b).value;
          PrefixFree(r, a, b);
        } else {
          assert ca[1..] == CodeOf(l, a).value && cb[1..] == CodeOf(l, b).value;
          PrefixFree(l, a, b);
        }
      }
  }

  // ---------------------------------------------------------------------
  // Decoding
  // ---------------------------------------------------------------------

  /**
   * Where a walk from the root ends: at a leaf holding `ord`, or at an
   * internal node once the bits ran out. `used` counts the bits consumed.
   */
  datatype Walked = Found(ord: int, used: nat) | OutOfBits(used: nat)

  /**
   * The walk traverseTree performs: at an internal node, a '1' goes right
   * and any other digit goes left; a leaf ends the walk.
   */
  function Walk(t: Tree, bits: seq<char>): (w: Walked)
    ensures w.used <= |bits|
    ensures w.OutOfBits? ==> w.used == |bits| && t.Node?
    ensures t.Node? && bits != [] ==> w.used >= 1
  {
    match t
    case Leaf(o, _, _) => Found(o, 0)
    case Node(_, _, _, l, r) =>
      if |bits| == 0 then OutOfBits(0)
      else
        var w := Walk(if bits[0] == '1' then r else l, bits[1..]);
        w.(used := w.used + 1)
  }

  /** Java's `(byte)(ord & 0xff)`: the low eight bits read as a signed byte. */
  function ToByte(ord: int): (b: int)
    ensures -128 <= b < 128
    ensures (b - ord) % 256 == 0
    ensures 0 <= ord < 128 ==> b == ord
  {
    var low := ord % 256;
    if low < 128 then low else low - 256
  }

  /** What traverseTree returns for a walk: the leaf's byte, or -1. */
  function Emit(w: Walked): (b: int)
    ensures w.OutOfBits? ==> b == -1
    ensures w.Found? && 0 <= w.ord < 128 ==> b == w.ord
  {
    match w
    case Found(o, _) => ToByte(o)
    case OutOfBits(_) => -1
  }

  /** A walk that finds a symbol ends at one of the tree's leaves. */
  lemma {:induction false} WalkEndsAtLeaf(t: Tree, bits: seq<char>)
    requires Walk(t, bits).Found?
    ensures exists x :: x in Leaves(t) && x.ord == Walk(t, bits).ord
  {
    match t
    case Leaf(_, _, _) =>
      assert t in Leaves(t);
    case Node(_, _, _, l, r) =>
      var c := if bits[0] == '1' then r else l;
      WalkEndsAtLeaf(c, bits[1..]);
      var x :| x in Leaves(c) && x.ord == Walk(c, bits[1..]).ord;
      assert x in Leaves(t);
  }

  /**
   * When every symbol is a 7-bit character, -1 is only ever the
   * "incomplete" sentinel: the walk yields -1 exactly when the bits ran out,
   * and otherwise the symbol it found.
   */
  lemma SentinelMeansOutOfBits(t: Tree, bits: seq<char>)
    requires forall x :: x in Leaves(t) ==> 0 <= x.ord < 128
    ensures Emit(Walk(t, bits)) == -1 <==> Walk(t, bits).OutOfBits?
    ensures Walk(t, bits).Found? ==> Emit(Walk(t, bits)) == Walk(t, bits).ord
  {
    if Walk(t, bits).Found? {
      WalkEndsAtLeaf(t, bits);
    }
  }

  /** A symbol's code, followed by anything, decodes to that symbol using exactly the code's bits. */
  lemma {:induction false} DecodeRoundTrip(t: Tree, s: int, rest: seq<char>)
    requires CodeOf(t, s).Some?
    ensures Walk(t, CodeOf(t, s).value + rest) == Found(s, |CodeOf(t, s).value|)
  {
    match t
    case Leaf(_, _, _) =>
    case Node(_, _, _, l, r) =>
      var c := CodeOf(t, s).value;
      if CodeOf(r, s).Some? {
        var p := CodeOf(r, s).value;
        assert c + rest == ['1'] + (p + rest);
        DecodeRoundTrip(r, s, rest);
      } else {
        var p := CodeOf(l, s).value;
        assert c + rest == ['0'] + (p + rest);
        DecodeRoundTrip(l, s, rest);
      }
  }

  /**
   * What decodeString returns for a 7-bit symbol's code followed by anything:
   * that symbol, having counted exactly the code's bits.
   */
  lemma DecodeOfCode(t: Tree, s: int, rest: seq<char>)
    requires CodeOf(t, s).Some? && 0 <= s < 128
    ensures Emit(Walk(t, CodeOf(t, s).value + rest)) == s
    ensures Walk(t, CodeOf(t, s).value + rest).used == |CodeOf(t, s).value|
  {
    DecodeRoundTrip(t, s, rest);
  }

  /**
   * Conversely, in a tree whose symbols are distinct, a walk over '0'/'1'
   * bits that reaches a leaf consumed exactly that leaf's code.
   */
  lemma {:induction false} DecodeReadsCode(t: Tree, bits: seq<char>)
    requires DistinctOrds(t) && IsBits(bits)
    requires Walk(t, bits).Found?
    ensures CodeOf(t, Walk(t, bits).ord) == Some(bits[..Walk(t, bits).used])
  {
    match t
    case Leaf(_, _, _) =>
    case Node(_, _, _, l, r) =>
      DistinctOrdsSplit(t);
      var w := Walk(t, bits);
      var tail := bits[1..];
      if bits[0] == '1' {
        DecodeReadsCode(r, tail);
        assert bits[..w.used] == ['1'] + tail[..w.used - 1];
      } else {
        DecodeReadsCode(l, tail);
        var o := w.ord;
        CodeExistsIffLeaf(l, o);
        CodeExistsIffLeaf(r, o);
        assert CodeOf(r, o).None?;
        assert bits[..w.used] == ['0'] + tail[..w.used - 1];
      }
  }

  /**
   * In a tree whose symbols are distinct, a walk over '0'/'1' bits that
   * stops at an internal node has read a proper prefix of some symbol's code.
   */
  lemma {:induction false} OutOfBitsIsPrefix(t: Tree, bits: seq<char>)
    requires DistinctOrds(t) && IsBits(bits) && Walk(t, bits).OutOfBits?
    ensures exists s :: CodeOf(t, s).Some? && IsPrefix(bits, CodeOf(t, s).value) && |bits| < |CodeOf(t, s).value|
  {
    match t
    case Node(_, _, _, l, r) =>
      if bits == [] {
        var x := Leaves(t)[0];
        CodeExistsIffLeaf(t, x.ord);
        assert CodeOf(t, x.ord).Some?;
      } else {
        DistinctOrdsSplit(t);
        var tail := bits[1..];
        assert bits == [bits[0]] + tail;
        if bits[0] == '1' {
          OutOfBitsIsPrefix(r, tail);
          var s :| CodeOf(r, s).Some? && IsPrefix(tail, CodeOf(r, s).value) && |tail| < |CodeOf(r, s).value|;
          assert CodeOf(t, s) == Some(['1'] + CodeOf(r, s).value);
        } else {
          OutOfBitsIsPrefix(l, tail);
          var s :| CodeOf(l, s).Some? && IsPrefix(tail, CodeOf(l, s).value) && |tail| < |CodeOf(l, s).value|;
          CodeExistsIffLeaf(l, s);
          CodeExistsIffLeaf(r, s);
          assert CodeOf(t, s) == Some(['0'] + CodeOf(l, s).value);
        }
      }
  }

  /**
   * The bits a caller reads symbol after symbol by calling decodeString on
   * what is left after each decoded symbol, as far as whole codes reach.
   */
  function DecodeAll(t: Tree, bits: seq<char>): (syms: seq<int>)
    requires t.Node?
    decreases |bits|
  {
    if bits == [] then []
    else
      match Walk(t, bits)
      case OutOfBits(_) => []
      case Found(o, u) => [o] + DecodeAll(t, bits[u..])
  }

  /** The concatenated codes of a sequence of symbols. */
  function EncodeAll(t: Tree, syms: seq<int>): (bits: seq<char>)
    requires forall i :: 0 <= i < |syms| ==> CodeOf(t, syms[i]).Some?
  {
    if syms == [] then [] else CodeOf(t, syms[0]).value + EncodeAll(t, syms[1..])
  }

  /**
   * A tree that is a lone leaf gives its symbol the empty code, so any
   * symbol stream encodes to no bits at all; decodeString refuses the empty
   * string, which is why the stream round trip needs an internal root.
   */
  lemma {:induction false} LoneLeafEncodesToNothing(t: Tree, syms: seq<int>)
    requires t.Leaf?
    requires forall i :: 0 <= i < |syms| ==> CodeOf(t, syms[i]).Some?
    ensures forall i :: 0 <= i < |syms| ==> syms[i] == t.ord && CodeOf(t, syms[i]).value == []
    ensures EncodeAll(t, syms) == []
  {
    if syms != [] {
      LoneLeafEncodesToNothing(t, syms[1..]);
      assert forall i :: 1 <= i < |syms| ==> syms[i] == syms[1..][i - 1];
    }
  }

  /** Decoding the concatenated codes of a symbol sequence gives the sequence back. */
  lemma {:induction false} StreamRoundTrip(t: Tree, syms: seq<int>)
    requires t.Node?
    requires forall i :: 0 <= i < |syms| ==> CodeOf(t, syms[i]).Some?
    ensures DecodeAll(t, EncodeAll(t, syms)) == syms
  {
    if syms != [] {
      var c := CodeOf(t, syms[0]).value;
      var rest := EncodeAll(t, syms[1..]);
      DecodeRoundTrip(t, syms[0], rest);
      assert (c + rest)[|c|..] == rest;
      StreamRoundTrip(t, syms[1..]);
    }
  }
}
