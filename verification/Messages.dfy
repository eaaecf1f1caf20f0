/** Messages of bytes as strings of bits, in either bit order. */
module Messages {

  datatype BitOrder = LowFirst | HighFirst

  predicate Bit(b: bv8, mask: bv8) {
    b & mask != 0
  }

  function ByteBits(order: BitOrder, b: bv8): (bits: seq<bool>)
    ensures |bits| == 8
  {
    match order
    case LowFirst =>
      [Bit(b, 1), Bit(b, 2), Bit(b, 4), Bit(b, 8), Bit(b, 16), Bit(b, 32), Bit(b, 64), Bit(b, 128)]
    case HighFirst =>
      [Bit(b, 128), Bit(b, 64), Bit(b, 32), Bit(b, 16), Bit(b, 8), Bit(b, 4), Bit(b, 2), Bit(b, 1)]
  }

  function MessageBits(order: BitOrder, m: seq<bv8>): (bits: seq<bool>)
    ensures |bits| == 8 * |m|
  {
    if m == [] then [] else ByteBits(order, m[0]) + MessageBits(order, m[1..])
  }

  lemma {:induction false} MessageBitsAppend(order: BitOrder, s: seq<bv8>, t: seq<bv8>)
    ensures MessageBits(order, s + t) == MessageBits(order, s) + MessageBits(order, t)
  {
    hide ByteBits;
    if s == [] {
      assert s + t == t;
    } else {
      assert (s + t)[1..] == s[1..] + t;
      MessageBitsAppend(order, s[1..], t);
    }
  }

  lemma EightBits(a: bv8, b: bv8)
    requires Bit(a, 1) == Bit(b, 1) && Bit(a, 2) == Bit(b, 2) && Bit(a, 4) == Bit(b, 4) && Bit(a, 8) == Bit(b, 8)
    requires Bit(a, 16) == Bit(b, 16) && Bit(a, 32) == Bit(b, 32)
    requires Bit(a, 64) == Bit(b, 64) && Bit(a, 128) == Bit(b, 128)
    ensures a == b
  {
  }

  lemma LowFirstBits(b: bv8, s: seq<bool>)
    requires s == ByteBits(LowFirst, b)
    ensures |s| == 8
    ensures Bit(b, 1) == s[0] && Bit(b, 2) == s[1] && Bit(b, 4) == s[2] && Bit(b, 8) == s[3]
    ensures Bit(b, 16) == s[4] && Bit(b, 32) == s[5] && Bit(b, 64) == s[6] && Bit(b, 128) == s[7]
  {
    hide Bit;
  }

  lemma HighFirstBits(b: bv8, s: seq<bool>)
    requires s == ByteBits(HighFirst, b)
    ensures |s| == 8
    ensures Bit(b, 1) == s[7] && Bit(b, 2) == s[6] && Bit(b, 4) == s[5] && Bit(b, 8) == s[4]
    ensures Bit(b, 16) == s[3] && Bit(b, 32) == s[2] && Bit(b, 64) == s[1] && Bit(b, 128) == s[0]
  {
    hide Bit;
  }

  lemma ByteBitsInjective(order: BitOrder, a: bv8, b: bv8)
    requires ByteBits(order, a) == ByteBits(order, b)
    ensures a == b
  {
    hide *;
    var s := ByteBits(order, a);
    match order {
      case LowFirst =>
        LowFirstBits(a, s);
        LowFirstBits(b, s);
      case HighFirst =>
        HighFirstBits(a, s);
        HighFirstBits(b, s);
    }
    EightBits(a, b);
  }

  lemma {:induction false} MessageBitsInjective(order: BitOrder, s: seq<bv8>, t: seq<bv8>)
    requires |s| == |t| && MessageBits(order, s) == MessageBits(order, t)
    ensures s == t
  {
    hide ByteBits;
    if s != [] {
      var x, y := MessageBits(order, s), MessageBits(order, t);
      assert x[..8] == ByteBits(order, s[0]) && y[..8] == ByteBits(order, t[0]);
      assert x[8..] == MessageBits(order, s[1..]) && y[8..] == MessageBits(order, t[1..]);
      ByteBitsInjective(order, s[0], t[0]);
      MessageBitsInjective(order, s[1..], t[1..]);
    }
  }
}
