/**
 * Bit-level vocabulary shared by the bit-stream engine and the keylist codec.
 *
 * A bit stream is a `seq<bool>` read most-significant bit first.  `ToBits(n, w)`
 * is the `w`-bit, MSB-first rendering of `n`, and `FromBits` is its inverse.
 * The shift and mask operators of keymap-compressor.py are the recursive
 * functions `Shl` (`x << k`), `Shr` (`x >> k`) and `Mask`
 * (`x & ((1 << k) - 1)`).
 */
module Bits {

  /** A value of a Python `bytearray` element. */
  type byte = x: int | 0 <= x < 256

  function Pow2(n: nat): (r: nat)
    ensures r >= 1
  {
    if n == 0 then 1 else 2 * Pow2(n - 1)
  }

  /** The low `w` bits of `n`, most significant first. */
  function ToBits(n: nat, w: nat): (r: seq<bool>)
    ensures |r| == w
  {
    if w == 0 then [] else ToBits(n / 2, w - 1) + [n % 2 == 1]
  }

  /** The unsigned number whose MSB-first rendering is `bs`. */
  function FromBits(bs: seq<bool>): (r: nat)
    ensures r < Pow2(|bs|)
  {
    if |bs| == 0 then 0
    else 2 * FromBits(bs[..|bs| - 1]) + (if bs[|bs| - 1] then 1 else 0)
  }

  /** `n` zero bits: the padding of a final, partially filled byte. */
  function Zeros(n: nat): (r: seq<bool>)
    ensures |r| == n && forall i :: 0 <= i < n ==> !r[i]
  {
    seq(n, i => false)
  }

  lemma {:induction false} FromToBits(n: nat, w: nat)
    requires n < Pow2(w)
    ensures FromBits(ToBits(n, w)) == n
  {
    if w > 0 {
      var t := ToBits(n, w);
      FromToBits(n / 2, w - 1);
      assert t[..w - 1] == ToBits(n / 2, w - 1);
    }
  }

  lemma {:induction false} ToFromBits(bs: seq<bool>)
    ensures ToBits(FromBits(bs), |bs|) == bs
  {
    if |bs| > 0 {
      var init := bs[..|bs| - 1];
      ToFromBits(init);
      var f := FromBits(bs);
      assert f / 2 == FromBits(init);
      assert bs == init + [bs[|bs| - 1]];
    }
  }

  /** `x << k` */
  function Shl(x: nat, k: nat): (r: nat)
  {
    if k == 0 then x else 2 * Shl(x, k - 1)
  }

  /** `x >> k` */
  function Shr(x: nat, k: nat): (r: nat)
  {
    if k == 0 then x else Shr(x / 2, k - 1)
  }

  /** `x & ((1 << k) - 1)`: the low `k` bits of `x`. */
  function Mask(x: nat, k: nat): (r: nat)
    ensures r < Pow2(k)
  {
    if k == 0 then 0 else 2 * Mask(x / 2, k - 1) + x % 2
  }

  lemma {:induction false} FromBitsAppend(x: seq<bool>, y: seq<bool>)
    ensures FromBits(x + y) == Shl(FromBits(x), |y|) + FromBits(y)
  {
    if |y| == 0 {
      assert x + y == x;
    } else {
      var y' := y[..|y| - 1];
      assert (x + y)[..|x + y| - 1] == x + y';
      FromBitsAppend(x, y');
    }
  }

  /** The `a + b` low bits of `n` are its bits above `b`, then its low `b` bits. */
  lemma {:induction false} SplitBits(n: nat, a: nat, b: nat)
    ensures ToBits(n, a + b) == ToBits(Shr(n, b), a) + ToBits(Mask(n, b), b)
  {
    if b > 0 {
      SplitBits(n / 2, a, b - 1);
      var m := Mask(n, b);
      assert m / 2 == Mask(n / 2, b - 1) && m % 2 == n % 2;
      assert ToBits(m, b) == ToBits(Mask(n / 2, b - 1), b - 1) + [n % 2 == 1];
    }
  }

  lemma {:induction false} ShrBound(n: nat, a: nat, b: nat)
    requires n < Pow2(a + b)
    ensures Shr(n, b) < Pow2(a)
  {
    if b > 0 {
      ShrBound(n / 2, a, b - 1);
    }
  }

  /** Shifting `x` left by `b` and or-ing in a `b`-bit `y` keeps both recoverable. */
  lemma {:induction false} ShlOr(x: nat, a: nat, y: nat, b: nat)
    requires x < Pow2(a) && y < Pow2(b)
    ensures Shl(x, b) + y < Pow2(a + b)
    ensures Shr(Shl(x, b) + y, b) == x && Mask(Shl(x, b) + y, b) == y
  {
    if b > 0 {
      ShlOr(x, a, y / 2, b - 1);
      assert (Shl(x, b) + y) / 2 == Shl(x, b - 1) + y / 2;
    }
  }

  /** Rendering the juxtaposition of two bit fields renders each field. */
  lemma Concat(x: nat, a: nat, y: nat, b: nat)
    requires x < Pow2(a) && y < Pow2(b)
    ensures Shl(x, b) + y < Pow2(a + b)
    ensures ToBits(Shl(x, b) + y, a + b) == ToBits(x, a) + ToBits(y, b)
  {
    ShlOr(x, a, y, b);
    SplitBits(Shl(x, b) + y, a, b);
  }

  /** Splitting an (a+b)-bit value into its high `a` and low `b` bits. */
  lemma Split(n: nat, a: nat, b: nat)
    requires n < Pow2(a + b)
    ensures Shr(n, b) < Pow2(a)
    ensures ToBits(n, a + b) == ToBits(Shr(n, b), a) + ToBits(Mask(n, b), b)
  {
    ShrBound(n, a, b);
    SplitBits(n, a, b);
  }

  /** Bits `8-h .. 8-h+k` of a byte are `(b >> (h - k)) & ((1 << k) - 1)`. */
  lemma MidBits(b: byte, h: nat, k: nat)
    requires k <= h <= 8
    ensures FromBits(ToBits(b, 8)[8 - h..8 - h + k]) == Mask(Shr(b, h - k), k)
  {
    Split(b, 8 - h + k, h - k);
    var q := Shr(b, h - k);
    Split(q, 8 - h, k);
    assert ToBits(b, 8)[8 - h..8 - h + k] == ToBits(Mask(q, k), k);
    FromToBits(Mask(q, k), k);
  }

  lemma {:induction false} ToBitsZero(k: nat)
    ensures ToBits(0, k) == Zeros(k)
  {
    if k > 0 {
      ToBitsZero(k - 1);
    }
  }

  /** The bits of a byte buffer, each byte MSB first. */
  function BytesToBits(bs: seq<byte>): (r: seq<bool>)
    ensures |r| == 8 * |bs|
  {
    if bs == [] then [] else BytesToBits(bs[..|bs| - 1]) + ToBits(bs[|bs| - 1], 8)
  }

  lemma BytesToBitsSnoc(bs: seq<byte>, b: byte)
    ensures BytesToBits(bs + [b]) == BytesToBits(bs) + ToBits(b, 8)
  {
    assert (bs + [b])[..|bs|] == bs;
  }

  /** Byte `i` of a buffer occupies bits `8*i .. 8*i+8` of its bit stream. */
  lemma {:induction false} ByteAt(bs: seq<byte>, i: nat)
    requires i < |bs|
    ensures BytesToBits(bs)[8 * i..8 * i + 8] == ToBits(bs[i], 8)
  {
    var init := bs[..|bs| - 1];
    if i < |bs| - 1 {
      ByteAt(init, i);
      assert BytesToBits(bs)[8 * i..8 * i + 8] == BytesToBits(init)[8 * i..8 * i + 8];
    }
  }

  /**
   * `bits` are the bits of the buffer `bs`, stated byte by byte: the
   * non-recursive view of `BytesToBits` the reader works with.
   */
  ghost predicate BitsOf(bits: seq<bool>, bs: seq<byte>)
  {
    |bits| == 8 * |bs| && forall j :: 0 <= j < |bs| ==> bits[8 * j..8 * j + 8] == ToBits(bs[j], 8)
  }

  lemma BytesToBitsOf(bs: seq<byte>)
    ensures BitsOf(BytesToBits(bs), bs)
  {
    forall j | 0 <= j < |bs|
      ensures BytesToBits(bs)[8 * j..8 * j + 8] == ToBits(bs[j], 8)
    {
      ByteAt(bs, j);
    }
  }

  /** Byte `i` of a buffer, seen from a point `c` with `left` of its bits after it. */
  lemma ByteWindow(bits: seq<bool>, bs: seq<byte>, i: nat, c: nat, left: nat)
    requires BitsOf(bits, bs) && i < |bs| && 1 <= left <= 8 && c + left == 8 * i + 8
    ensures 8 - left <= c && c + left <= |bits|
    ensures bits[c - (8 - left)..c + left] == ToBits(bs[i], 8)
  {
    assert bits[8 * i..8 * i + 8] == ToBits(bs[i], 8);
    assert c - (8 - left) == 8 * i;
  }

  /** Byte `i` of a buffer occupies bits `8*i .. 8*i+8` of `bits`. */
  lemma WholeByte(bits: seq<bool>, bs: seq<byte>, i: nat)
    requires BitsOf(bits, bs) && i < |bs|
    ensures 8 * i + 8 <= |bits| && bits[8 * i..8 * i + 8] == ToBits(bs[i], 8)
  {
  }

  /**
   * Writer step: completing an open byte that holds `8 - free` bits with the
   * top `free` bits of a `k`-bit number leaves its low `k - free` bits to go.
   */
  lemma FillByte(buf: seq<byte>, open: nat, free: nat, n: nat, k: nat)
    requires 1 <= free <= 8 && open < Pow2(8 - free)
    requires free <= k && n < Pow2(k)
    ensures Shl(open, free) + Shr(n, k - free) < 256
    ensures BytesToBits(buf + [Shl(open, free) + Shr(n, k - free)]) + ToBits(Mask(n, k - free), k - free)
         == BytesToBits(buf) + ToBits(open, 8 - free) + ToBits(n, k)
  {
    var hi, lo := Shr(n, k - free), Mask(n, k - free);
    TopBits(n, k, free);
    var nb := FieldsByte(open, free, hi);
    BytesToBitsSnoc(buf, nb);
    Regroup(BytesToBits(buf), ToBits(open, 8 - free), ToBits(hi, free), ToBits(lo, k - free));
  }

  /** A `k`-bit number is its top `h` bits, then the rest. */
  lemma TopBits(n: nat, k: nat, h: nat)
    requires h <= k && n < Pow2(k)
    ensures Shr(n, k - h) < Pow2(h)
    ensures ToBits(n, k) == ToBits(Shr(n, k - h), h) + ToBits(Mask(n, k - h), k - h)
  {
    Split(n, h, k - h);
    assert h + (k - h) == k;
  }

  /** The byte holding an `8 - free`-bit field above a `free`-bit field. */
  lemma FieldsByte(hi: nat, free: nat, lo: nat) returns (b: byte)
    requires 1 <= free <= 8 && hi < Pow2(8 - free) && lo < Pow2(free)
    ensures b == Shl(hi, free) + lo
    ensures ToBits(b, 8) == ToBits(hi, 8 - free) + ToBits(lo, free)
  {
    Concat(hi, 8 - free, lo, free);
    assert 8 - free + free == 8 && Pow2(8) == 256;
    b := Shl(hi, free) + lo;
  }

  /** Moving the boundary between two fields of a concatenation. */
  lemma Regroup<T>(a: seq<T>, b: seq<T>, c: seq<T>, d: seq<T>)
    ensures a + (b + c) + d == a + b + (c + d)
  {
  }

  /** Writer step: emitting the top byte of a number of at least 8 bits. */
  lemma EmitByte(buf: seq<byte>, n: nat, k: nat)
    requires 8 <= k && n < Pow2(k)
    ensures Shr(n, k - 8) < 256
    ensures BytesToBits(buf + [Shr(n, k - 8)]) + ToBits(Mask(n, k - 8), k - 8)
         == BytesToBits(buf) + ToBits(n, k)
  {
    Split(n, 8, k - 8);
    var nb: byte := Shr(n, k - 8);
    BytesToBitsSnoc(buf, nb);
  }

  /** Reader step: appending a whole byte `b` found at `c` to the bits read from `c0`. */
  lemma ReadWholeByte(bits: seq<bool>, c0: nat, c: nat, b: byte)
    requires c0 <= c && c + 8 <= |bits| && bits[c..c + 8] == ToBits(b, 8)
    ensures FromBits(bits[c0..c + 8]) == Shl(FromBits(bits[c0..c]), 8) + b
  {
    FromBitsSlices(bits, c0, c, 8);
    FromToBits(b, 8);
  }

  /**
   * Reader step: appending the next `k` of the `left` unread bits of a byte
   * `b` found at `c - (8 - left)` to the bits read from `c0`.
   */
  lemma ReadPartByte(bits: seq<bool>, c0: nat, c: nat, b: byte, left: nat, k: nat)
    requires k <= left <= 8 && 8 - left <= c && c0 <= c && c + left <= |bits|
    requires bits[c - (8 - left)..c + left] == ToBits(b, 8)
    ensures FromBits(bits[c0..c + k]) == Shl(FromBits(bits[c0..c]), k) + Mask(Shr(b, left - k), k)
  {
    NextBitsOfByte(bits, c, b, left, k);
    FromBitsSlices(bits, c0, c, k);
  }

  /** The next `k` of the `left` unread bits of a byte `b` whose unread part starts at `c`. */
  lemma NextBitsOfByte(bits: seq<bool>, c: nat, b: byte, left: nat, k: nat)
    requires k <= left <= 8 && 8 - left <= c && c + left <= |bits|
    requires bits[c - (8 - left)..c + left] == ToBits(b, 8)
    ensures FromBits(bits[c..c + k]) == Mask(Shr(b, left - k), k)
  {
    MidBits(b, left, k);
    SliceOfSlice(bits, c - (8 - left), c + left, 8 - left, 8 - left + k);
  }

  /** The unread low `left` bits of an open byte. */
  lemma LowBitsOfByte(bits: seq<bool>, c: nat, b: byte, left: nat)
    requires left <= 8 && 8 - left <= c && c + left <= |bits|
    requires bits[c - (8 - left)..c + left] == ToBits(b, 8)
    ensures FromBits(bits[c..c + left]) == Mask(b, left)
  {
    NextBitsOfByte(bits, c, b, left, left);
    assert Shr(b, 0) == b;
  }

  /** The value of a slice, from the values of its two halves. */
  lemma FromBitsSlices(bits: seq<bool>, i: nat, j: nat, n: nat)
    requires i <= j && j + n <= |bits|
    ensures FromBits(bits[i..j + n]) == Shl(FromBits(bits[i..j]), n) + FromBits(bits[j..j + n])
  {
    SliceSplit(bits, i, j, j + n);
    FromBitsAppend(bits[i..j], bits[j..j + n]);
  }

  lemma SliceSplit<T>(s: seq<T>, i: nat, j: nat, k: nat)
    requires i <= j <= k <= |s|
    ensures s[i..k] == s[i..j] + s[j..k]
  {
  }

  lemma SliceOfSlice<T>(s: seq<T>, i: nat, j: nat, a: nat, b: nat)
    requires i <= j <= |s| && a <= b <= j - i
    ensures s[i..j][a..b] == s[i + a..i + b]
  {
    assert |s[i..j][a..b]| == b - a == |s[i + a..i + b]|;
    forall t | 0 <= t < b - a
      ensures s[i..j][a..b][t] == s[i + a..i + b][t]
    {
    }
  }

  /** Cutting the first `n` elements off the suffix from `c`. */
  lemma SuffixSlices<T>(s: seq<T>, c: nat, n: nat)
    requires c + n <= |s|
    ensures s[c..][..n] == s[c..c + n] && s[c..][n..] == s[c + n..]
  {
    SliceOfSlice(s, c, |s|, 0, n);
    assert s[c..] == s[c..|s|];
    SliceOfSlice(s, c, |s|, n, |s| - c);
    assert s[c..][n..] == s[c..|s|][n..|s| - c];
  }

  /** Writer step: shifting `k` more bits into an open byte that has `free` bits free. */
  lemma PlaceStep(buf: seq<byte>, open: nat, free: nat, n: nat, k: nat)
    requires 1 <= free <= 8 && open < Pow2(8 - free) && k < free && n < Pow2(k)
    ensures Shl(open, k) + n < Pow2(8 - (free - k))
    ensures BytesToBits(buf) + ToBits(Shl(open, k) + n, 8 - (free - k))
         == BytesToBits(buf) + ToBits(open, 8 - free) + ToBits(n, k)
  {
    Concat(open, 8 - free, n, k);
    assert 8 - free + k == 8 - (free - k);
  }

  /** Growing a prefix by one element. */
  lemma TakeSnoc<T>(s: seq<T>, j: nat)
    requires j < |s|
    ensures s[..j + 1] == s[..j] + [s[j]]
  {
  }

  /** Moving the head of `s` onto the end of `a`. */
  lemma AppendHead<T>(a: seq<T>, s: seq<T>)
    requires s != []
    ensures a + [s[0]] + s[1..] == a + s
  {
    assert s == [s[0]] + s[1..];
  }

  lemma AppendAssoc<T>(a: seq<T>, b: seq<T>, c: seq<T>)
    ensures a + b + c == a + (b + c)
  {
  }
}
