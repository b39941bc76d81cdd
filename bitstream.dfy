/**
 * The bit stream engine of keymap-compressor.py: a writer that packs groups
 * of bits, most significant bit first, into a byte buffer, and a reader that
 * takes the same groups back out of such a buffer.
 *
 * Each class exposes its logical bit stream as a ghost function:
 * `BitWriter.Stream()` is every bit pushed so far, and `BitReader.Unread()`
 * is every bit of the zero-padded input not yet read.
 */
module BitStream {
  import opened Bits

  /** Why a decoder stopped without a result. */
  datatype Error =
    | Exhausted          // the reader was asked for bits past its padded input
    | NoOpInsideString   // a no-op sentinel arrived while a string was half built

  datatype Result<T> = Ok(value: T) | Err(error: Error)

  class BitWriter {
    var buffer: seq<byte>
    var openByte: nat
    /** How many low-order bits of the open byte are still free. */
    var bitsLeftToFill: nat

    ghost predicate Valid()
      reads this
    {
      1 <= bitsLeftToFill <= 8 && openByte < Pow2(8 - bitsLeftToFill)
    }

    /** The emitted bytes, then the bits already placed in the open byte. */
    ghost function Stream(): (s: seq<bool>)
      reads this
      requires Valid()
    {
      BytesToBits(buffer) + ToBits(openByte, 8 - bitsLeftToFill)
    }

    constructor ()
      ensures Valid() && Stream() == []
      ensures buffer == [] && openByte == 0 && bitsLeftToFill == 8
    {
      buffer := [];
      openByte := 0;
      bitsLeftToFill := 8;
    }

    /**
     * Appends the `numBits`-bit rendering of `number` to the stream.  The three
     * phases of the push are the helper methods below: complete the open byte,
     * emit the whole bytes, then place the remaining bits in the open byte.
     */
    method PushBits(number: nat, numBits: nat)
      requires Valid()
      requires number < Pow2(numBits)
      modifies this
      ensures Valid()
      ensures Stream() == old(Stream()) + ToBits(number, numBits)
    {
      var n: nat, k: nat := number, numBits;
      if k >= bitsLeftToFill {
        n, k := FillOpenByte(n, k);
        n, k := EmitWholeBytes(n, k);
      }
      if k > 0 {
        PlaceInOpenByte(n, k);
      } else {
        assert ToBits(n, k) == [];
      }
    }

    /** Completes the open byte with the top bits of `n`; returns the rest. */
    method FillOpenByte(n: nat, k: nat) returns (n': nat, k': nat)
      requires Valid() && n < Pow2(k) && k >= bitsLeftToFill
      modifies this
      ensures Valid() && bitsLeftToFill == 8 && openByte == 0
      ensures k' == k - old(bitsLeftToFill) && n' < Pow2(k')
      ensures Stream() + ToBits(n', k') == old(Stream()) + ToBits(n, k)
    {
      var free := bitsLeftToFill;
      ghost var before := BytesToBits(buffer) + ToBits(openByte, 8 - free);
      FillByte(buffer, openByte, free, n, k);
      var newByte: byte := Shl(openByte, free) + Shr(n, k - free);
      k' := k - free;
      n' := Mask(n, k');
      ghost var after := BytesToBits(buffer + [newByte]);
      assert after + ToBits(n', k') == before + ToBits(n, k);
      buffer := buffer + [newByte];
      openByte := 0;
      bitsLeftToFill := 8;
      assert Stream() == after + ToBits(0, 0);
    }

    /** With the open byte empty, emits the whole bytes of `n`; returns the rest. */
    method EmitWholeBytes(n: nat, k: nat) returns (n': nat, k': nat)
      requires Valid() && bitsLeftToFill == 8 && openByte == 0 && n < Pow2(k)
      modifies this
      ensures Valid() && bitsLeftToFill == 8 && openByte == 0
      ensures k' < 8 && k' <= k && n' < Pow2(k')
      ensures Stream() + ToBits(n', k') == old(Stream()) + ToBits(n, k)
    {
      assert ToBits(openByte, 8 - bitsLeftToFill) == [];
      ghost var target := Stream() + ToBits(n, k);
      assert Stream() == BytesToBits(buffer);
      n', k' := n, k;
      while k' >= 8
        invariant k' <= k && n' < Pow2(k')
        invariant bitsLeftToFill == 8 && openByte == 0
        invariant BytesToBits(buffer) + ToBits(n', k') == target
      {
        var newByte := Shr(n', k' - 8);
        EmitByte(buffer, n', k');
        k' := k' - 8;
        n' := Mask(n', k');
        buffer := buffer + [newByte];
      }
      assert ToBits(openByte, 8 - bitsLeftToFill) == [];
      assert Stream() == BytesToBits(buffer);
    }

    /** Shifts the last `k` bits, fewer than are free, into the open byte. */
    method PlaceInOpenByte(n: nat, k: nat)
      requires Valid() && n < Pow2(k) && 0 < k < bitsLeftToFill
      modifies this
      ensures Valid() && buffer == old(buffer)
      ensures Stream() == old(Stream()) + ToBits(n, k)
    {
      PlaceStep(buffer, openByte, bitsLeftToFill, n, k);
      openByte := Shl(openByte, k) + n;
      bitsLeftToFill := bitsLeftToFill - k;
    }

    /**
     * The finished buffer: the emitted bytes, then the open byte with its
     * bits moved to the top when it holds any.  The writer is left as it is.
     */
    method GetOutput() returns (out: seq<byte>)
      requires Valid()
      ensures |Stream()| <= 8 * |out| < |Stream()| + 8
      ensures BytesToBits(out) == Stream() + Zeros(8 * |out| - |Stream()|)
      ensures buffer <= out
    {
      if bitsLeftToFill < 8 {
        Concat(openByte, 8 - bitsLeftToFill, 0, bitsLeftToFill);
        var finalByte := Shl(openByte, bitsLeftToFill);
        BytesToBitsSnoc(buffer, finalByte);
        ToBitsZero(bitsLeftToFill);
        out := buffer + [finalByte];
      } else {
        out := buffer;
      }
    }
  }

  class BitReader {
    /** The input with the zero byte appended that the iterator walks. */
    const source: seq<byte>
    /** The bits of `source`. */
    ghost const sourceBits: seq<bool>
    /** Index in `source` of the byte the iterator yields next. */
    var nextIndex: nat
    var openByte: byte
    /** How many low-order bits of the open byte are still unread. */
    var bitsLeftToRead: nat

    ghost predicate Valid()
      reads this
    {
      && BitsOf(sourceBits, source)
      && 1 <= nextIndex <= |source|
      && openByte == source[nextIndex - 1]
      && 1 <= bitsLeftToRead <= 8
    }

    /** How many bits of the padded input have been read. */
    ghost function Consumed(): (c: nat)
      reads this
      requires Valid()
      ensures c < 8 * |source|
    {
      8 * nextIndex - bitsLeftToRead
    }

    ghost function Unread(): (s: seq<bool>)
      reads this
      requires Valid()
      ensures |s| >= 1
    {
      sourceBits[Consumed()..]
    }

    constructor (buffer: seq<byte>)
      ensures Valid() && source == buffer + [0]
      ensures Consumed() == 0 && Unread() == BytesToBits(buffer + [0])
    {
      source := buffer + [0];
      sourceBits := BytesToBits(buffer + [0]);
      BytesToBitsOf(buffer + [0]);
      openByte := 0;
      new;
      openByte := source[0];
      nextIndex := 1;
      bitsLeftToRead := 8;
    }

    /**
     * Reads the next `numBits` bits as an unsigned number.  The read fails with
     * `Exhausted` exactly when it would have to load a byte past the zero pad,
     * that is when fewer than `numBits + 1` bits are unread.  The phases of the
     * read are the helper methods below.
     */
    method ReadBits(numBits: nat) returns (r: Result<nat>)
      requires Valid()
      modifies this
      ensures Valid()
      ensures r.Ok? <==> numBits < |old(Unread())|
      ensures r.Err? ==> r.error == Exhausted
      ensures r.Ok? ==> r.value < Pow2(numBits)
      ensures r.Ok? ==> r.value == FromBits(old(Unread())[..numBits])
      ensures r.Ok? ==> Unread() == old(Unread())[numBits..]
      ensures r.Ok? ==> Consumed() == old(Consumed()) + numBits
    {
      ghost var c0 := Consumed();
      var ok, result, k := ReadLeadingBytes(numBits);
      if !ok {
        return Err(Exhausted);
      }
      if k > 0 {
        result := ReadRest(c0, result, k);
      }
      ghost var read := sourceBits[c0..c0 + numBits];
      assert Consumed() == c0 + numBits && result == FromBits(read);
      SuffixSlices(sourceBits, c0, numBits);
      assert old(Unread())[..numBits] == read;
      return Ok(result);
    }

    /**
     * The part of a read that crosses byte boundaries: when `numBits` reaches
     * past the open byte, drains it and reads whole bytes.  What is left to
     * read, `k` bits, then lies within the open byte.
     */
    method ReadLeadingBytes(numBits: nat) returns (ok: bool, result: nat, k: nat)
      requires Valid()
      modifies this
      ensures Valid()
      ensures ok <==> numBits < |old(Unread())|
      ensures ok ==> k < bitsLeftToRead && Consumed() + k == old(Consumed()) + numBits
      ensures ok ==> old(Consumed()) <= Consumed()
      ensures ok ==> result == FromBits(sourceBits[old(Consumed())..Consumed()])
    {
      ghost var c0 := Consumed();
      assert |Unread()| == 8 * |source| - c0;
      k, result := numBits, 0;
      if k >= bitsLeftToRead {
        k := k - bitsLeftToRead;
        ok, result := DrainOpenByte();
        if !ok {
          return;
        }
        ok, result, k := ReadWholeBytes(c0, result, k);
      } else {
        assert result == FromBits(sourceBits[c0..c0]);
        ok := true;
      }
    }

    /**
     * Takes the unread low bits of the open byte and loads the next byte,
     * which fails when the open byte is the zero pad.
     */
    method DrainOpenByte() returns (ok: bool, part: nat)
      requires Valid()
      modifies this
      ensures Valid() && bitsLeftToRead == 8
      ensures ok <==> old(nextIndex) < |source|
      ensures !ok ==> old(Consumed()) + old(bitsLeftToRead) == 8 * |source|
      ensures ok ==> Consumed() == old(Consumed()) + old(bitsLeftToRead)
      ensures ok ==> part == FromBits(sourceBits[old(Consumed())..Consumed()])
    {
      ghost var c0, bits := Consumed(), sourceBits;
      var left, b := bitsLeftToRead, openByte;
      ByteWindow(sourceBits, source, nextIndex - 1, c0, left);
      LowBitsOfByte(bits, c0, b, left);
      part := Mask(b, left);
      ghost var c := c0 + left;
      bitsLeftToRead := 8;
      if nextIndex == |source| {
        return false, part;
      }
      openByte := source[nextIndex];
      nextIndex := nextIndex + 1;
      assert Consumed() == c;
      ok := true;
    }

    /**
     * With a fresh byte open, appends whole bytes to `result` while at least
     * eight bits are wanted; fails when a byte past the zero pad is needed.
     */
    method ReadWholeBytes(ghost c0: nat, result: nat, k: nat) returns (ok: bool, result': nat, k': nat)
      requires Valid() && bitsLeftToRead == 8
      requires c0 <= Consumed() && result == FromBits(sourceBits[c0..Consumed()])
      modifies this
      ensures Valid() && bitsLeftToRead == 8
      ensures !ok ==> old(Consumed()) + k >= 8 * |source|
      ensures ok ==> k' < 8 && Consumed() + k' == old(Consumed()) + k
      ensures ok ==> result' == FromBits(sourceBits[c0..Consumed()])
    {
      result', k' := result, k;
      while k' >= 8
        invariant Valid() && bitsLeftToRead == 8
        invariant c0 <= Consumed() && Consumed() + k' == old(Consumed()) + k
        invariant result' == FromBits(sourceBits[c0..Consumed()])
      {
        ok, result' := ReadOneByte(c0, result');
        k' := k' - 8;
        if !ok {
          return;
        }
      }
      ok := true;
    }

    /**
     * One step of the whole-byte loop: appends the open byte to `result` and
     * loads the next one, which fails when the open byte is the zero pad.
     */
    method ReadOneByte(ghost c0: nat, result: nat) returns (ok: bool, result': nat)
      requires Valid() && bitsLeftToRead == 8
      requires c0 <= Consumed() && result == FromBits(sourceBits[c0..Consumed()])
      modifies this
      ensures Valid() && bitsLeftToRead == 8
      ensures ok <==> old(nextIndex) < |source|
      ensures !ok ==> old(Consumed()) + 8 == 8 * |source|
      ensures ok ==> Consumed() == old(Consumed()) + 8
      ensures ok ==> result' == FromBits(sourceBits[c0..Consumed()])
    {
      var i, b := nextIndex, openByte;
      ghost var c := Consumed();
      WholeByte(sourceBits, source, i - 1);
      assert c == 8 * (i - 1);
      ReadWholeByte(sourceBits, c0, c, b);
      result' := Shl(result, 8) + b;
      ok := i < |source|;
      if ok {
        openByte, nextIndex := source[i], i + 1;
      }
    }

    /** Appends the top `k` unread bits of the open byte, fewer than are left. */
    method ReadRest(ghost c0: nat, result: nat, k: nat) returns (result': nat)
      requires Valid() && 0 < k < bitsLeftToRead
      requires c0 <= Consumed() && result == FromBits(sourceBits[c0..Consumed()])
      modifies this
      ensures Valid() && Consumed() == old(Consumed()) + k
      ensures result' == FromBits(sourceBits[c0..Consumed()])
    {
      ghost var c, bits := Consumed(), sourceBits;
      var left, b := bitsLeftToRead, openByte;
      ByteWindow(sourceBits, source, nextIndex - 1, c, left);
      ReadPartByte(bits, c0, c, b, left, k);
      var shifted := Shr(b, left - k);
      result' := Shl(result, k) + Mask(shifted, k);
      assert result' == FromBits(bits[c0..c + k]);
      bitsLeftToRead := left - k;
      assert Consumed() == c + k;
    }
  }

  /** The bits of a sequence of `(number, width)` groups pushed in order. */
  function GroupsBits(groups: seq<(nat, nat)>): (s: seq<bool>)
  {
    if groups == [] then []
    else ToBits(groups[0].0, groups[0].1) + GroupsBits(groups[1..])
  }

  lemma {:induction false} GroupsBitsAppend(a: seq<(nat, nat)>, b: seq<(nat, nat)>)
    ensures GroupsBits(a + b) == GroupsBits(a) + GroupsBits(b)
  {
    if a == [] {
      assert a + b == b;
    } else {
      assert (a + b)[0] == a[0] && (a + b)[1..] == a[1..] + b;
      GroupsBitsAppend(a[1..], b);
    }
  }

  /** Every group fits in its width, as `push_bits` demands. */
  ghost predicate GroupsFit(groups: seq<(nat, nat)>)
  {
    forall i :: 0 <= i < |groups| ==> groups[i].0 < Pow2(groups[i].1)
  }

  /**
   * The bit stream round trip: pushing every group into a fresh writer and
   * reading the same widths back from its output returns every number.
   */
  method TestBitstreams(groups: seq<(nat, nat)>) returns (got: seq<nat>)
    requires GroupsFit(groups)
    ensures |got| == |groups|
    ensures forall i :: 0 <= i < |groups| ==> got[i] == groups[i].0
  {
    var writer := new BitWriter();
    PushGroups(writer, groups);
    var out := writer.GetOutput();
    PaddedOutput(out, writer.Stream(), 8 * |out| - |writer.Stream()|);
    var reader := new BitReader(out);
    got := ReadGroups(reader, groups);
  }

  /** What the writer wrote is a strict prefix of what the reader reads. */
  lemma PaddedOutput(out: seq<byte>, written: seq<bool>, pad: nat)
    requires BytesToBits(out) == written + Zeros(pad)
    ensures written < BytesToBits(out + [0])
  {
    BytesToBitsSnoc(out, 0);
    assert BytesToBits(out + [0]) == written + (Zeros(pad) + ToBits(0, 8));
  }

  /** Pushes every group, in order. */
  method PushGroups(writer: BitWriter, groups: seq<(nat, nat)>)
    requires writer.Valid() && GroupsFit(groups)
    modifies writer
    ensures writer.Valid()
    ensures writer.Stream() == old(writer.Stream()) + GroupsBits(groups)
  {
    ghost var start := writer.Stream();
    var i := 0;
    while i < |groups|
      invariant i <= |groups| && writer.Valid()
      invariant writer.Stream() == start + GroupsBits(groups[..i])
    {
      writer.PushBits(groups[i].0, groups[i].1);
      GroupsBitsSnoc(start, groups, i);
      i := i + 1;
    }
    assert groups[..i] == groups;
  }

  /** One more group pushed after the bits of the groups before it. */
  lemma GroupsBitsSnoc(start: seq<bool>, groups: seq<(nat, nat)>, i: nat)
    requires i < |groups|
    ensures start + GroupsBits(groups[..i]) + ToBits(groups[i].0, groups[i].1)
         == start + GroupsBits(groups[..i + 1])
  {
    GroupsBitsAppend(groups[..i], [groups[i]]);
    assert groups[..i + 1] == groups[..i] + [groups[i]];
    assert GroupsBits([groups[i]]) == ToBits(groups[i].0, groups[i].1) + GroupsBits([]);
  }

  /** Reads back the width of every group, in order, from a reader over them. */
  method ReadGroups(reader: BitReader, groups: seq<(nat, nat)>) returns (got: seq<nat>)
    requires reader.Valid() && GroupsFit(groups)
    requires GroupsBits(groups) < reader.Unread()
    modifies reader
    ensures |got| == |groups|
    ensures forall i :: 0 <= i < |groups| ==> got[i] == groups[i].0
  {
    ghost var tail := reader.Unread()[|GroupsBits(groups)|..];
    assert reader.Unread() == GroupsBits(groups) + tail;
    assert groups[0..] == groups;
    got := [];
    var i := 0;
    while i < |groups|
      invariant i <= |groups| && reader.Valid()
      invariant |got| == i && forall j :: 0 <= j < i ==> got[j] == groups[j].0
      invariant reader.Unread() == GroupsBits(groups[i..]) + tail
    {
      GroupsBitsCons(groups, i, tail);
      var v := ReadGroup(reader, groups[i], GroupsBits(groups[i + 1..]) + tail);
      got := got + [v];
      i := i + 1;
    }
  }

  /** The bits of the groups from `i` on are those of group `i`, then the rest. */
  lemma GroupsBitsCons(groups: seq<(nat, nat)>, i: nat, tail: seq<bool>)
    requires i < |groups|
    ensures GroupsBits(groups[i..]) + tail
         == ToBits(groups[i].0, groups[i].1) + (GroupsBits(groups[i + 1..]) + tail)
  {
    assert groups[i..][0] == groups[i] && groups[i..][1..] == groups[i + 1..];
  }

  /** Reads one group back from a reader whose unread bits start with it. */
  method ReadGroup(reader: BitReader, g: (nat, nat), ghost after: seq<bool>) returns (v: nat)
    requires reader.Valid() && g.0 < Pow2(g.1) && after != []
    requires reader.Unread() == ToBits(g.0, g.1) + after
    modifies reader
    ensures reader.Valid() && reader.Unread() == after
    ensures v == g.0
  {
    ghost var u := reader.Unread();
    assert u[..g.1] == ToBits(g.0, g.1) && u[g.1..] == after;
    var r := reader.ReadBits(g.1);
    FromToBits(g.0, g.1);
    v := r.value;
  }
}
