/**
 * The code words both string codecs of keymap-compressor.py write and read.
 * A code word is one of three symbols:
 *
 *   End        `00`          (`push_bits(0b00, 2)`)
 *   Dash       `01`          (`push_bits(0b01, 2)`)
 *   Quoted(b)  `1` + 8 bits  (`push_bits(b | (1 << 8), 9)`)
 *
 * and a decoder tells them apart by reading one bit, then one or eight more.
 */
module Symbols {
  import opened Bits
  import opened BitStream

  const Hyphen: byte := 0x2D     // ord("-")
  const Semicolon: byte := 0x3B  // ord(";")

  datatype Symbol = End | Dash | Quoted(b: byte)

  /**
   * The `(number, num_bits)` pair pushed for a symbol.  The source writes the
   * quoted number as `b | (1 << 8)`; as `b < 256` that is `b + 256`.
   */
  function SymbolGroup(s: Symbol): (g: (nat, nat))
    ensures g.0 < Pow2(g.1)
    ensures s.Quoted? <==> g.1 == 9
  {
    assert Pow2(2) == 4 && Pow2(9) == 512;
    match s
    case End => (0, 2)
    case Dash => (1, 2)
    case Quoted(b) => (b + 256, 9)
  }

  /** The bits of one symbol. */
  function SymbolBits(s: Symbol): (bs: seq<bool>)
    ensures |bs| == SymbolGroup(s).1
  {
    ToBits(SymbolGroup(s).0, SymbolGroup(s).1)
  }

  /** The bits of a sequence of symbols written one after the other. */
  function SymbolsBits(ss: seq<Symbol>): (bits: seq<bool>)
  {
    if ss == [] then [] else SymbolBits(ss[0]) + SymbolsBits(ss[1..])
  }

  /** The bits each symbol is written as, spelled out. */
  lemma SymbolBitsSpelled(s: Symbol)
    ensures s == End ==> SymbolBits(s) == [false, false]
    ensures s == Dash ==> SymbolBits(s) == [false, true]
    ensures s.Quoted? ==> SymbolBits(s) == [true] + ToBits(s.b, 8)
  {
    if s.Quoted? {
      QuotedBits(s.b);
    }
  }

  lemma QuotedBits(b: byte)
    ensures ToBits(b + 256, 9) == [true] + ToBits(b, 8)
  {
    assert Pow2(8) == 256 && Shl(1, 8) == 256;
    Concat(1, 1, b, 8);
    assert ToBits(1, 1) == [true];
  }

  lemma {:induction false} SymbolsBitsAppend(a: seq<Symbol>, b: seq<Symbol>)
    ensures SymbolsBits(a + b) == SymbolsBits(a) + SymbolsBits(b)
  {
    if a == [] {
      assert a + b == b;
    } else {
      assert (a + b)[0] == a[0] && (a + b)[1..] == a[1..] + b;
      SymbolsBitsAppend(a[1..], b);
    }
  }

  lemma SymbolsBitsOne(s: Symbol)
    ensures SymbolsBits([s]) == SymbolBits(s)
  {
    assert [s][1..] == [];
  }

  /** Pushing the group of `s` after the bits of `ss`. */
  lemma SymbolsBitsSnoc(ss: seq<Symbol>, s: Symbol)
    ensures SymbolsBits(ss + [s]) == SymbolsBits(ss) + SymbolBits(s)
  {
    SymbolsBitsAppend(ss, [s]);
    SymbolsBitsOne(s);
  }

  /**
   * The symbol at the front of the unread bits `bits`, with its width.  Every
   * read needs more bits unread than it takes (see `BitReader.ReadBits`), so
   * the symbol must be followed by at least one more bit.
   */
  function NextSymbol(bits: seq<bool>): (r: Result<(Symbol, nat)>)
    ensures r.Err? ==> r.error == Exhausted
    ensures r.Ok? ==> r.value.1 == SymbolGroup(r.value.0).1 < |bits|
  {
    if |bits| <= 1 then Err(Exhausted)
    else if bits[0] then
      if |bits| <= 9 then Err(Exhausted)
      else
        assert Pow2(8) == 256;
        Ok((Quoted(FromBits(bits[1..9])), 9))
    else if |bits| <= 2 then Err(Exhausted)
    else Ok((if bits[1] then Dash else End, 2))
  }

  /** A symbol followed by at least one bit reads back as itself. */
  lemma NextSymbolBits(s: Symbol, rest: seq<bool>)
    requires rest != []
    ensures NextSymbol(SymbolBits(s) + rest) == Ok((s, SymbolGroup(s).1))
  {
    SymbolBitsSpelled(s);
    var bits := SymbolBits(s) + rest;
    if s.Quoted? {
      assert bits[1..9] == ToBits(s.b, 8);
      FromToBits(s.b, 8);
    }
  }

  /** Reads one symbol, as both decoders of the source do inline. */
  method ReadSymbol(reader: BitReader) returns (r: Result<Symbol>)
    requires reader.Valid()
    modifies reader
    ensures reader.Valid()
    ensures r.Ok? <==> NextSymbol(old(reader.Unread())).Ok?
    ensures r.Err? ==> r.error == Exhausted
    ensures r.Ok? ==> r.value == NextSymbol(old(reader.Unread())).value.0
    ensures r.Ok? ==> reader.Unread() == old(reader.Unread())[NextSymbol(old(reader.Unread())).value.1..]
  {
    ghost var bits := reader.Unread();
    var determiner := reader.ReadBits(1);
    if determiner.Err? {
      return Err(Exhausted);
    }
    assert determiner.value == (if bits[0] then 1 else 0) by {
      assert bits[..1] == [bits[0]];
    }
    if determiner.value == 1 {
      var b := reader.ReadBits(8);
      if b.Err? {
        return Err(Exhausted);
      }
      assert bits[1..][..8] == bits[1..9];
      assert reader.Unread() == bits[9..];
      assert Pow2(8) == 256;
      return Ok(Quoted(b.value));
    } else {
      var second := reader.ReadBits(1);
      if second.Err? {
        return Err(Exhausted);
      }
      assert second.value == (if bits[1] then 1 else 0) by {
        assert bits[1..][..1] == [bits[1]];
      }
      assert reader.Unread() == bits[2..];
      return Ok(if second.value == 0 then End else Dash);
    }
  }
}
