/**
 * `compress_test_mode` and `decompress_test_mode` of keymap-compressor.py: a
 * single string in which `;` separates the keys.  It uses the same symbols
 * as the key list codec, but `End` stands for a `;` byte and the quoted zero
 * byte ends the string.  Strings are modelled as their UTF-8 bytes.
 */
module TestMode {
  import opened Bits
  import opened BitStream
  import opened Symbols

  function TestByteSymbol(b: byte): (s: Symbol)
  {
    if b == Semicolon then End else if b == Hyphen then Dash else Quoted(b)
  }

  function TestTextSymbols(t: seq<byte>): (ss: seq<Symbol>)
    ensures |ss| == |t|
  {
    if t == [] then [] else [TestByteSymbol(t[0])] + TestTextSymbols(t[1..])
  }

  lemma {:induction false} TestTextSymbolsSnoc(t: seq<byte>, b: byte)
    ensures TestTextSymbols(t + [b]) == TestTextSymbols(t) + [TestByteSymbol(b)]
  {
    if t != [] {
      assert (t + [b])[0] == t[0] && (t + [b])[1..] == t[1..] + [b];
      TestTextSymbolsSnoc(t[1..], b);
    }
  }

  /** The bit stream `compress_test_mode` writes, before padding. */
  function EncodeTestString(t: seq<byte>): (bits: seq<bool>)
  {
    SymbolsBits(TestTextSymbols(t) + [Quoted(0)])
  }

  /** The test-mode decoder on the unread bits `bits`, having decoded `acc`. */
  function DecodeTest(bits: seq<bool>, acc: seq<byte>): (r: Result<seq<byte>>)
    decreases |bits|
  {
    match NextSymbol(bits)
    case Err(e) => Err(e)
    case Ok((s, w)) =>
      match s
      case End => DecodeTest(bits[w..], acc + [Semicolon])
      case Dash => DecodeTest(bits[w..], acc + [Hyphen])
      case Quoted(b) => if b == 0 then Ok(acc) else DecodeTest(bits[w..], acc + [b])
  }

  /**
   * Writes the symbols of every byte, then the quoted zero byte as the end
   * marker.  The result is the encoded stream padded to whole bytes.
   */
  method CompressTestMode(s: seq<byte>) returns (out: seq<byte>)
    ensures |EncodeTestString(s)| <= 8 * |out| < |EncodeTestString(s)| + 8
    ensures BytesToBits(out) == EncodeTestString(s) + Zeros(8 * |out| - |EncodeTestString(s)|)
  {
    var writer := new BitWriter();
    for i := 0 to |s|
      invariant writer.Valid()
      invariant writer.Stream() == SymbolsBits(TestTextSymbols(s[..i]))
    {
      PushTestByte(writer, s[i]);
      TestTextStep(s, i);
    }
    assert s[..|s|] == s;
    PushEndMarker(writer);
    SymbolsBitsSnoc(TestTextSymbols(s), Quoted(0));
    out := writer.GetOutput();
  }

  /** One more byte of `s` written after the symbols of the bytes before it. */
  lemma TestTextStep(s: seq<byte>, i: nat)
    requires i < |s|
    ensures SymbolsBits(TestTextSymbols(s[..i])) + SymbolBits(TestByteSymbol(s[i]))
         == SymbolsBits(TestTextSymbols(s[..i + 1]))
  {
    SymbolsBitsSnoc(TestTextSymbols(s[..i]), TestByteSymbol(s[i]));
    TakeSnoc(s, i);
    TestTextSymbolsSnoc(s[..i], s[i]);
  }

  /** `push_bits(1 << 8, 9)`: the quoted zero byte that ends the string. */
  method PushEndMarker(writer: BitWriter)
    requires writer.Valid()
    modifies writer
    ensures writer.Valid()
    ensures writer.Stream() == old(writer.Stream()) + SymbolBits(Quoted(0))
  {
    assert Pow2(9) == 512;
    writer.PushBits(256, 9);
  }

  /** The body of the loop of `compress_test_mode`: the symbol of one byte. */
  method PushTestByte(writer: BitWriter, b: byte)
    requires writer.Valid()
    modifies writer
    ensures writer.Valid()
    ensures writer.Stream() == old(writer.Stream()) + SymbolBits(TestByteSymbol(b))
  {
    if b == Semicolon {
      writer.PushBits(0, 2);
    } else if b == Hyphen {
      writer.PushBits(1, 2);
    } else {
      assert Pow2(9) == 512;
      writer.PushBits(b as int + 256, 9);
    }
  }

  /** Reads symbols until the quoted zero byte; a read past the input is an error. */
  method DecompressTestMode(buffer: seq<byte>) returns (r: Result<seq<byte>>)
    ensures r == DecodeTest(BytesToBits(buffer + [0]), [])
  {
    ghost var input := BytesToBits(buffer + [0]);
    var reader := new BitReader(buffer);
    var result: seq<byte> := [];
    while true
      invariant reader.Valid()
      invariant DecodeTest(reader.Unread(), result) == DecodeTest(input, [])
      decreases |reader.Unread()|
    {
      var symbol := ReadSymbol(reader);
      if symbol.Err? {
        return Err(symbol.error);
      }
      match symbol.value
      case End =>
        result := result + [Semicolon];
      case Dash =>
        result := result + [Hyphen];
      case Quoted(b) =>
        if b == 0 {
          break;
        }
        result := result + [b];
    }
    return Ok(result);
  }

  /** Decoding a stream that starts with the bits of symbol `s`. */
  lemma DecodeTestStep(s: Symbol, tail: seq<bool>, acc: seq<byte>)
    requires tail != []
    ensures DecodeTest(SymbolBits(s) + tail, acc)
         == match s
            case End => DecodeTest(tail, acc + [Semicolon])
            case Dash => DecodeTest(tail, acc + [Hyphen])
            case Quoted(b) => if b == 0 then Ok(acc) else DecodeTest(tail, acc + [b])
  {
    NextSymbolBits(s, tail);
    assert (SymbolBits(s) + tail)[SymbolGroup(s).1..] == tail;
  }

  /** A nonzero byte, then `tail`, decodes onto `acc`. */
  lemma TestByteStep(b: byte, tail: seq<bool>, acc: seq<byte>)
    requires tail != [] && b != 0
    ensures DecodeTest(SymbolBits(TestByteSymbol(b)) + tail, acc) == DecodeTest(tail, acc + [b])
  {
    DecodeTestStep(TestByteSymbol(b), tail, acc);
  }

  /** A string without zero bytes, then `rest`, decodes onto `acc`. */
  lemma {:induction false} TestTextRoundTrip(t: seq<byte>, rest: seq<bool>, acc: seq<byte>)
    requires rest != [] && 0 !in t
    ensures DecodeTest(SymbolsBits(TestTextSymbols(t)) + rest, acc) == DecodeTest(rest, acc + t)
  {
    if t == [] {
      assert SymbolsBits(TestTextSymbols(t)) + rest == rest && acc + t == acc;
    } else {
      var s := TestByteSymbol(t[0]);
      var tail := SymbolsBits(TestTextSymbols(t[1..])) + rest;
      assert TestTextSymbols(t)[0] == s && TestTextSymbols(t)[1..] == TestTextSymbols(t[1..]);
      assert SymbolsBits(TestTextSymbols(t)) + rest == SymbolBits(s) + tail;
      TestByteStep(t[0], tail, acc);
      TestTextRoundTrip(t[1..], rest, acc + [t[0]]);
      AppendHead(acc, t);
    }
  }

  lemma EncodeTestStringSplit(t: seq<byte>, rest: seq<bool>)
    ensures EncodeTestString(t) + rest
         == SymbolsBits(TestTextSymbols(t)) + (SymbolBits(Quoted(0)) + rest)
  {
    SymbolsBitsSnoc(TestTextSymbols(t), Quoted(0));
    AppendAssoc(SymbolsBits(TestTextSymbols(t)), SymbolBits(Quoted(0)), rest);
  }

  /** What the test-mode decoder returns never holds a zero byte. */
  lemma {:induction false} DecodeTestNoZero(bits: seq<bool>, acc: seq<byte>)
    requires 0 !in acc
    ensures DecodeTest(bits, acc).Ok? ==> 0 !in DecodeTest(bits, acc).value
    decreases |bits|
  {
    if NextSymbol(bits).Ok? {
      var (s, w) := NextSymbol(bits).value;
      match s
      case End => DecodeTestNoZero(bits[w..], acc + [Semicolon]);
      case Dash => DecodeTestNoZero(bits[w..], acc + [Hyphen]);
      case Quoted(b) =>
        if b != 0 {
          DecodeTestNoZero(bits[w..], acc + [b]);
        }
    }
  }

  /**
   * The round trip `decompress_test_mode(compress_test_mode(s)) == s` holds
   * exactly for the strings without a zero byte, whatever follows the
   * encoded string as long as it is at least one bit.
   */
  lemma TestRoundTrip(t: seq<byte>, rest: seq<bool>)
    requires rest != []
    ensures DecodeTest(EncodeTestString(t) + rest, []) == Ok(t) <==> 0 !in t
  {
    if 0 in t {
      DecodeTestNoZero(EncodeTestString(t) + rest, []);
    } else {
      EncodeTestStringSplit(t, rest);
      TestTextRoundTrip(t, SymbolBits(Quoted(0)) + rest, []);
      DecodeTestStep(Quoted(0), rest, [] + t);
      assert [] + t == t;
    }
  }

  /** A zero byte in the string ends the decoded text early. */
  lemma TestStopsAtZero(a: seq<byte>, b: seq<byte>, rest: seq<bool>)
    requires rest != [] && 0 !in a
    ensures DecodeTest(EncodeTestString(a + [0] + b) + rest, []) == Ok(a)
  {
    var after := EncodeTestString(b) + rest;
    EncodeAroundZero(a, b, rest);
    TestTextRoundTrip(a, SymbolBits(Quoted(0)) + after, []);
    DecodeTestStep(Quoted(0), after, [] + a);
    assert [] + a == a;
  }

  /** The encoding of `a + [0] + b`: the symbols of `a`, the quoted zero, then the encoding of `b`. */
  lemma EncodeAroundZero(a: seq<byte>, b: seq<byte>, rest: seq<bool>)
    ensures EncodeTestString(a + [0] + b) + rest
         == SymbolsBits(TestTextSymbols(a)) + (SymbolBits(Quoted(0)) + (EncodeTestString(b) + rest))
  {
    ZeroSymbols(a, b);
    AppendAssoc(SymbolsBits(TestTextSymbols(a)), SymbolBits(Quoted(0)) + EncodeTestString(b), rest);
    AppendAssoc(SymbolBits(Quoted(0)), EncodeTestString(b), rest);
  }

  lemma ZeroSymbols(a: seq<byte>, b: seq<byte>)
    ensures EncodeTestString(a + [0] + b)
         == SymbolsBits(TestTextSymbols(a)) + (SymbolBits(Quoted(0)) + EncodeTestString(b))
  {
    var q := Quoted(0);
    var sa, sb := TestTextSymbols(a), TestTextSymbols(b);
    TestTextSymbolsAppend(a + [0], b);
    TestTextSymbolsSnoc(a, 0);
    assert TestTextSymbols(a + [0] + b) == sa + [q] + sb;
    AppendAssoc(sa + [q], sb, [q]);
    AppendAssoc(sa, [q], sb + [q]);
    SymbolsBitsAppend(sa, [q] + (sb + [q]));
    assert ([q] + (sb + [q]))[0] == q && ([q] + (sb + [q]))[1..] == sb + [q];
  }

  lemma {:induction false} TestTextSymbolsAppend(a: seq<byte>, b: seq<byte>)
    ensures TestTextSymbols(a + b) == TestTextSymbols(a) + TestTextSymbols(b)
  {
    if a == [] {
      assert a + b == b;
    } else {
      assert (a + b)[0] == a[0] && (a + b)[1..] == a[1..] + b;
      TestTextSymbolsAppend(a[1..], b);
    }
  }

  /** The first check of the source's main block, on the real methods. */
  method CheckTestString(s: seq<byte>) returns (r: Result<seq<byte>>)
    requires 0 !in s
    ensures r == Ok(s)
  {
    var out := CompressTestMode(s);
    ghost var e := EncodeTestString(s);
    PaddedOutput(out, e, 8 * |out| - |e|);
    ghost var input := BytesToBits(out + [0]);
    assert input == e + input[|e|..];
    TestRoundTrip(s, input[|e|..]);
    r := DecompressTestMode(out);
  }
}
