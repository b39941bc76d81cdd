/**
 * `compress` and `decompress` of keymap-compressor.py: a list of key strings
 * becomes a stream of symbols, one symbol per byte of each string and an `End`
 * after each string.  A `-` byte is written as the short `Dash` symbol, which
 * leaves the quoted `-` free: it stands for the whole string "no-op", with no
 * `End` after it.
 *
 * Strings are modelled as their UTF-8 bytes.
 */
module KeylistCodec {
  import opened Bits
  import opened BitStream
  import opened Symbols

  /** A key string, as its UTF-8 bytes. */
  type Key = seq<byte>

  /** The string "no-op". */
  const NoOp: Key := [0x6E, 0x6F, 0x2D, 0x6F, 0x70]

  function ByteSymbol(b: byte): (s: Symbol)
  {
    if b == Hyphen then Dash else Quoted(b)
  }

  /** The symbols of the bytes of a string that is not "no-op". */
  function TextSymbols(t: Key): (ss: seq<Symbol>)
    ensures |ss| == |t|
  {
    if t == [] then [] else [ByteSymbol(t[0])] + TextSymbols(t[1..])
  }

  lemma {:induction false} TextSymbolsSnoc(t: Key, b: byte)
    ensures TextSymbols(t + [b]) == TextSymbols(t) + [ByteSymbol(b)]
  {
    if t != [] {
      assert (t + [b])[0] == t[0] && (t + [b])[1..] == t[1..] + [b];
      TextSymbolsSnoc(t[1..], b);
    }
  }

  function KeySymbols(k: Key): (ss: seq<Symbol>)
  {
    if k == NoOp then [Quoted(Hyphen)] else TextSymbols(k) + [End]
  }

  function KeylistSymbols(ks: seq<Key>): (ss: seq<Symbol>)
  {
    if ks == [] then [] else KeySymbols(ks[0]) + KeylistSymbols(ks[1..])
  }

  /** The bit stream `compress` writes for a key list, before padding. */
  function EncodeKeylist(ks: seq<Key>): (bits: seq<bool>)
  {
    SymbolsBits(KeylistSymbols(ks))
  }

  /**
   * The effect of one decoded symbol on the keys found so far and the string
   * being built: a quoted `-` is a whole "no-op" key, and is refused while a
   * string is half built.
   */
  function Apply(s: Symbol, keys: seq<Key>, cur: Key): (r: Result<(seq<Key>, Key)>)
    ensures r.Err? <==> s == Quoted(Hyphen) && cur != []
    ensures r.Err? ==> r.error == NoOpInsideString
  {
    match s
    case Quoted(b) =>
      if b == Hyphen then
        if cur != [] then Err(NoOpInsideString) else Ok((keys + [NoOp], cur))
      else Ok((keys, cur + [b]))
    case End => Ok((keys + [cur], []))
    case Dash => Ok((keys, cur + [Hyphen]))
  }

  function Max(a: int, b: int): (m: int)
  {
    if a < b then b else a
  }

  /**
   * The decoder on the unread bits `bits`, having found `keys` and being in
   * the middle of `cur`: it stops as soon as `numKeys` keys are found.
   */
  function DecodeKeys(bits: seq<bool>, keys: seq<Key>, cur: Key, numKeys: int): (r: Result<seq<Key>>)
    decreases |bits|
  {
    if |keys| >= numKeys then Ok(keys)
    else match NextSymbol(bits)
      case Err(e) => Err(e)
      case Ok((s, w)) =>
        match Apply(s, keys, cur)
        case Err(e) => Err(e)
        case Ok((keys', cur')) => DecodeKeys(bits[w..], keys', cur', numKeys)
  }

  /**
   * The decoder only ever appends keys, and a successful decode has exactly
   * `numKeys` of them (or the ones it started with, if that is more).
   */
  lemma {:induction false} DecodeKeysGrows(bits: seq<bool>, keys: seq<Key>, cur: Key, numKeys: int)
    ensures var r := DecodeKeys(bits, keys, cur, numKeys);
      r.Ok? ==> keys <= r.value && |r.value| == Max(|keys|, numKeys)
    decreases |bits|
  {
    if |keys| < numKeys && NextSymbol(bits).Ok? {
      var (s, w) := NextSymbol(bits).value;
      var a := Apply(s, keys, cur);
      if a.Ok? {
        var (keys', cur') := a.value;
        assert keys' == keys || keys' == keys + [cur] || keys' == keys + [NoOp];
        DecodeKeysGrows(bits[w..], keys', cur', numKeys);
      }
    }
  }

  /**
   * Writes every key as its symbols.  The result is the encoded stream
   * padded with zero bits to whole bytes.
   */
  method Compress(keylist: seq<Key>) returns (out: seq<byte>)
    ensures |EncodeKeylist(keylist)| <= 8 * |out| < |EncodeKeylist(keylist)| + 8
    ensures BytesToBits(out) == EncodeKeylist(keylist) + Zeros(8 * |out| - |EncodeKeylist(keylist)|)
  {
    var writer := new BitWriter();
    for i := 0 to |keylist|
      invariant writer.Valid()
      invariant writer.Stream() == EncodeKeylist(keylist[..i])
    {
      PushKey(writer, keylist[i]);
      KeylistSymbolsSnoc(keylist[..i], keylist[i]);
      SymbolsBitsAppend(KeylistSymbols(keylist[..i]), KeySymbols(keylist[i]));
      TakeSnoc(keylist, i);
    }
    assert keylist[..|keylist|] == keylist;
    out := writer.GetOutput();
  }

  /** The body of the loop of `compress`: the symbols of one key. */
  method PushKey(writer: BitWriter, key: Key)
    requires writer.Valid()
    modifies writer
    ensures writer.Valid()
    ensures writer.Stream() == old(writer.Stream()) + SymbolsBits(KeySymbols(key))
  {
    if key == NoOp {
      writer.PushBits(Hyphen as int + 256, 9);
      SymbolsBitsOne(Quoted(Hyphen));
    } else {
      PushText(writer, key);
      ghost var text := writer.Stream();
      writer.PushBits(0, 2);
      assert writer.Stream() == text + SymbolBits(End);
      SymbolsBitsSnoc(TextSymbols(key), End);
    }
  }

  /** The inner loop of `compress`: one symbol per byte of a string. */
  method PushText(writer: BitWriter, text: Key)
    requires writer.Valid()
    modifies writer
    ensures writer.Valid()
    ensures writer.Stream() == old(writer.Stream()) + SymbolsBits(TextSymbols(text))
  {
    ghost var start := writer.Stream();
    for j := 0 to |text|
      invariant writer.Valid()
      invariant writer.Stream() == start + SymbolsBits(TextSymbols(text[..j]))
    {
      PushByte(writer, text[j]);
      TextStep(start, text, j);
    }
    assert text[..|text|] == text;
  }

  /** One more byte of `text` pushed after the bits of the bytes before it. */
  lemma TextStep(start: seq<bool>, text: Key, j: nat)
    requires j < |text|
    ensures start + SymbolsBits(TextSymbols(text[..j])) + SymbolBits(ByteSymbol(text[j]))
         == start + SymbolsBits(TextSymbols(text[..j + 1]))
  {
    SymbolsBitsSnoc(TextSymbols(text[..j]), ByteSymbol(text[j]));
    TakeSnoc(text, j);
    TextSymbolsSnoc(text[..j], text[j]);
    AppendAssoc(start, SymbolsBits(TextSymbols(text[..j])), SymbolBits(ByteSymbol(text[j])));
  }

  /** The body of the inner loop of `compress`: the symbol of one byte. */
  method PushByte(writer: BitWriter, b: byte)
    requires writer.Valid()
    modifies writer
    ensures writer.Valid()
    ensures writer.Stream() == old(writer.Stream()) + SymbolBits(ByteSymbol(b))
  {
    if b == Hyphen {
      writer.PushBits(1, 2);
    } else {
      assert Pow2(9) == 512;
      writer.PushBits(b as int + 256, 9);
    }
  }

  lemma {:induction false} KeylistSymbolsSnoc(ks: seq<Key>, k: Key)
    ensures KeylistSymbols(ks + [k]) == KeylistSymbols(ks) + KeySymbols(k)
  {
    if ks == [] {
      assert KeylistSymbols([k]) == KeySymbols(k) + KeylistSymbols([]);
    } else {
      assert (ks + [k])[0] == ks[0] && (ks + [k])[1..] == ks[1..] + [k];
      KeylistSymbolsSnoc(ks[1..], k);
    }
  }

  /**
   * Reads the symbols from `buffer` until `numKeys` keys are complete.  A read
   * past the end of the input, or a "no-op" inside a string, is an error.
   */
  method Decompress(buffer: seq<byte>, numKeys: int) returns (r: Result<seq<Key>>)
    ensures r == DecodeKeys(BytesToBits(buffer + [0]), [], [], numKeys)
    ensures r.Ok? ==> |r.value| == Max(0, numKeys)
  {
    ghost var input := BytesToBits(buffer + [0]);
    DecodeKeysGrows(input, [], [], numKeys);
    var reader := new BitReader(buffer);
    var keylist: seq<Key> := [];
    var current: Key := [];
    while |keylist| < numKeys
      invariant reader.Valid()
      invariant DecodeKeys(reader.Unread(), keylist, current, numKeys) == DecodeKeys(input, [], [], numKeys)
      decreases |reader.Unread()|
    {
      var symbol := ReadSymbol(reader);
      if symbol.Err? {
        return Err(symbol.error);
      }
      match symbol.value
      case Quoted(b) =>
        if b == Hyphen {
          if current != [] {
            return Err(NoOpInsideString);
          }
          keylist := keylist + [NoOp];
        } else {
          current := current + [b];
        }
      case End =>
        keylist := keylist + [current];
        current := [];
      case Dash =>
        current := current + [Hyphen];
    }
    return Ok(keylist);
  }

  /** Decoding a stream that starts with the bits of symbol `s`. */
  lemma DecodeStep(s: Symbol, tail: seq<bool>, keys: seq<Key>, cur: Key, numKeys: int)
    requires tail != [] && |keys| < numKeys
    ensures var a := Apply(s, keys, cur);
      DecodeKeys(SymbolBits(s) + tail, keys, cur, numKeys)
      == if a.Err? then Err(a.error) else DecodeKeys(tail, a.value.0, a.value.1, numKeys)
  {
    NextSymbolBits(s, tail);
    assert (SymbolBits(s) + tail)[SymbolGroup(s).1..] == tail;
  }

  /** The bytes of a string other than "no-op", then `rest`, decode into `cur`. */
  lemma {:induction false} TextRoundTrip(t: Key, rest: seq<bool>, keys: seq<Key>, cur: Key, numKeys: int)
    requires rest != [] && |keys| < numKeys
    ensures DecodeKeys(SymbolsBits(TextSymbols(t)) + rest, keys, cur, numKeys)
         == DecodeKeys(rest, keys, cur + t, numKeys)
  {
    if t == [] {
      assert SymbolsBits(TextSymbols(t)) + rest == rest && cur + t == cur;
    } else {
      var s := ByteSymbol(t[0]);
      var tail := SymbolsBits(TextSymbols(t[1..])) + rest;
      assert TextSymbols(t)[0] == s && TextSymbols(t)[1..] == TextSymbols(t[1..]);
      assert SymbolsBits(TextSymbols(t)) + rest == SymbolBits(s) + tail;
      DecodeStep(s, tail, keys, cur, numKeys);
      assert Apply(s, keys, cur) == Ok((keys, cur + [t[0]]));
      TextRoundTrip(t[1..], rest, keys, cur + [t[0]], numKeys);
      AppendHead(cur, t);
    }
  }

  /** One key, then `rest`, decodes as that key. */
  lemma KeyRoundTrip(k: Key, rest: seq<bool>, keys: seq<Key>, numKeys: int)
    requires rest != [] && |keys| < numKeys
    ensures DecodeKeys(SymbolsBits(KeySymbols(k)) + rest, keys, [], numKeys)
         == DecodeKeys(rest, keys + [k], [], numKeys)
  {
    if k == NoOp {
      SymbolsBitsOne(Quoted(Hyphen));
      DecodeStep(Quoted(Hyphen), rest, keys, [], numKeys);
    } else {
      var endRest := SymbolBits(End) + rest;
      SymbolsBitsSnoc(TextSymbols(k), End);
      assert SymbolsBits(KeySymbols(k)) + rest == SymbolsBits(TextSymbols(k)) + endRest;
      TextRoundTrip(k, endRest, keys, [], numKeys);
      DecodeStep(End, rest, keys, [] + k, numKeys);
      assert [] + k == k;
    }
  }

  /**
   * The round trip `decompress(compress(keylist), len(keylist)) == keylist`,
   * on the bit stream: whatever follows the encoded keys, as long as it is at
   * least one bit, the keys decode back.
   */
  lemma {:induction false} KeylistRoundTrip(ks: seq<Key>, rest: seq<bool>, keys: seq<Key>, numKeys: int)
    requires rest != [] && numKeys == |keys| + |ks|
    ensures DecodeKeys(EncodeKeylist(ks) + rest, keys, [], numKeys) == Ok(keys + ks)
  {
    if ks == [] {
      assert keys + ks == keys;
    } else {
      var tail := EncodeKeylist(ks[1..]) + rest;
      EncodeKeylistCons(ks, rest);
      KeyRoundTrip(ks[0], tail, keys, numKeys);
      KeylistRoundTrip(ks[1..], rest, keys + [ks[0]], numKeys);
      AppendHead(keys, ks);
    }
  }

  lemma EncodeKeylistCons(ks: seq<Key>, rest: seq<bool>)
    requires ks != []
    ensures EncodeKeylist(ks) + rest == SymbolsBits(KeySymbols(ks[0])) + (EncodeKeylist(ks[1..]) + rest)
  {
    assert KeylistSymbols(ks) == KeySymbols(ks[0]) + KeylistSymbols(ks[1..]);
    SymbolsBitsAppend(KeySymbols(ks[0]), KeylistSymbols(ks[1..]));
    AppendAssoc(SymbolsBits(KeySymbols(ks[0])), EncodeKeylist(ks[1..]), rest);
  }

  /** A string's own symbols hold neither a quoted `-` nor an `End`. */
  lemma {:induction false} TextSymbolsNoMarkers(t: Key)
    ensures Quoted(Hyphen) !in TextSymbols(t) && End !in TextSymbols(t)
  {
    if t != [] {
      TextSymbolsNoMarkers(t[1..]);
    }
  }

  /** The quoted `-` appears in the code of a key exactly when it is "no-op". */
  lemma NoOpSentinel(k: Key)
    ensures Quoted(Hyphen) in KeySymbols(k) <==> k == NoOp
  {
    TextSymbolsNoMarkers(k);
  }

  /** A "no-op" inside a key list's code is always at a key boundary. */
  lemma {:induction false} KeylistNoOps(ks: seq<Key>)
    ensures Quoted(Hyphen) in KeylistSymbols(ks) <==> NoOp in ks
  {
    if ks != [] {
      NoOpSentinel(ks[0]);
      KeylistNoOps(ks[1..]);
      assert ks == [ks[0]] + ks[1..];
    }
  }

  /** Any output that `Compress` may give decompresses back to the keys. */
  lemma CompressedRoundTrip(ks: seq<Key>, out: seq<byte>)
    requires |EncodeKeylist(ks)| <= 8 * |out|
    requires BytesToBits(out) == EncodeKeylist(ks) + Zeros(8 * |out| - |EncodeKeylist(ks)|)
    ensures DecodeKeys(BytesToBits(out + [0]), [], [], |ks|) == Ok(ks)
  {
    var e := EncodeKeylist(ks);
    PaddedOutput(out, e, 8 * |out| - |e|);
    var input := BytesToBits(out + [0]);
    var rest := input[|e|..];
    assert input == e + rest;
    KeylistRoundTrip(ks, rest, [], |ks|);
    assert [] + ks == ks;
  }

  /** The final check of the source's main block, on the real methods. */
  method CheckKeylist(keylist: seq<Key>) returns (r: Result<seq<Key>>)
    ensures r == Ok(keylist)
  {
    var out := Compress(keylist);
    CompressedRoundTrip(keylist, out);
    r := Decompress(out, |keylist|);
  }
}
