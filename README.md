# keymap-compressor in Dafny

A model of `keymap-compressor.py`, the compressor behind the steno HID
experiment for Plover. It packs the action strings of a keymap into a compact
bit stream, so that a keyboard's firmware can hold the key list.
The model has these parts:

- `bits.dfy` (module `Bits`) holds the arithmetic the bit streams rest on.
  - Numbers are rendered as fixed-width bit sequences, most significant bit first (`ToBits`, `FromBits`).
  - Python's `<<`, `>>` and `& ((1 << k) - 1)` are modelled as `Shl`, `Shr` and `Mask`.
  - `BytesToBits` gives the bits of a byte buffer.
  - The lemmas relate all of these.
- `bitstream.dfy` (module `BitStream`) holds the `BitWriter` and `BitReader` classes.
  - They keep the source's fields and update them in place.
  - Each class exposes its logical stream as a ghost function. `BitWriter.Stream()` is every bit pushed so far. `BitReader.Unread()` is every bit of the zero-padded input not read yet.
  - `push_bits` and `read_bits` are proved against these functions.
  - `test_bitstreams` is proved for every sequence of groups.
- `symbols.dfy` (module `Symbols`) holds the three code words both string codecs use:
  - `00` is the end of a string (`End`, or `;` in test mode);
  - `01` is a `-` byte (`Dash`);
  - `1` followed by eight bits is a quoted byte (`Quoted`).
  - It also defines the decoder's view of the next symbol in a bit stream (`NextSymbol`) and the method that reads one symbol (`ReadSymbol`).
- `keylist_codec.dfy` (module `KeylistCodec`) holds `compress` and `decompress`.
  - This is the production format: a list of key strings.
  - The string `"no-op"` is written as the quoted `-` byte, because a literal `-` always uses the short code word.
  - Both methods are proved against the specification functions `EncodeKeylist` and `DecodeKeys`.
  - The lemmas prove the round trip for every key list.
- `test_mode.dfy` (module `TestMode`) holds `compress_test_mode` and `decompress_test_mode`.
  - This format writes a single `;`-separated string and ends it with a quoted zero byte.
  - The lemmas prove its round trip exactly for the strings without a zero byte.
- `keymap.dfy` (module `Keymap`) holds `turn_keymap_into_test_string` and `turn_keymap_into_test_keylist`, plus the two checks the main block of the script makes for every keymap.

Modelling choices:

- A Python string is modelled as its UTF-8 bytes (`seq<byte>`).
  - `encode("utf-8")` and `decode("utf-8")` are therefore the identity.
  - The constant `"no-op"` is the byte sequence `NoOp`.
- The source raises exceptions on bad input. The model returns them as values of `Result`:
  - `StopIteration`, raised when the reader loads a byte past its padded input, becomes `Err(Exhausted)`;
  - the `AssertionError` at `keymap-compressor.py:178`, raised for a no-op inside a half-built string, becomes `Err(NoOpInsideString)`.
- The `assert` at `keymap-compressor.py:57` becomes a precondition of `PushBits`.
- Python's `|` is only ever applied to numbers whose set bits do not overlap, so it is modelled as `+`.
  - Example: `b | (1 << 8)` with `b < 256` is `b + 256`.
- The reader's iterator over `buffer + bytes([0])` is the constant `source` together with an index `nextIndex` into it.
  - The reader also keeps the bits of `source` in the ghost constant `sourceBits`. Its invariant states, byte by byte, that these are the bits of `source`.
- Some loops run inside one function in the source but are separate methods here, each with its own contract:
  - `push_bits` is split into `FillOpenByte`, `EmitWholeBytes` and `PlaceInOpenByte`;
  - `read_bits` is split into `ReadLeadingBytes` (which calls `DrainOpenByte` and `ReadWholeBytes`, whose loop body is `ReadOneByte`) and `ReadRest`;
  - the two loops of `test_bitstreams` are `PushGroups` and `ReadGroups`, and one read of the second is `ReadGroup`;
  - the loops of `compress` are `PushKey`, `PushText` and `PushByte`.
- Both decoders in the source read a symbol with inline `read_bits` calls. The model does that once, in `ReadSymbol`.
- A read fails when it would load a byte past the zero pad byte.
  - `read_bits` loads the next byte as soon as the open one is drained, so a read that ends exactly on the last bit of the pad byte fails too.
  - A read of `n` bits therefore succeeds exactly when more than `n` bits are unread (`BitReader.ReadBits`).
  - The comment at keymap-compressor.py:8-9 states this: when the last byte is used fully, `StopIteration` is raised even though the read is allowed.

## Model

| member | source | states |
|---|---|---|
| BitStream.BitWriter.constructor | keymap-compressor.py:50-53 | A fresh writer is valid, with an empty buffer, an empty open byte and an empty stream. |
| BitStream.BitWriter.PushBits | keymap-compressor.py:55-95 | Requires `number < 2^numBits`. It keeps the writer valid (`1 <= bits_left_to_fill <= 8`, and the open byte holds only its filled bits) and appends exactly the `numBits`-bit MSB-first rendering of `number` to the stream. |
| BitStream.BitWriter.FillOpenByte | keymap-compressor.py:62-69 | Completing the open byte with the top bits of the number and emitting it does not change the stream plus the bits still to push. The open byte is left empty. |
| BitStream.BitWriter.EmitWholeBytes | keymap-compressor.py:73-78 | Emitting whole bytes from the top of the number does not change the stream plus the bits still to push. Fewer than 8 bits are left afterwards. |
| BitStream.BitWriter.PlaceInOpenByte | keymap-compressor.py:88-92 | Placing fewer bits than are free in the open byte appends exactly those bits to the stream. |
| BitStream.BitWriter.GetOutput | keymap-compressor.py:97-109 | The output is the stream padded with zero bits to whole bytes, with fewer than 8 pad bits. It extends the emitted buffer and leaves the writer unchanged. |
| BitStream.BitReader.constructor | keymap-compressor.py:6-14 | The reader walks `buffer + [0]`, starts with the first byte open and has read nothing. Its unread bits are those of `buffer + [0]`. |
| BitStream.BitReader.ReadBits | keymap-compressor.py:16-45 | The read succeeds exactly when more than `numBits` bits are unread, and fails with `Exhausted` otherwise. On success it returns the number the next `numBits` unread bits spell (below `2^numBits`) and consumes exactly those bits. |
| BitStream.BitReader.DrainOpenByte | keymap-compressor.py:20-26 | Returns the unread low bits of the open byte as a number and loads the next byte. It fails exactly when the open byte was the last byte of the padded input. |
| BitStream.BitReader.ReadLeadingBytes | keymap-compressor.py:18-32 | When the read reaches past the open byte, drains it and reads whole bytes. It succeeds exactly when more than `numBits` bits are unread. On success the result is the value of the bits consumed, and fewer bits than the open byte has left remain to be read. |
| BitStream.BitReader.ReadWholeBytes | keymap-compressor.py:28-32 | While at least 8 bits are wanted, appends whole bytes to the result. The result stays the value of all bits consumed so far, and fewer than 8 bits remain wanted. It fails only when a byte past the padded input would be needed. |
| BitStream.BitReader.ReadOneByte | keymap-compressor.py:29-32 | Appends the open byte to the result and loads the next byte: exactly 8 more bits are consumed. It fails exactly when the open byte was the last byte of the padded input. |
| BitStream.BitReader.ReadRest | keymap-compressor.py:34-43 | Appends the next `k` unread bits of the open byte, which has more than `k` left, to the result. Exactly `k` more bits are consumed. |
| BitStream.TestBitstreams | keymap-compressor.py:111-132 | For every sequence of `(number, width)` groups that fit their widths: pushing them into a writer and reading the same widths back from its output returns every number, in order. |
| BitStream.PushGroups | keymap-compressor.py:121-123 | The writer's stream grows by the bits of every group, in order. |
| BitStream.ReadGroups | keymap-compressor.py:125-132 | When the groups' bits are a strict prefix of the unread bits, reading their widths returns each group's number. |
| BitStream.ReadGroup | keymap-compressor.py:126-132 | When a group's bits are followed by more unread bits, reading its width returns its number and consumes exactly its bits. |
| BitStream.PaddedOutput | keymap-compressor.py:8-12 | The zero byte the reader appends makes everything the writer wrote a strict prefix of what the reader can read. |
| Symbols.SymbolGroup | keymap-compressor.py:150-157 | The group pushed for a symbol fits its width. The width is 9 exactly for a quoted byte and 2 otherwise. |
| Symbols.SymbolBitsSpelled | keymap-compressor.py:150-157 | `End` is written `00` and `Dash` is written `01`. A quoted byte is written `1` followed by its 8 bits. |
| Symbols.NextSymbol | keymap-compressor.py:169-192 | A decoded symbol's width is that of its code word, and fewer bits than are unread. Failure is always `Exhausted`. |
| Symbols.NextSymbolBits | keymap-compressor.py:169-192 | The code word of any symbol, followed by at least one more bit, decodes back to that symbol with its width. |
| Symbols.ReadSymbol | keymap-compressor.py:223-234 | Reading a symbol from a reader agrees with `NextSymbol` on its unread bits: same success, same symbol, and exactly the symbol's bits consumed. |
| KeylistCodec.Compress | keymap-compressor.py:135-159 | The output is the key list's encoding padded with zero bits to whole bytes, with fewer than 8 pad bits. |
| KeylistCodec.PushKey | keymap-compressor.py:141-157 | Pushing a key appends the bits of its symbols: the quoted `-` for "no-op", otherwise its bytes and then `End`. |
| KeylistCodec.PushText | keymap-compressor.py:150-154 | Pushing a string's bytes appends the bits of their symbols, in order. |
| KeylistCodec.PushByte | keymap-compressor.py:151-154 | `-` is pushed as `Dash`, and any other byte as that byte quoted. |
| KeylistCodec.Apply | keymap-compressor.py:170-192 | A decoded symbol fails exactly when it is the quoted `-` while a string is half built. The error is then `NoOpInsideString`. |
| KeylistCodec.DecodeKeysGrows | keymap-compressor.py:164-194 | The decoder only appends keys. A successful decode holds exactly `num_keys` keys, or the keys it started with when there are more of those. |
| KeylistCodec.Decompress | keymap-compressor.py:161-194 | The result is the specification decoder applied to the bits of `buffer + [0]`. On success it holds exactly `max(0, num_keys)` keys. |
| KeylistCodec.DecodeStep | keymap-compressor.py:169-192 | Decoding a stream that starts with a symbol's code word applies that symbol to the state, or stops with its error. |
| KeylistCodec.TextRoundTrip | keymap-compressor.py:150-154 | The symbols of a string's bytes decode to that string appended to the half-built one. |
| KeylistCodec.KeyRoundTrip | keymap-compressor.py:139-157 | The symbols of any key, followed by more bits, decode to that key appended to the key list. |
| KeylistCodec.KeylistRoundTrip | keymap-compressor.py:135-194 | The encoding of any key list, followed by at least one bit, decodes with the matching key count to the keys found so far plus that list. |
| KeylistCodec.TextSymbolsNoMarkers | keymap-compressor.py:150-154 | A string's bytes never produce the quoted `-` or `End`. |
| KeylistCodec.NoOpSentinel | keymap-compressor.py:141-145 | A key's symbols contain the quoted `-` exactly when the key is "no-op". |
| KeylistCodec.KeylistNoOps | keymap-compressor.py:139-157 | A key list's symbols contain the quoted `-` exactly when the list contains "no-op". |
| KeylistCodec.CompressedRoundTrip | keymap-compressor.py:273 | Any zero-padded whole-byte encoding of a key list decodes, with the list's length as the key count, back to the list. |
| KeylistCodec.CheckKeylist | keymap-compressor.py:273 | `decompress(compress(keylist), len(keylist))` returns the key list for every key list. |
| TestMode.CompressTestMode | keymap-compressor.py:196-214 | The output is the string's test-mode encoding, with the quoted zero byte at the end, padded with fewer than 8 zero bits to whole bytes. |
| TestMode.PushEndMarker | keymap-compressor.py:209 | The end marker `1 << 8` in 9 bits is the quoted zero byte. |
| TestMode.PushTestByte | keymap-compressor.py:200-206 | `;` is pushed as `End`, `-` as `Dash`, and any other byte as that byte quoted. |
| TestMode.DecompressTestMode | keymap-compressor.py:216-236 | The result is the specification decoder applied to the bits of `buffer + [0]`. |
| TestMode.DecodeTestStep | keymap-compressor.py:223-234 | Decoding a stream that starts with a symbol's code word appends that symbol's byte, or stops at the quoted zero byte. |
| TestMode.TestByteStep | keymap-compressor.py:223-234 | A nonzero byte's code word decodes back to that byte. |
| TestMode.TestTextRoundTrip | keymap-compressor.py:200-206 | The symbols of a string without zero bytes decode back to that string. |
| TestMode.DecodeTestNoZero | keymap-compressor.py:229-234 | The test-mode decoder never returns a zero byte. |
| TestMode.TestRoundTrip | keymap-compressor.py:196-236 | The test-mode encoding of a string, followed by at least one bit, decodes back to the string exactly when the string holds no zero byte. |
| TestMode.TestStopsAtZero | keymap-compressor.py:229-232 | A zero byte in the string ends decoding early, with the text before it. |
| TestMode.TestTextSymbolsAppend | keymap-compressor.py:200-206 | The test-mode symbols of a concatenation are the concatenation of the symbols. |
| TestMode.CheckTestString | keymap-compressor.py:268 | `decompress_test_mode(compress_test_mode(s))` returns `s` for every string without a zero byte. |
| Keymap.Repeat | keymap-compressor.py:244 | `[action] * n` holds `n` copies of the action. |
| Keymap.TestKeylist | keymap-compressor.py:248-255 | The key list is `Actions(keymap)`: each action once for each key bound to it, in dictionary order. |
| Keymap.TestString | keymap-compressor.py:239-246 | The test string is the actions joined by `;`, plus one more `;`. |
| Keymap.ActionsListed | keymap-compressor.py:243-244 | An action appears in the key list exactly when at least one key is bound to it. |
| Keymap.JoinTerminated | keymap-compressor.py:246 | The test string is every action followed by `;`. A keymap without keys gives a lone `;`. |
| Keymap.SameText | keymap-compressor.py:150-154 | Without `;`, both codecs give a string's bytes the same symbols. |
| Keymap.SameSymbols | keymap-compressor.py:200-206 | For actions without `;` and without "no-op", the test-mode symbols of the terminated actions are the key list's symbols. |
| Keymap.TestStringEncoding | keymap-compressor.py:265-268 | For such a keymap with at least one key, the test string's encoding is the key list's encoding followed by the 9-bit end marker. |
| Keymap.CheckKeymap | keymap-compressor.py:263-273 | For every keymap whose actions hold no zero byte, both checks of the main block succeed: the test string and the key list each survive their round trip. |

## Left out

- `test_bitstreams` draws its 10000 groups with `random`. `TestBitstreams` takes the groups as a parameter and is proved for every sequence of groups that fit their widths.
  - That includes the source's widths `1..64` and values up to `1 << (bits - 1)`.
- The main block's `print` calls and its float compression ratio are output only, and are not modelled.
- The main block iterates over `english_stenotype.KEYMAPS`, which comes from Plover and is not part of this model. `CheckKeymap` is proved for any keymap instead.
- UTF-8 encoding and decoding are not modelled, and strings are their bytes. `decode("utf-8")` raises on invalid byte sequences, and no such failure is modelled.
- After an error the model returns `Err` at once. The partly advanced state of the reader is not described, because the source abandons it by raising.
- `BitWriter.buffer` is a `bytearray` in the source and is modelled as a `seq<byte>` field that the methods reassign. `get_output` returns a copy in both branches, so no aliasing is lost.
- `plover_qmk/hiddev.py` and both `find_dev.py` files talk to the keyboard over HID and are not part of this model.
