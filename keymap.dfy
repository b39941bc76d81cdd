/**
 * The helpers of keymap-compressor.py that turn a keymap into the inputs of
 * the two codecs, and the checks its main block makes on them.  A keymap is
 * an ordered dictionary from an action string to the list of key strings
 * bound to it; here it is the sequence of its items, in dictionary order.
 */
module Keymap {
  import opened Bits
  import opened BitStream
  import opened Symbols
  import opened KeylistCodec
  import opened TestMode

  type Keymap = seq<(Key, seq<Key>)>

  /** `[action] * n` */
  function Repeat(action: Key, n: nat): (r: seq<Key>)
    ensures |r| == n && forall i :: 0 <= i < n ==> r[i] == action
  {
    seq(n, _ => action)
  }

  /** Every action, once for each key bound to it, in dictionary order. */
  function Actions(keymap: Keymap): (actions: seq<Key>)
  {
    if keymap == [] then []
    else
      var last := keymap[|keymap| - 1];
      Actions(keymap[..|keymap| - 1]) + Repeat(last.0, |last.1|)
  }

  /** `sep.join(xs)` */
  function Join(xs: seq<Key>, sep: byte): (s: seq<byte>)
  {
    if xs == [] then []
    else if |xs| == 1 then xs[0]
    else xs[0] + [sep] + Join(xs[1..], sep)
  }

  /** Every string followed by `;`: what the test string is meant to be. */
  function Terminated(xs: seq<Key>): (s: seq<byte>)
  {
    if xs == [] then [] else xs[0] + [Semicolon] + Terminated(xs[1..])
  }

  /** `turn_keymap_into_test_keylist` */
  method TestKeylist(keymap: Keymap) returns (actions: seq<Key>)
    ensures actions == Actions(keymap)
  {
    actions := [];
    for i := 0 to |keymap|
      invariant actions == Actions(keymap[..i])
    {
      var (action, keys) := keymap[i];
      actions := actions + Repeat(action, |keys|);
      TakeSnoc(keymap, i);
      assert keymap[..i + 1][..i] == keymap[..i];
    }
    assert keymap[..|keymap|] == keymap;
  }

  /** `turn_keymap_into_test_string` */
  method TestString(keymap: Keymap) returns (s: seq<byte>)
    ensures s == Join(Actions(keymap), Semicolon) + [Semicolon]
  {
    var actions := TestKeylist(keymap);
    s := Join(actions, Semicolon) + [Semicolon];
  }

  /** An action is listed exactly when at least one key is bound to it. */
  lemma {:induction false} ActionsListed(keymap: Keymap, a: Key)
    ensures a in Actions(keymap) <==> exists i :: 0 <= i < |keymap| && keymap[i].0 == a && keymap[i].1 != []
    decreases |keymap|
  {
    if keymap != [] {
      var init := keymap[..|keymap| - 1];
      var last := keymap[|keymap| - 1];
      ActionsListed(init, a);
      var copies := Repeat(last.0, |last.1|);
      if last.1 != [] {
        assert copies[0] == last.0;
      }
      assert a in copies <==> last.0 == a && last.1 != [];
      if exists i :: 0 <= i < |keymap| && keymap[i].0 == a && keymap[i].1 != [] {
        var i :| 0 <= i < |keymap| && keymap[i].0 == a && keymap[i].1 != [];
        if i < |keymap| - 1 {
          assert init[i] == keymap[i];
        }
      }
      if exists i :: 0 <= i < |init| && init[i].0 == a && init[i].1 != [] {
        var i :| 0 <= i < |init| && init[i].0 == a && init[i].1 != [];
        assert keymap[i] == init[i];
      }
    }
  }

  /**
   * Joining with `;` and adding one more `;` terminates every string, except
   * that an empty list gives a lone `;`.
   */
  lemma {:induction false} JoinTerminated(xs: seq<Key>)
    ensures Join(xs, Semicolon) + [Semicolon] == if xs == [] then [Semicolon] else Terminated(xs)
  {
    if |xs| == 1 {
      assert xs[1..] == [];
    } else if |xs| > 1 {
      JoinTerminated(xs[1..]);
      AppendAssoc(xs[0] + [Semicolon], Join(xs[1..], Semicolon), [Semicolon]);
    }
  }

  /** No string of `xs` holds the byte `b`. */
  ghost predicate NoneHolds(xs: seq<Key>, b: byte)
  {
    forall i :: 0 <= i < |xs| ==> b !in xs[i]
  }

  lemma {:induction false} TerminatedLacks(xs: seq<Key>, b: byte)
    requires NoneHolds(xs, b) && b != Semicolon
    ensures b !in Terminated(xs)
  {
    if xs != [] {
      TerminatedLacks(xs[1..], b);
    }
  }

  lemma {:induction false} ActionsLack(keymap: Keymap, b: byte)
    requires forall i :: 0 <= i < |keymap| ==> b !in keymap[i].0
    ensures NoneHolds(Actions(keymap), b)
    decreases |keymap|
  {
    if keymap != [] {
      ActionsLack(keymap[..|keymap| - 1], b);
    }
  }

  /**
   * When no action is "no-op" or holds a `;`, the test string is written as
   * the same symbols as the key list, then the end marker.
   */
  lemma {:induction false} SameSymbols(xs: seq<Key>)
    requires NoneHolds(xs, Semicolon) && NoOp !in xs
    ensures TestTextSymbols(Terminated(xs)) == KeylistSymbols(xs)
  {
    if xs != [] {
      var k := xs[0];
      SameText(k);
      TestTextSymbolsAppend(k, [Semicolon]);
      assert TestTextSymbols([Semicolon]) == [End];
      TestTextSymbolsAppend(k + [Semicolon], Terminated(xs[1..]));
      SameSymbols(xs[1..]);
    }
  }

  /** Without `;`, both codecs give a string's bytes the same symbols. */
  lemma {:induction false} SameText(t: Key)
    requires Semicolon !in t
    ensures TestTextSymbols(t) == TextSymbols(t)
  {
    if t != [] {
      SameText(t[1..]);
    }
  }

  /**
   * For a keymap with at least one key, no "no-op" action and no `;` in an
   * action, the two encodings differ only in the end marker of the test
   * string: the test string costs exactly nine bits more than the key list.
   */
  lemma TestStringEncoding(keymap: Keymap)
    requires Actions(keymap) != []
    requires NoneHolds(Actions(keymap), Semicolon) && NoOp !in Actions(keymap)
    ensures EncodeTestString(Join(Actions(keymap), Semicolon) + [Semicolon])
         == EncodeKeylist(Actions(keymap)) + SymbolBits(Quoted(0))
  {
    var xs := Actions(keymap);
    JoinTerminated(xs);
    SameSymbols(xs);
    SymbolsBitsSnoc(KeylistSymbols(xs), Quoted(0));
  }

  /**
   * The checks of the main block of the source for one keymap, on the real
   * methods: both round trips succeed when no action holds a zero byte.
   */
  method CheckKeymap(keymap: Keymap) returns (text: Result<seq<byte>>, keys: Result<seq<Key>>)
    requires forall i :: 0 <= i < |keymap| ==> 0 !in keymap[i].0
    ensures text.Ok? && keys.Ok?
    ensures text.value == Join(Actions(keymap), Semicolon) + [Semicolon]
    ensures keys.value == Actions(keymap)
  {
    var s := TestString(keymap);
    var keylist := TestKeylist(keymap);
    ActionsLack(keymap, 0);
    JoinTerminated(keylist);
    if keylist != [] {
      TerminatedLacks(keylist, 0);
    }
    text := CheckTestString(s);
    keys := CheckKeylist(keylist);
  }
}
