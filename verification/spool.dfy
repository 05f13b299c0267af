/**
 The letter spool: the buffer of what the player has typed since the last
 clear key, one entry per keystroke, and the text it shows on screen.
 */
module Spool {
  import opened Keys

  /** One element per keystroke: the text that keystroke produced. An element
      may be empty or longer than one character. */
  type Buffer = seq<string>

  /** One key press as the spool sees it. */
  datatype Keystroke = Keystroke(key: Key, unicode: string)

  /** Python's `xs[:stop]`: a negative stop counts from the end, and the
      result is clamped to the list's bounds. */
  function PySliceTo<T>(xs: seq<T>, stop: int): (r: seq<T>)
    ensures |r| <= |xs|
    ensures r == xs[..|r|]
    ensures 0 <= stop <= |xs| ==> |r| == stop
    ensures stop >= |xs| ==> r == xs
    ensures -|xs| <= stop < 0 ==> |r| == |xs| + stop
    ensures stop < -|xs| ==> r == []
  {
    var s := if stop < 0 then stop + |xs| else stop;
    var e := if s < 0 then 0 else if s > |xs| then |xs| else s;
    xs[..e]
  }

  /** `spooled[:-1]`: the buffer without its last keystroke; an empty buffer
      stays empty. */
  function DropLast(b: Buffer): (r: Buffer)
    ensures |b| == 0 ==> r == []
    ensures |b| > 0 ==> |r| == |b| - 1 && b == r + [b[|b| - 1]]
  {
    PySliceTo(b, -1)
  }

  /** `LetterSpool.clear`: the buffer after a clear. */
  function Clear(): (r: Buffer)
    ensures |r| == 0
  {
    []
  }

  /** A key that the spool appends: neither a clear key nor Backspace. */
  predicate AppendsKey(k: Key) {
    !IsClearKey(k) && k != Backspace
  }

  /** `LetterSpool.handle_key`, buffer update only. */
  function HandleKey(b: Buffer, k: Key, unicode: string): (r: Buffer)
    // a clear key empties the buffer and adds nothing
    ensures IsClearKey(k) ==> r == []
    // Backspace removes exactly the last element, or leaves an empty buffer empty
    ensures k == Backspace && |b| == 0 ==> r == []
    ensures k == Backspace && |b| > 0 ==> r == b[..|b| - 1]
    // any other key appends its text and keeps what was there
    ensures AppendsKey(k) ==>
              |r| == |b| + 1 && r[..|b|] == b && r[|b|] == unicode
    // no key grows the buffer by more than one element
    ensures |r| <= |b| + 1
  {
    if IsClearKey(k) then Clear()
    else if k == Backspace then DropLast(b)
    else b + [unicode]
  }

  /** `''.join(spooled)`: the text the spool displays. */
  function Join(b: Buffer): (r: string)
  {
    if |b| == 0 then "" else b[0] + Join(b[1..])
  }

  /** Joining a buffer with one more keystroke appends that keystroke's text
      to the joined text. */
  lemma {:induction false} JoinAppend(b: Buffer, u: string)
    ensures Join(b + [u]) == Join(b) + u
  {
    if |b| == 0 {
      assert b + [u] == [u];
      assert Join([u]) == u + Join([]);
    } else {
      assert (b + [u])[1..] == b[1..] + [u];
      JoinAppend(b[1..], u);
    }
  }

  /** Joining distributes over buffer concatenation. */
  lemma {:induction false} JoinConcat(a: Buffer, c: Buffer)
    ensures Join(a + c) == Join(a) + Join(c)
  {
    if |a| == 0 {
      assert a + c == c;
    } else {
      assert (a + c)[1..] == a[1..] + c;
      JoinConcat(a[1..], c);
    }
  }

  /** After a clear key the buffer is empty, whatever it held before and
      whatever text the key carried. */
  lemma ClearKeyForgetsEverything(b1: Buffer, b2: Buffer, k: Key, u1: string, u2: string)
    requires IsClearKey(k)
    ensures HandleKey(b1, k, u1) == HandleKey(b2, k, u2) == []
    ensures Join(HandleKey(b1, k, u1)) == ""
  {
  }

  /** Typing a key that is neither a clear key nor Backspace extends the
      displayed text by exactly that key's text. */
  lemma {:induction false} TypingExtendsDisplay(b: Buffer, k: Key, u: string)
    requires AppendsKey(k)
    ensures Join(HandleKey(b, k, u)) == Join(b) + u
  {
    JoinAppend(b, u);
  }

  /** Backspace removes the last keystroke's text from the end of the
      displayed text, which may be more or fewer than one character. */
  lemma {:induction false} BackspaceShortensDisplay(b: Buffer, u: string)
    requires |b| > 0
    ensures Join(b) == Join(HandleKey(b, Backspace, u)) + b[|b| - 1]
  {
    var r := HandleKey(b, Backspace, u);
    assert b == r + [b[|b| - 1]];
    JoinAppend(r, b[|b| - 1]);
  }

  /** Appending a keystroke and then pressing Backspace restores the previous
      buffer, and so the previous display. */
  lemma TypeThenBackspaceRestores(b: Buffer, k: Key, u: string, u': string)
    requires AppendsKey(k)
    ensures HandleKey(HandleKey(b, k, u), Backspace, u') == b
  {
    var t := HandleKey(b, k, u);
    assert t[..|b|] == b;
  }

  /** The spool fed a sequence of keystrokes, one `handle_key` call each. */
  function Feed(b: Buffer, ks: seq<Keystroke>): (r: Buffer)
    decreases |ks|
  {
    if |ks| == 0 then b
    else Feed(HandleKey(b, ks[0].key, ks[0].unicode), ks[1..])
  }

  /** A keystroke that appends (neither a clear key nor Backspace). */
  predicate Appends(s: Keystroke) {
    AppendsKey(s.key)
  }

  /** The texts of a sequence of keystrokes, in order. */
  function Texts(ks: seq<Keystroke>): (r: Buffer)
    ensures |r| == |ks|
    ensures forall i :: 0 <= i < |ks| ==> r[i] == ks[i].unicode
    decreases |ks|
  {
    if |ks| == 0 then [] else [ks[0].unicode] + Texts(ks[1..])
  }

  /** Feeding two runs of keystrokes is feeding the first, then the second. */
  lemma {:induction false} FeedConcat(b: Buffer, ks1: seq<Keystroke>, ks2: seq<Keystroke>)
    ensures Feed(b, ks1 + ks2) == Feed(Feed(b, ks1), ks2)
    decreases |ks1|
  {
    if |ks1| > 0 {
      assert (ks1 + ks2)[0] == ks1[0];
      assert (ks1 + ks2)[1..] == ks1[1..] + ks2;
      FeedConcat(HandleKey(b, ks1[0].key, ks1[0].unicode), ks1[1..], ks2);
    } else {
      assert ks1 + ks2 == ks2;
    }
  }

  /** Typing a run of appending keystrokes adds their texts to the buffer in
      order, and the display grows by their concatenation. */
  lemma {:induction false} TypingAWord(b: Buffer, ks: seq<Keystroke>)
    requires forall i :: 0 <= i < |ks| ==> Appends(ks[i])
    ensures Feed(b, ks) == b + Texts(ks)
    ensures Join(Feed(b, ks)) == Join(b) + Join(Texts(ks))
    decreases |ks|
  {
    TypingAppendsTexts(b, ks);
    JoinConcat(b, Texts(ks));
  }

  /** A run of appending keystrokes adds their texts to the buffer in order. */
  lemma {:induction false} TypingAppendsTexts(b: Buffer, ks: seq<Keystroke>)
    requires forall i :: 0 <= i < |ks| ==> Appends(ks[i])
    ensures Feed(b, ks) == b + Texts(ks)
    decreases |ks|
  {
    if |ks| > 0 {
      FeedAppendingHead(b, ks);
      TypingAppendsTexts(b + [ks[0].unicode], ks[1..]);
      AppendHeadText(b, ks);
    }
  }

  /** One appending keystroke, then the rest of the run. */
  lemma FeedAppendingHead(b: Buffer, ks: seq<Keystroke>)
    requires forall i :: 0 <= i < |ks| ==> Appends(ks[i])
    requires |ks| > 0
    ensures Feed(b, ks) == Feed(b + [ks[0].unicode], ks[1..])
    ensures forall i :: 0 <= i < |ks[1..]| ==> Appends(ks[1..][i])
  {
    assert Appends(ks[0]);
  }

  /** Proof helper: the texts of a run, split after its first keystroke. */
  lemma AppendHeadText(b: Buffer, ks: seq<Keystroke>)
    requires |ks| > 0
    ensures b + Texts(ks) == (b + [ks[0].unicode]) + Texts(ks[1..])
  {
    var t := Texts(ks[1..]);
    assert Texts(ks) == [ks[0].unicode] + t;
    AppendAssoc(b, [ks[0].unicode], t);
  }

  /** Proof helper: sequence concatenation is associative. */
  lemma AppendAssoc<T>(a: seq<T>, c: seq<T>, d: seq<T>)
    ensures a + (c + d) == (a + c) + d
  {
  }

  /** A run ending in a clear key leaves the buffer empty, whatever came before. */
  lemma {:induction false} EndingWithClearEmpties(b: Buffer, ks: seq<Keystroke>)
    requires |ks| > 0 && IsClearKey(ks[|ks| - 1].key)
    ensures Feed(b, ks) == []
  {
    var n := |ks| - 1;
    assert ks == ks[..n] + [ks[n]];
    FeedConcat(b, ks[..n], [ks[n]]);
  }
}
