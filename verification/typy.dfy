/**
 The game object's event handling: the decision to leave the run loop, which
 events reach the letter spool, and the per-frame drain of pending events.
 */
module Typy {
  import opened Keys
  import opened Spool

  /** What handling events leaves behind: whether the run loop goes on, and
      the spool's buffer. */
  datatype Step = Step(continueRun: bool, spooled: Buffer)

  /** `Typy.should_exit`: a quit request, or Escape pressed. */
  predicate ShouldExit(e: Event)
  {
    e.Quit? || (e.KeyDown? && e.key == Escape)
  }

  /** `should_exit` answers a key press by its key alone, whatever text the
      key carried; a clear key or Backspace never exits, and an event that is
      neither a key press nor a quit request never exits. */
  lemma ShouldExitExactly(k: Key, u: string, n: nat)
    ensures ShouldExit(Quit)
    ensures ShouldExit(KeyDown(k, u)) <==> k == Escape
    ensures IsClearKey(k) || k == Backspace ==> !ShouldExit(KeyDown(k, u))
    ensures !ShouldExit(OtherEvent(n))
  {
  }

  /** `Typy.handle_event`: whether to continue the run loop, and the buffer
      after any key press forwarded to the spool. */
  function HandleEvent(b: Buffer, e: Event): (r: Step)
    // the loop stops exactly on an exiting event
    ensures !r.continueRun <==> ShouldExit(e)
    // an exiting event never reaches the spool
    ensures ShouldExit(e) ==> r.spooled == b
    // an event that is neither a key press nor a quit request changes nothing
    ensures e.OtherEvent? ==> r == Step(true, b)
    // every other key press is handed to the spool
    ensures e.KeyDown? && e.key != Escape ==> r.spooled == HandleKey(b, e.key, e.unicode)
  {
    if ShouldExit(e) then Step(false, b)
    else if e.KeyDown? then Step(true, HandleKey(b, e.key, e.unicode))
    else Step(true, b)
  }

  /** Escape is not a clear key, so the spool itself would append its text;
      the exit check before the spool keeps the buffer as it was. */
  lemma EscapeNeverReachesSpool(b: Buffer, u: string)
    ensures HandleEvent(b, KeyDown(Escape, u)) == Step(false, b)
    ensures HandleKey(b, Escape, u) == b + [u]
  {
  }

  /** Only a key press other than Escape can change the buffer. */
  lemma OnlyKeyPressesChangeBuffer(b: Buffer, e: Event)
    requires HandleEvent(b, e).spooled != b
    ensures e.KeyDown? && e.key != Escape && HandleEvent(b, e).continueRun
  {
  }

  /** The keystrokes the spool sees when every key press in `es` is handed
      to it, in order. */
  function Keystrokes(es: seq<Event>): (r: seq<Keystroke>)
  {
    if |es| == 0 then []
    else (if es[0].KeyDown? then [Keystroke(es[0].key, es[0].unicode)] else [])
         + Keystrokes(es[1..])
  }

  /** The key presses of two batches in turn are those of their concatenation. */
  lemma {:induction false} KeystrokesConcat(es1: seq<Event>, es2: seq<Event>)
    ensures Keystrokes(es1 + es2) == Keystrokes(es1) + Keystrokes(es2)
  {
    if |es1| == 0 {
      assert es1 + es2 == es2;
    } else {
      assert (es1 + es2)[0] == es1[0];
      assert (es1 + es2)[1..] == es1[1..] + es2;
      KeystrokesConcat(es1[1..], es2);
    }
  }

  /** The index of the first exiting event of a batch, or the batch's length
      when none exits. */
  function FirstExit(es: seq<Event>): (r: nat)
    ensures r <= |es|
    ensures forall j :: 0 <= j < r ==> !ShouldExit(es[j])
    ensures r < |es| ==> ShouldExit(es[r])
  {
    if |es| == 0 then 0
    else if ShouldExit(es[0]) then 0
    else 1 + FirstExit(es[1..])
  }

  /** The events of a batch that do not ask to exit, in order. */
  function NonExiting(es: seq<Event>): (r: seq<Event>)
    ensures |r| <= |es|
    ensures forall j :: 0 <= j < |r| ==> !ShouldExit(r[j])
    decreases |es|
  {
    if |es| == 0 then []
    else if ShouldExit(es[0]) then NonExiting(es[1..])
    else [es[0]] + NonExiting(es[1..])
  }

  /** `NonExiting` keeps exactly the events of the batch that do not exit. */
  lemma {:induction false} NonExitingKeepsTheRest(es: seq<Event>)
    ensures forall e :: e in NonExiting(es) <==> e in es && !ShouldExit(e)
    decreases |es|
  {
    if |es| > 0 {
      NonExitingKeepsTheRest(es[1..]);
      assert es == [es[0]] + es[1..];
    }
  }

  /** The per-frame drain as the run loop writes it: every pending event is
      handed to `HandleEvent` in turn and each answer overwrites `run`, so
      `run` keeps only the last event's answer, and every key press of the
      batch that does not exit reaches the spool, even after an exit. */
  function DrainAsWritten(b: Buffer, es: seq<Event>, run: bool): (r: Step)
    ensures |es| == 0 ==> r == Step(run, b)
    ensures |es| > 0 ==> (r.continueRun <==> !ShouldExit(es[|es| - 1]))
    ensures r.spooled == Feed(b, Keystrokes(NonExiting(es)))
    decreases |es|
  {
    if |es| == 0 then Step(run, b)
    else
      var s := HandleEvent(b, es[0]);
      var rest := DrainAsWritten(s.spooled, es[1..], s.continueRun);
      AsWrittenStep(b, es);
      rest
  }

  /** One unrolling of `NonExiting`, `Keystrokes` and `Feed` over the first
      event of a batch. */
  lemma AsWrittenStep(b: Buffer, es: seq<Event>)
    requires |es| > 0
    ensures Feed(b, Keystrokes(NonExiting(es)))
            == Feed(HandleEvent(b, es[0]).spooled, Keystrokes(NonExiting(es[1..])))
  {
    if !ShouldExit(es[0]) {
      var rest := NonExiting(es[1..]);
      KeystrokesConcat([es[0]], rest);
      assert Keystrokes([es[0]]) == (if es[0].KeyDown? then [Keystroke(es[0].key, es[0].unicode)] else []);
      FeedConcat(b, Keystrokes([es[0]]), Keystrokes(rest));
    }
  }

  /** With an Escape followed by a letter in one batch, the loop as written
      goes on running, and the letter still lands in the spool. The same
      happens when Escape is followed by any other event, such as the key's
      own release. */
  lemma AsWrittenLosesEscape()
    ensures DrainAsWritten([], [KeyDown(Escape, ""), KeyDown(OtherKey(97), "a")], true)
            == Step(true, ["a"])
    ensures DrainAsWritten([], [KeyDown(Escape, ""), OtherEvent(0)], true) == Step(true, [])
  {
    var es := [KeyDown(Escape, ""), KeyDown(OtherKey(97), "a")];
    assert es[1..] == [KeyDown(OtherKey(97), "a")];
    assert es[1..][1..] == [];
    var es' := [KeyDown(Escape, ""), OtherEvent(0)];
    assert es'[1..] == [OtherEvent(0)];
    assert es'[1..][1..] == [];
  }

  /** The drain as evidently intended: handle events in order and stop at the
      first exiting event, which leaves the rest of the batch unhandled. */
  function Drain(b: Buffer, es: seq<Event>): (r: Step)
    ensures r.continueRun <==> FirstExit(es) == |es|
    decreases |es|
  {
    if |es| == 0 then Step(true, b)
    else
      var s := HandleEvent(b, es[0]);
      if !s.continueRun then s
      else Drain(s.spooled, es[1..])
  }

  /** The intended drain leaves the buffer as the spool fed exactly the key
      presses before the batch's first exiting event. */
  lemma {:induction false} DrainFeedsKeyPressesBeforeExit(b: Buffer, es: seq<Event>)
    ensures Drain(b, es).spooled == Feed(b, Keystrokes(es[..FirstExit(es)]))
    decreases |es|
  {
    if |es| > 0 && !ShouldExit(es[0]) {
      DrainFeedsKeyPressesBeforeExit(HandleEvent(b, es[0]).spooled, es[1..]);
      DrainStep(b, es);
    } else if |es| == 0 {
      assert es[..0] == [];
    }
  }

  /** One unrolling of `Keystrokes` and `Feed` over a non-exiting first event. */
  lemma DrainStep(b: Buffer, es: seq<Event>)
    requires |es| > 0 && !ShouldExit(es[0])
    ensures Feed(b, Keystrokes(es[..FirstExit(es)]))
            == Feed(HandleEvent(b, es[0]).spooled, Keystrokes(es[1..][..FirstExit(es[1..])]))
  {
    var n := FirstExit(es);
    assert es[..n] == [es[0]] + es[1..][..n - 1];
    KeystrokesConcat([es[0]], es[1..][..n - 1]);
    assert Keystrokes([es[0]]) == (if es[0].KeyDown? then [Keystroke(es[0].key, es[0].unicode)] else []);
    FeedConcat(b, Keystrokes([es[0]]), Keystrokes(es[1..][..n - 1]));
  }

  /** Where a batch holds no exiting event, or its only exiting event comes
      last, the loop as written and the intended drain agree. */
  lemma {:induction false} AsWrittenAgreesUnlessExitIsFollowed(b: Buffer, es: seq<Event>)
    requires FirstExit(es) >= |es| - 1
    ensures DrainAsWritten(b, es, true) == Drain(b, es)
    decreases |es|
  {
    DrainFeedsKeyPressesBeforeExit(b, es);
    if |es| > 0 {
      var s := HandleEvent(b, es[0]);
      if ShouldExit(es[0]) {
        assert |es| == 1;
        assert es[1..] == [];
      } else {
        assert FirstExit(es[1..]) >= |es[1..]| - 1;
        AsWrittenAgreesUnlessExitIsFollowed(s.spooled, es[1..]);
      }
    }
  }

  /** The general form of the lost exit: when an exiting event is followed
      later in its batch and the batch ends with a non-exiting event, the loop
      as written goes on running while the intended drain stops. */
  lemma AsWrittenMissesEarlyExit(b: Buffer, es: seq<Event>)
    requires FirstExit(es) < |es| - 1 && !ShouldExit(es[|es| - 1])
    ensures DrainAsWritten(b, es, true).continueRun
    ensures !Drain(b, es).continueRun
  {
  }

  /** Draining two batches one after the other is draining their
      concatenation: the second batch is handled only when the first did not
      exit. */
  lemma {:induction false} DrainConcat(b: Buffer, es1: seq<Event>, es2: seq<Event>)
    ensures Drain(b, es1).continueRun ==>
              Drain(b, es1 + es2) == Drain(Drain(b, es1).spooled, es2)
    ensures !Drain(b, es1).continueRun ==> Drain(b, es1 + es2) == Drain(b, es1)
    decreases |es1|
  {
    if |es1| == 0 {
      assert es1 + es2 == es2;
    } else {
      assert (es1 + es2)[0] == es1[0];
      assert (es1 + es2)[1..] == es1[1..] + es2;
      var s := HandleEvent(b, es1[0]);
      if s.continueRun {
        DrainConcat(s.spooled, es1[1..], es2);
      }
    }
  }

  /** Feeding the key presses of one more non-exiting event of the batch is
      handling that event. */
  lemma FeedOneMore(b: Buffer, es: seq<Event>, i: nat)
    requires i < |es| && !ShouldExit(es[i])
    ensures Feed(b, Keystrokes(es[..i + 1]))
            == HandleEvent(Feed(b, Keystrokes(es[..i])), es[i]).spooled
  {
    assert es[..i + 1] == es[..i] + [es[i]];
    KeystrokesConcat(es[..i], [es[i]]);
    assert Keystrokes([es[i]]) == (if es[i].KeyDown? then [Keystroke(es[i].key, es[i].unicode)] else []);
    FeedConcat(b, Keystrokes(es[..i]), Keystrokes([es[i]]));
  }

  /** The intended drain as a loop that leaves at the first exiting event. */
  method DrainEvents(b: Buffer, es: seq<Event>) returns (run: bool, spooled: Buffer)
    ensures run <==> forall j :: 0 <= j < |es| ==> !ShouldExit(es[j])
    ensures spooled == Feed(b, Keystrokes(es[..FirstExit(es)]))
    ensures run == Drain(b, es).continueRun && spooled == Drain(b, es).spooled
  {
    DrainFeedsKeyPressesBeforeExit(b, es);
    spooled := b;
    var i := 0;
    while i < |es|
      invariant 0 <= i <= FirstExit(es)
      invariant spooled == Feed(b, Keystrokes(es[..i]))
    {
      var s := HandleEvent(spooled, es[i]);
      if !s.continueRun {
        return false, spooled;
      }
      FeedOneMore(b, es, i);
      spooled := s.spooled;
      i := i + 1;
    }
    return true, spooled;
  }
}
