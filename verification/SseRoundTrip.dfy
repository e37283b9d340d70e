/** Exactly which lists of events come back as they were written. */
module SseRoundTrip {
  import opened Wrappers
  import opened Framing
  import opened SsePayload
  import opened SseResync

  function Text(ev: Event): bytes {
    match ev case Data(d) => d case Done => DONE_MARK
  }

  lemma DoneMarkIsOneLine()
    ensures LF !in DONE_MARK
  {
  }

  /** A line feed left over from the event before, or nothing. */
  predicate LeftOver(pre: bytes) {
    pre == [] || pre == [LF]
  }

  /** An empty line ahead of a body changes nothing. */
  lemma LeadingLineFeed(body: bytes)
    ensures Payload([LF] + body) == Payload(body)
  {
    assert ([LF] + body)[1..] == body;
    var r := SplitLines(body);
    assert SplitLines([LF] + body) == [[]] + r;
    assert ([[]] + r)[1..] == r;
    assert FieldOf([]) == [] && [] + Values(r) == Values(r);
  }

  /** What an event with a one-line text leaves on the wire is one frame, even after a left-over line feed. */
  lemma OneLineFrames(pre: bytes, ev: Event)
    requires LeftOver(pre) && LF !in Text(ev)
    ensures Frames(pre + Encode(ev)) == [Frame(pre + FrameFor(ev).body, [LF, LF])]
  {
    var f := Frame(pre + FrameFor(ev).body, [LF, LF]);
    BodyHoldsNoLf(Text(ev));
    OneLineIsWellCut(pre, FrameFor(ev).body);
    FramesUnique([f], []);
    assert Wires([f]) + [] == f.Wire();
    Assoc(pre, FrameFor(ev).body, [LF, LF]);
  }

  lemma OneLineIsWellCut(pre: bytes, body: bytes)
    requires LeftOver(pre) && LF !in body && |body| > 0 && body[0] != CR
    ensures WellCut(Frame(pre + body, [LF, LF]))
  {
    var w := pre + body + [LF, LF];
    forall j: nat | j < |pre + body|
      ensures TerminatorAt(w, j) == 0
    {
      assert w[|pre|] == body[0];
      assert j >= |pre| ==> w[j] == body[j - |pre|];
    }
  }

  lemma OneLinePayload(pre: bytes, ev: Event)
    requires LeftOver(pre) && LF !in Text(ev)
    ensures Payload(pre + FrameFor(ev).body) == StripCr(Text(ev))
  {
    PayloadOfEncoded(Text(ev));
    assert FrameFor(ev).body == DATA_FIELD + [SPACE] + Text(ev);
    if pre == [] {
      assert pre + FrameFor(ev).body == FrameFor(ev).body;
    } else {
      LeadingLineFeed(FrameFor(ev).body);
    }
  }

  /** A payload with a line feed comes from a text with one, and a longer one. */
  lemma LineFeedsNeedRoom(pre: bytes, ev: Event, f: Frame)
    requires LeftOver(pre) && f in Frames(pre + Encode(ev)) && LF in Payload(f.body)
    ensures LF in Text(ev) && |Payload(f.body)| < |Text(ev)|
  {
    if LF !in Text(ev) {
      OneLineFrames(pre, ev);
      OneLinePayload(pre, ev);
    }
    var x := pre + Encode(ev);
    FrameAtMost(x, f);
    LineFeedCostsTenBytes(f.body);
    assert |x| == |pre| + 6 + |Text(ev)| + 2;
  }

  lemma FrameAtMost(s: bytes, f: Frame)
    requires f in Frames(s)
    ensures |f.body| + 2 <= |s|
  {
    FramesLossless(s);
    FramesWellCut(s);
    FrameInWires(Frames(s), f);
  }

  lemma {:induction false} FrameInWires(fs: seq<Frame>, f: Frame)
    requires f in fs
    ensures |f.Wire()| <= |Wires(fs)|
  {
    if fs[0] != f {
      FrameInWires(fs[1..], f);
    }
  }

  /** At most a line feed is left over after an event's own terminator. */
  lemma LittleIsLeftOver(pre: bytes, ev: Event)
    ensures LeftOver(Rest(pre + Encode(ev)))
  {
    var x := pre + Encode(ev);
    FramesLossless(x);
    EndOfTwoLineFeeds(Wires(Frames(x)), Rest(x), x);
  }

  lemma EndOfTwoLineFeeds(w: bytes, r: bytes, x: bytes)
    requires x == w + r && |x| >= 2 && x[|x| - 1] == LF && x[|x| - 2] == LF
    ensures Unterminated(r) ==> LeftOver(r)
  {
    if |r| >= 2 {
      assert r[|r| - 1] == LF && r[|r| - 2] == LF;
      assert TerminatorAt(r, |r| - 2) == 2;
    } else if |r| == 1 {
      assert r[0] == LF;
    }
  }

  /** Some text of the list holds a line feed and is longer than `n`. */
  ghost predicate LongerLines(events: seq<Event>, n: nat) {
    exists ev :: ev in events && LF in Text(ev) && n < |Text(ev)|
  }

  /** Every payload with a line feed that is read back comes from a longer one that was written. */
  lemma {:induction false} ReadLinesAreShorter(pre: bytes, events: seq<Event>, f: Frame)
    requires LeftOver(pre) && f in Frames(pre + EncodeAll(events)) && LF in Payload(f.body)
    ensures LongerLines(events, |Payload(f.body)|)
    decreases |events|
  {
    if events == [] {
      FrameAtMost(pre + EncodeAll(events), f);
    } else {
      var t := FirstOrLater(pre, events, f);
      if f in Frames(pre + Encode(events[0])) {
        LineFeedsNeedRoom(pre, events[0], f);
        assert events[0] in events;
      } else {
        ReadLinesAreShorter(t, events[1..], f);
        LongerLinesLater(events, |Payload(f.body)|);
      }
    }
  }

  /** A frame of the stream comes from its first event or from what that leaves over and the rest. */
  lemma FirstOrLater(pre: bytes, events: seq<Event>, f: Frame) returns (t: bytes)
    requires events != [] && f in Frames(pre + EncodeAll(events))
    ensures LeftOver(t)
    ensures f in Frames(pre + Encode(events[0])) || f in Frames(t + EncodeAll(events[1..]))
  {
    t := Rest(pre + Encode(events[0]));
    LittleIsLeftOver(pre, events[0]);
    Assoc(pre, Encode(events[0]), EncodeAll(events[1..]));
    SplitAppend(pre + Encode(events[0]), EncodeAll(events[1..]));
  }

  lemma LongerLinesLater(events: seq<Event>, n: nat)
    requires events != [] && LongerLines(events[1..], n)
    ensures LongerLines(events, n)
  {
    var ev :| ev in events[1..] && LF in Text(ev) && n < |Text(ev)|;
    assert ev in events;
  }

  lemma {:induction false} EventFromFrame(fs: seq<Frame>, ev: Event) returns (f: Frame)
    requires ev in Events(fs)
    ensures f in fs && EventOf(f.body) == Some(ev)
  {
    if EventOf(fs[0].body) == Some(ev) {
      f := fs[0];
    } else {
      f := EventFromFrame(fs[1..], ev);
    }
  }

  /** No text of the list is longer than that of `ev` among those with line feeds. */
  lemma {:induction false} LongestLines(events: seq<Event>) returns (ev: Event)
    requires exists e :: e in events && LF in Text(e)
    ensures ev in events && LF in Text(ev) && !LongerLines(events, |Text(ev)|)
  {
    assert events == [events[0]] + events[1..];
    if rest :| rest in events[1..] && LF in Text(rest) {
      ev := LongestLines(events[1..]);
      if LF in Text(events[0]) && |Text(events[0])| > |Text(ev)| {
        ev := events[0];
      }
    } else {
      ev := events[0];
    }
  }

  /** A list that is read back as it was written holds no line feed. */
  lemma ReadBackHoldsNoLines(events: seq<Event>)
    requires Events(Frames(EncodeAll(events))) == events
    ensures forall ev :: ev in events ==> LF !in Text(ev)
  {
    if exists e :: e in events && LF in Text(e) {
      var ev := LongestLines(events);
      var f := EventFromFrame(Frames(EncodeAll(events)), ev);
      DoneMarkIsOneLine();
      assert Payload(f.body) == Text(ev);
      assert [] + EncodeAll(events) == EncodeAll(events);
      ReadLinesAreShorter([], events, f);
    }
  }

  lemma {:induction false} OneLineStream(events: seq<Event>)
    requires forall ev :: ev in events ==> LF !in Text(ev)
    ensures Frames(EncodeAll(events)) == FramesFor(events)
  {
    OneLineWires(events);
    assert EncodeAll(events) + [] == EncodeAll(events);
    FramesUnique(FramesFor(events), []);
  }

  lemma {:induction false} OneLineWires(events: seq<Event>)
    requires forall ev :: ev in events ==> LF !in Text(ev)
    ensures Wires(FramesFor(events)) == EncodeAll(events)
    ensures forall f :: f in FramesFor(events) ==> WellCut(f)
  {
    if events != [] {
      assert events[0] in events;
      OneLineWires(events[1..]);
      BodyHoldsNoLf(Text(events[0]));
      EncodedIsWellCut(events[0]);
      WiresCons(FrameFor(events[0]), FramesFor(events[1..]));
    }
  }

  /** One frame for each event yields all of them only if each yields its own. */
  lemma {:induction false} EachYieldsItsOwn(events: seq<Event>)
    ensures |Events(FramesFor(events))| <= |events|
    ensures Events(FramesFor(events)) == events ==>
              forall ev :: ev in events ==> EventOf(FrameFor(ev).body) == Some(ev)
  {
    if events != [] {
      var head, tail := FrameFor(events[0]), FramesFor(events[1..]);
      assert ([head] + tail)[1..] == tail;
      EachYieldsItsOwn(events[1..]);
      assert Events(FramesFor(events)) == FrameEvents(head) + Events(tail);
      if Events(FramesFor(events)) == events {
        assert |FrameEvents(head)| == 1;
        assert Events(tail) == events[1..];
      }
    }
  }

  lemma OwnEventIsGood(ev: Event)
    requires LF !in Text(ev) && (ev.Data? ==> Utf8Valid(ev.payload)) && EventOf(FrameFor(ev).body) == Some(ev)
    ensures GoodEvent(ev)
  {
    PayloadOfEncoded(Text(ev));
  }

  /** A list of events, written out, is read back as it was exactly when each of its payloads would be. */
  lemma ListRoundTripsExactly(events: seq<Event>)
    requires forall ev :: ev in events && ev.Data? ==> Utf8Valid(ev.payload)
    ensures Events(Frames(EncodeAll(events))) == events <==> forall ev :: ev in events ==> GoodEvent(ev)
  {
    if forall ev :: ev in events ==> GoodEvent(ev) {
      FramesOfEncodedStream(events);
    }
    if Events(Frames(EncodeAll(events))) == events {
      ReadBackHoldsNoLines(events);
      OneLineStream(events);
      EachYieldsItsOwn(events);
      forall ev | ev in events
        ensures GoodEvent(ev)
      {
        OwnEventIsGood(ev);
      }
    }
  }
}
