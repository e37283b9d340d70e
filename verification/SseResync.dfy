/** Whole-run facts about the decoder: any stream, any chunking.
    The bounded decoder is compared, frame by frame, with the unbounded framing of the whole stream. */
module SseResync {
  import opened Framing
  import opened SsePayload
  import opened SseDecoder
  import opened Arithmetic

  function Concat(chunks: seq<bytes>): bytes {
    if chunks == [] then [] else Concat(chunks[..|chunks| - 1]) + chunks[|chunks| - 1]
  }

  /** The decoder's state after the chunks. */
  ghost function After(chunks: seq<bytes>): View {
    if chunks == [] then FRESH else AfterPush(After(chunks[..|chunks| - 1]), chunks[|chunks| - 1])
  }

  /** Every frame the decoder let through, in order. */
  ghost function Passed(chunks: seq<bytes>): seq<Frame> {
    if chunks == [] then []
    else
      var init := chunks[..|chunks| - 1];
      Passed(init) + PushFrames(After(init), chunks[|chunks| - 1])
  }

  /** Every event the decoder returned, in order. */
  ghost function Decoded(chunks: seq<bytes>): seq<Event> {
    if chunks == [] then []
    else
      var init := chunks[..|chunks| - 1];
      Decoded(init) + Events(PushFrames(After(init), chunks[|chunks| - 1]))
  }

  /** How many pushes ended in a discard. */
  ghost function Discards(chunks: seq<bytes>): nat {
    if chunks == [] then 0
    else
      var init := chunks[..|chunks| - 1];
      Discards(init) + (if SseDecoder.Discards(After(init), chunks[|chunks| - 1]) then 1 else 0)
  }

  // ---------------------------------------------------------------- which frames are lost

  /** Frame `j` of the stream is outgrown at the end of these chunks: it is the frame in progress,
      and what has arrived of it is longer than the cap. Says nothing about the decoder's state. */
  ghost predicate Outgrown(chunks: seq<bytes>, j: nat) {
    |Frames(Concat(chunks))| == j && |Rest(Concat(chunks))| > MAX_FRAME_BYTES
  }

  /** Frame `j` was outgrown at some chunk boundary. */
  ghost predicate Lost(chunks: seq<bytes>, j: nat) {
    chunks != [] && (Lost(chunks[..|chunks| - 1], j) || Outgrown(chunks, j))
  }

  lemma {:induction false} LostExactly(chunks: seq<bytes>, j: nat)
    ensures Lost(chunks, j) <==> exists k: nat :: k <= |chunks| && Outgrown(chunks[..k], j)
  {
    if chunks == [] {
      assert forall k: nat :: k <= 0 ==> chunks[..k] == [];
    } else {
      var init := chunks[..|chunks| - 1];
      LostExactly(init, j);
      assert chunks[..|chunks|] == chunks;
      assert forall k: nat :: k <= |init| ==> chunks[..k] == init[..k];
      if Lost(init, j) {
        var k: nat :| k <= |init| && Outgrown(init[..k], j);
        assert Outgrown(chunks[..k], j);
      }
      if Outgrown(chunks, j) {
        assert Outgrown(chunks[..|chunks|], j);
      }
      if k: nat :| k <= |chunks| && Outgrown(chunks[..k], j) {
        assert k <= |init| ==> Outgrown(init[..k], j);
      }
    }
  }

  /** How many of the first `n` frames were lost. */
  ghost function LostCount(chunks: seq<bytes>, n: nat): nat {
    if n == 0 then 0 else LostCount(chunks, n - 1) + (if Lost(chunks, n - 1) then 1 else 0)
  }

  /** The frames, numbered from `base`, that were not lost. */
  ghost function Survivors(fs: seq<Frame>, chunks: seq<bytes>, base: nat): seq<Frame> {
    if fs == [] then []
    else Kept(fs[0], chunks, base) + Survivors(fs[1..], chunks, base + 1)
  }

  ghost function Kept(f: Frame, chunks: seq<bytes>, j: nat): seq<Frame> {
    if Lost(chunks, j) then [] else [f]
  }

  /** Two runs lost the same frames among those numbered from `lo` up to `hi`. */
  ghost predicate SameLosses(a: seq<bytes>, b: seq<bytes>, lo: nat, hi: nat) {
    forall i: nat :: lo <= i < hi ==> (Lost(a, i) <==> Lost(b, i))
  }

  lemma {:induction false} SurvivorsAppend(a: seq<Frame>, b: seq<Frame>, chunks: seq<bytes>, base: nat)
    ensures Survivors(a + b, chunks, base) == Survivors(a, chunks, base) + Survivors(b, chunks, base + |a|)
  {
    if a == [] {
      assert a + b == b;
    } else {
      assert (a + b)[1..] == a[1..] + b;
      SurvivorsAppend(a[1..], b, chunks, base + 1);
      Assoc(Kept(a[0], chunks, base), Survivors(a[1..], chunks, base + 1), Survivors(b, chunks, base + |a|));
    }
  }

  lemma {:induction false} SurvivorsSame(fs: seq<Frame>, a: seq<bytes>, b: seq<bytes>, base: nat)
    requires SameLosses(a, b, base, base + |fs|)
    ensures Survivors(fs, a, base) == Survivors(fs, b, base)
  {
    if fs != [] {
      SurvivorsSame(fs[1..], a, b, base + 1);
    }
  }

  lemma {:induction false} SurvivorsAll(fs: seq<Frame>, chunks: seq<bytes>, base: nat)
    requires forall i: nat :: base <= i < base + |fs| ==> !Lost(chunks, i)
    ensures Survivors(fs, chunks, base) == fs
  {
    if fs != [] {
      SurvivorsAll(fs[1..], chunks, base + 1);
    }
  }

  lemma {:induction false} CountSame(a: seq<bytes>, b: seq<bytes>, n: nat)
    requires SameLosses(a, b, 0, n)
    ensures LostCount(a, n) == LostCount(b, n)
  {
    if n > 0 {
      CountSame(a, b, n - 1);
    }
  }

  // ---------------------------------------------------------------- the run invariant

  /** A decoder's state, told in terms of an unbounded one that holds the partial frame `r`, of whether
      that frame is lost already, and of the number of discards so far. */
  ghost predicate Tracks(v: View, r: bytes, lost: bool, discards: nat) {
    && (v.desynced <==> lost)
    && (if lost then IsTail(v.buf, r) && |v.buf| >= RESYNC_TAIL else v.buf == r)
    && v.dropped == Saturated(discards)
  }

  ghost predicate InStep(chunks: seq<bytes>) {
    && |After(chunks).buf| <= MAX_FRAME_BYTES
    && Tracks(After(chunks), Rest(Concat(chunks)), Lost(chunks, |Frames(Concat(chunks))|), Discards(chunks))
  }

  /** Taking out the complete frames keeps track, whatever was discarded before. */
  lemma DrainTracks(v: View, r: bytes, lost: bool, discards: nat, c: bytes)
    requires Tracks(v, r, lost, discards) && Unterminated(r)
    ensures Tracks(Drained(v, c), Rest(r + c), lost && Frames(r + c) == [], discards)
    ensures Announced(v.desynced, Frames(v.buf + c)) == Announced(lost, Frames(r + c))
  {
    if lost {
      TailFramesAgree(r, v.buf, c);
      assert Frames(r + c) == [] ==> IsTail(v.buf + c, r + c);
    }
  }

  /** Enforcing the cap keeps track: a discard loses the frame in progress. */
  lemma CapTracks(v: View, r: bytes, lost: bool, discards: nat)
    requires Tracks(v, r, lost, discards)
    ensures Tracks(Capped(v), r, lost || |r| > MAX_FRAME_BYTES, discards + (if |v.buf| > MAX_FRAME_BYTES then 1 else 0))
    ensures |Capped(v).buf| <= MAX_FRAME_BYTES
  {
  }

  lemma Unfold(chunks: seq<bytes>, c: bytes)
    ensures var all := chunks + [c];
            && all[..|all| - 1] == chunks
            && Concat(all) == Concat(chunks) + c
            && After(all) == AfterPush(After(chunks), c)
            && Passed(all) == Passed(chunks) + PushFrames(After(chunks), c)
            && Decoded(all) == Decoded(chunks) + Events(PushFrames(After(chunks), c))
            && Discards(all) == Discards(chunks) + (if SseDecoder.Discards(After(chunks), c) then 1 else 0)
            && forall j: nat :: Lost(all, j) <==> Lost(chunks, j) || Outgrown(all, j)
  {
    assert (chunks + [c])[..|chunks|] == chunks;
  }

  /** Only frames that have begun can be lost. */
  lemma {:induction false} LostHasBegun(chunks: seq<bytes>, j: nat)
    requires Lost(chunks, j)
    ensures j <= |Frames(Concat(chunks))|
  {
    var init, c := chunks[..|chunks| - 1], chunks[|chunks| - 1];
    assert chunks == init + [c];
    Unfold(init, c);
    if Lost(init, j) {
      LostHasBegun(init, j);
      SplitAppend(Concat(init), c);
    }
  }

  lemma NoneBeyond(chunks: seq<bytes>)
    ensures forall j: nat :: |Frames(Concat(chunks))| < j ==> !Lost(chunks, j)
  {
    forall j: nat | |Frames(Concat(chunks))| < j
      ensures !Lost(chunks, j)
    {
      if Lost(chunks, j) { LostHasBegun(chunks, j); }
    }
  }

  /** A chunk can only make the frame it leaves in progress lost. */
  lemma LossStep(chunks: seq<bytes>, c: bytes)
    ensures var n' := |Frames(Concat(chunks + [c]))|;
            SameLosses(chunks, chunks + [c], 0, n') &&
            (Lost(chunks + [c], n') <==> Lost(chunks, n') || |Rest(Concat(chunks + [c]))| > MAX_FRAME_BYTES)
  {
    Unfold(chunks, c);
  }

  /** One more chunk: frames `g` are gained, no earlier frame is lost by it, and the frame now in
      progress is lost if it was the one in progress before and lost, or is outgrown now. */
  lemma OneChunk(chunks: seq<bytes>, c: bytes) returns (n: nat, g: seq<Frame>, n': nat)
    ensures n == |Frames(Concat(chunks))| && g == Frames(Rest(Concat(chunks)) + c)
    ensures n' == |Frames(Concat(chunks + [c]))| == n + |g|
    ensures Frames(Concat(chunks + [c])) == Frames(Concat(chunks)) + g
    ensures Rest(Concat(chunks + [c])) == Rest(Rest(Concat(chunks)) + c)
    ensures SameLosses(chunks, chunks + [c], 0, n')
    ensures forall j: nat :: n < j ==> !Lost(chunks, j)
    ensures Lost(chunks + [c], n') <==>
            (Lost(chunks, n) && g == []) || |Rest(Concat(chunks + [c]))| > MAX_FRAME_BYTES
  {
    n, g := |Frames(Concat(chunks))|, Frames(Rest(Concat(chunks)) + c);
    assert Concat(chunks + [c]) == Concat(chunks) + c by {
      Unfold(chunks, c);
    }
    SplitAppend(Concat(chunks), c);
    n' := n + |g|;
    LossStep(chunks, c);
    NoneBeyond(chunks);
  }

  lemma {:induction false} AlwaysInStep(chunks: seq<bytes>)
    ensures InStep(chunks)
  {
    if chunks != [] {
      var init, c := chunks[..|chunks| - 1], chunks[|chunks| - 1];
      assert chunks == init + [c];
      AlwaysInStep(init);
      Unfold(init, c);
      FramesLossless(Concat(init));
      var n, g, n' := OneChunk(init, c);
      var v, r, lost := After(init), Rest(Concat(init)), Lost(init, n);
      DrainTracks(v, r, lost, Discards(init), c);
      CapTracks(Drained(v, c), Rest(r + c), lost && g == [], Discards(init));
    }
  }

  // ---------------------------------------------------------------- resynchronisation is exact

  /** For any stream and any chunking, the decoder lets through exactly the frames of the stream
      that were never outgrown at a chunk boundary, in order and unaltered. */
  lemma {:induction false} ResyncIsExact(chunks: seq<bytes>)
    ensures Passed(chunks) == Survivors(Frames(Concat(chunks)), chunks, 0)
  {
    if chunks != [] {
      var init, c := chunks[..|chunks| - 1], chunks[|chunks| - 1];
      assert chunks == init + [c];
      ResyncIsExact(init);
      PassedStep(init, c);
      SurvivorsStep(init, c);
    }
  }

  /** What one push lets through is what the stream gained, less the frame being resynchronised on. */
  lemma PassedStep(chunks: seq<bytes>, c: bytes)
    ensures var g := Frames(Rest(Concat(chunks)) + c);
            Passed(chunks + [c]) == Passed(chunks) + Announced(Lost(chunks, |Frames(Concat(chunks))|), g)
  {
    AlwaysInStep(chunks);
    Unfold(chunks, c);
    FramesLossless(Concat(chunks));
    DrainTracks(After(chunks), Rest(Concat(chunks)), Lost(chunks, |Frames(Concat(chunks))|), Discards(chunks), c);
  }

  lemma SurvivorsStep(chunks: seq<bytes>, c: bytes)
    ensures var f, g := Frames(Concat(chunks)), Frames(Rest(Concat(chunks)) + c);
            Survivors(Frames(Concat(chunks + [c])), chunks + [c], 0) ==
            Survivors(f, chunks, 0) + Announced(Lost(chunks, |f|), g)
  {
    var f := Frames(Concat(chunks));
    var n, g, n' := OneChunk(chunks, c);
    SurvivorsAppend(f, g, chunks + [c], 0);
    SurvivorsSame(f, chunks, chunks + [c], 0);
    GainedSurvive(chunks, chunks + [c], n, g);
  }

  lemma GainedSurvive(before: seq<bytes>, after: seq<bytes>, n: nat, g: seq<Frame>)
    requires SameLosses(before, after, 0, n + |g|)
    requires forall j: nat :: n < j ==> !Lost(before, j)
    ensures Survivors(g, after, n) == Announced(Lost(before, n), g)
  {
    if g != [] {
      assert Lost(before, n) <==> Lost(after, n);
      forall j: nat | n < j < n + |g|
        ensures !Lost(after, j)
      {
        assert !Lost(before, j);
      }
      SurvivorsAll(g[1..], after, n + 1);
    }
  }

  /** ... so the events returned are those frames' events. */
  lemma EventsAreExact(chunks: seq<bytes>)
    ensures Decoded(chunks) == Events(Survivors(Frames(Concat(chunks)), chunks, 0))
  {
    ResyncIsExact(chunks);
    DecodedIsPassed(chunks);
  }

  lemma {:induction false} DecodedIsPassed(chunks: seq<bytes>)
    ensures Decoded(chunks) == Events(Passed(chunks))
  {
    if chunks != [] {
      var init := chunks[..|chunks| - 1];
      DecodedIsPassed(init);
      EventsAppend(Passed(init), PushFrames(After(init), chunks[|chunks| - 1]));
    }
  }

  /** Memory stays bounded: at every chunk boundary at most the cap is pending. */
  lemma PendingWithinCap(chunks: seq<bytes>)
    ensures |After(chunks).buf| <= MAX_FRAME_BYTES
  {
    AlwaysInStep(chunks);
  }

  /** A discard while already resynchronising, by a push that completes no frame. */
  ghost predicate RepeatsAt(v: View, c: bytes) {
    SseDecoder.Discards(v, c) && v.desynced && Frames(v.buf + c) == []
  }

  /** How many pushes discarded more of a frame that was already lost. */
  ghost function Repeats(chunks: seq<bytes>): nat {
    if chunks == [] then 0
    else
      var init := chunks[..|chunks| - 1];
      Repeats(init) + (if RepeatsAt(After(init), chunks[|chunks| - 1]) then 1 else 0)
  }

  lemma RepeatsSnoc(chunks: seq<bytes>, c: bytes)
    ensures Repeats(chunks + [c]) == Repeats(chunks) + (if RepeatsAt(After(chunks), c) then 1 else 0)
  {
    assert (chunks + [c])[..|chunks|] == chunks;
  }

  /** The lost frames, the one in progress included. */
  ghost function Losses(chunks: seq<bytes>): nat {
    LostCount(chunks, |Frames(Concat(chunks))| + 1)
  }

  /** Discards are one for each lost frame, and one for each repeat. */
  lemma {:induction false} DiscardsAccounted(chunks: seq<bytes>)
    ensures Discards(chunks) == Losses(chunks) + Repeats(chunks)
  {
    if chunks == [] {
      NoLineFeedNoFrame([]);
      assert LostCount([], 1) == LostCount([], 0);
    } else {
      var init, c := chunks[..|chunks| - 1], chunks[|chunks| - 1];
      assert chunks == init + [c];
      DiscardsAccounted(init);
      var n, n' := CountStep(init, c);
      DiscardStep(init, c, n, n');
      RepeatsSnoc(init, c);
    }
  }

  /** One chunk adds at most the frame left in progress to the count. */
  lemma CountStep(chunks: seq<bytes>, c: bytes) returns (n: nat, n': nat)
    ensures n == |Frames(Concat(chunks))| && n' == |Frames(Concat(chunks + [c]))|
    ensures LostCount(chunks + [c], n' + 1) == LostCount(chunks, n + 1) + NewLoss(chunks, c, n, n')
  {
    var g;
    n, g, n' := OneChunk(chunks, c);
    CountWith(chunks, chunks + [c], n, n');
  }

  /** One if the chunk loses frame `n'`, now in progress, unless it is frame `n`, lost before. */
  ghost function NewLoss(chunks: seq<bytes>, c: bytes, n: nat, n': nat): nat {
    if Lost(chunks + [c], n') && !(n' == n && Lost(chunks, n)) then 1 else 0
  }

  lemma CountWith(a: seq<bytes>, b: seq<bytes>, n: nat, n': nat)
    requires n <= n' && SameLosses(a, b, 0, n') && forall j: nat :: n < j ==> !Lost(a, j)
    requires n == n' && Lost(a, n) ==> Lost(b, n')
    ensures LostCount(b, n' + 1) == LostCount(a, n + 1) + (if Lost(b, n') && !(n' == n && Lost(a, n)) then 1 else 0)
  {
    CountSame(a, b, n');
    CountUpTo(a, n, n');
  }

  /** Nothing is lost past the frame in progress. */
  lemma {:induction false} CountUpTo(chunks: seq<bytes>, n: nat, m: nat)
    requires n <= m && forall j: nat :: n < j ==> !Lost(chunks, j)
    ensures LostCount(chunks, m) == if n == m then LostCount(chunks, n) else LostCount(chunks, n + 1)
  {
    if n + 1 < m {
      CountUpTo(chunks, n, m - 1);
    }
  }

  /** A discard loses the frame in progress, or repeats on one already lost. */
  lemma DiscardStep(chunks: seq<bytes>, c: bytes, n: nat, n': nat)
    requires n == |Frames(Concat(chunks))| && n' == |Frames(Concat(chunks + [c]))|
    ensures Discards(chunks + [c]) ==
            Discards(chunks) + NewLoss(chunks, c, n, n') + (if RepeatsAt(After(chunks), c) then 1 else 0)
  {
    AlwaysInStep(chunks);
    Unfold(chunks, c);
    var _, g, _ := OneChunk(chunks, c);
    FramesLossless(Concat(chunks));
    var r, lost := Rest(Concat(chunks)), Lost(chunks, n);
    DrainTracks(After(chunks), r, lost, Discards(chunks), c);
    if lost {
      TailFramesAgree(r, After(chunks).buf, c);
    }
  }

  lemma DroppedIsDiscards(chunks: seq<bytes>)
    ensures After(chunks).dropped == Saturated(Discards(chunks))
  {
    AlwaysInStep(chunks);
  }

  /** The counter the decoder reports: the lost frames and the repeats, until it saturates. */
  lemma CounterIsLossesAndRepeats(chunks: seq<bytes>) returns (losses: nat, repeats: nat)
    ensures losses == Losses(chunks) && repeats == Repeats(chunks)
    ensures After(chunks).dropped == Saturated(losses + repeats)
    ensures repeats == 0 <==> !Repeated(chunks)
  {
    losses, repeats := Losses(chunks), Repeats(chunks);
    DroppedIsDiscards(chunks);
    DiscardsAccounted(chunks);
    RepeatedExactly(chunks);
  }

  /** So, until the counter saturates, at least as many frames are counted as were lost, and exactly as many
      if and only if no push discarded while the decoder was resynchronising without completing a frame. */
  lemma CounterIsExactly(chunks: seq<bytes>)
    ensures Losses(chunks) <= After(chunks).dropped || After(chunks).dropped == U64_MAX
    ensures After(chunks).dropped == Saturated(Losses(chunks)) <==> !Repeated(chunks) || Losses(chunks) >= U64_MAX
  {
    var losses, repeats := CounterIsLossesAndRepeats(chunks);
  }

  /** Some push discarded while resynchronising, without completing a frame. */
  ghost predicate Repeated(chunks: seq<bytes>) {
    exists k: nat :: k < |chunks| && RepeatsAt(After(chunks[..k]), chunks[k])
  }

  lemma {:induction false} RepeatedExactly(chunks: seq<bytes>)
    ensures Repeats(chunks) == 0 <==> !Repeated(chunks)
  {
    if chunks != [] {
      var init, c := chunks[..|chunks| - 1], chunks[|chunks| - 1];
      assert chunks == init + [c];
      RepeatedExactly(init);
      RepeatsSnoc(init, c);
      RepeatedSnoc(init, c);
    }
  }

  lemma RepeatedSnoc(init: seq<bytes>, c: bytes)
    ensures Repeated(init + [c]) <==> Repeated(init) || RepeatsAt(After(init), c)
  {
    var all := init + [c];
    assert forall k: nat :: k < |init| ==> all[..k] == init[..k] && all[k] == init[k];
    assert all[..|init|] == init && all[|init|] == c;
    if Repeated(init) {
      var k: nat :| k < |init| && RepeatsAt(After(init[..k]), init[k]);
      assert RepeatsAt(After(all[..k]), all[k]);
    }
    if RepeatsAt(After(init), c) {
      assert RepeatsAt(After(all[..|init|]), all[|init|]);
    }
  }

  lemma NoLineFeedNoFrame(s: bytes)
    requires LF !in s
    ensures Frames(s) == [] && Rest(s) == s
  {
    assert Unterminated(s);
  }

  /** It can be more: one frame that keeps growing is counted again. */
  lemma OneFrameCanCountTwice(a: bytes, b: bytes)
    requires LF !in a && LF !in b && |a| > MAX_FRAME_BYTES && |b| > MAX_FRAME_BYTES
    ensures After([a, b]).dropped == 2
    ensures Losses([a, b]) == 1 && Repeats([a, b]) == 1
  {
    TwoChunks(a, b);
    NoLineFeedNoFrame(a);
    NoLineFeedNoFrame(a + b);
    assert [] + a == a;
    Unfold([], a);
    assert [] + [a] == [a] && [a] + [b] == [a, b];
    Unfold([a], b);
    NoLineFeedNoFrame(After([a]).buf + b);
    assert LF !in After([a]).buf;
    assert Lost([a, b], 0);
    assert LostCount([a, b], 1) == LostCount([a, b], 0) + 1;
    var _, _ := CounterIsLossesAndRepeats([a, b]);
  }

  // ---------------------------------------------------------------- exactly which frames can be lost

  /** At any boundary inside frame `j`, what has arrived is a proper prefix of the frame. */
  lemma PartialFrameIsShorter(head: bytes, tail: bytes)
    requires |Frames(head)| < |Frames(head + tail)|
    ensures |Rest(head)| < |Frames(head + tail)[|Frames(head)|].Wire()|
  {
    var r := Rest(head);
    SplitAppend(head, tail);
    FramesLossless(head);
    var e := FrameEndOf(r + tail).value;
    var f := Frames(head + tail)[|Frames(head)|];
    assert f == Frames(r + tail)[0];
    assert e.frameLen <= |r| ==> TerminatorAt(r + tail, e.contentLen) == TerminatorAt(r, e.contentLen);
    assert NoneIn(r, 0, |r|);
  }

  lemma {:induction false} ConcatPrefix(chunks: seq<bytes>, k: nat)
    requires k <= |chunks|
    ensures Concat(chunks[..k]) <= Concat(chunks)
  {
    if k < |chunks| {
      var init := chunks[..|chunks| - 1];
      assert init[..k] == chunks[..k];
      ConcatPrefix(init, k);
    } else {
      assert chunks[..k] == chunks;
    }
  }

  /** A frame that fits is never lost, even right after one that did not. */
  lemma FittingFrameSurvives(chunks: seq<bytes>, j: nat)
    requires j < |Frames(Concat(chunks))|
    requires |Frames(Concat(chunks))[j].Wire()| <= MAX_FRAME_BYTES + 1
    ensures !Lost(chunks, j)
  {
    LostExactly(chunks, j);
    forall k: nat | k <= |chunks|
      ensures !Outgrown(chunks[..k], j)
    {
      ConcatPrefix(chunks, k);
      FittingFrameNotOutgrown(Concat(chunks[..k]), Concat(chunks), j);
    }
  }

  lemma FittingFrameNotOutgrown(head: bytes, s: bytes, j: nat)
    requires head <= s && j < |Frames(s)| && |Frames(s)[j].Wire()| <= MAX_FRAME_BYTES + 1
    ensures !(|Frames(head)| == j && |Rest(head)| > MAX_FRAME_BYTES)
  {
    assert head + s[|head|..] == s;
    if |Frames(head)| == j {
      PartialFrameIsShorter(head, s[|head|..]);
    }
  }

  lemma {:induction false} WiresAppend(a: seq<Frame>, b: seq<Frame>)
    ensures Wires(a + b) == Wires(a) + Wires(b)
  {
    if a == [] {
      assert a + b == b;
    } else {
      assert (a + b)[1..] == a[1..] + b;
      WiresAppend(a[1..], b);
      Assoc(a[0].Wire(), Wires(a[1..]), Wires(b));
    }
  }

  /** A proper prefix of a well-cut frame's bytes holds no terminator. */
  lemma ProperPrefixUnterminated(f: Frame, n: nat)
    requires WellCut(f) && n < |f.Wire()|
    ensures Unterminated(f.Wire()[..n])
  {
    var w, p := f.Wire(), f.Wire()[..n];
    forall i: nat | i < n
      ensures TerminatorAt(p, i) == 0
    {
      assert w == p + w[n..];
      TerminatorStable(p, w[n..], i);
      assert i < |f.body| ==> TerminatorAt(w, i) == 0;
      assert i == |f.body| ==> TerminatorAt(p, i) > 0 ==> i + TerminatorAt(p, i) <= n;
    }
  }

  /** The stream up to `n` bytes into frame `j`. */
  ghost function UpTo(s: bytes, j: nat, n: nat): bytes
    requires j < |Frames(s)| && n <= |Frames(s)[j].Wire()|
  {
    Wires(Frames(s)[..j]) + Frames(s)[j].Wire()[..n]
  }

  lemma UpToIsPrefix(s: bytes, j: nat, n: nat)
    requires j < |Frames(s)| && n <= |Frames(s)[j].Wire()|
    ensures UpTo(s, j, n) <= s
  {
    var after := StreamAround(s, j);
    PrefixOfConcat(Wires(Frames(s)[..j]), Frames(s)[j].Wire(), after, Rest(s), n);
  }

  lemma StreamAround(s: bytes, j: nat) returns (after: bytes)
    requires j < |Frames(s)|
    ensures s == Wires(Frames(s)[..j]) + (Frames(s)[j].Wire() + after) + Rest(s)
  {
    var fs, f, gs := Frames(s)[..j], Frames(s)[j], Frames(s)[j + 1..];
    after := Wires(gs);
    FramesLossless(s);
    assert Frames(s) == fs + ([f] + gs);
    WiresAppend(fs, [f] + gs);
    WiresCons(f, gs);
  }

  lemma PrefixOfConcat(a: bytes, w: bytes, b: bytes, r: bytes, n: nat)
    requires n <= |w|
    ensures a + w[..n] <= a + (w + b) + r
  {
    assert (a + (w + b) + r)[..|a| + n] == a + w[..n];
  }

  lemma UpToIsPartial(s: bytes, j: nat, n: nat)
    requires j < |Frames(s)| && n < |Frames(s)[j].Wire()|
    ensures |Frames(UpTo(s, j, n))| == j && |Rest(UpTo(s, j, n))| == n
  {
    var fs, f := Frames(s)[..j], Frames(s)[j];
    FramesWellCut(s);
    assert f in Frames(s) && forall g :: g in fs ==> g in Frames(s);
    ProperPrefixUnterminated(f, n);
    FramesUnique(fs, f.Wire()[..n]);
  }

  /** A longer frame is lost as soon as a chunk ends past the cap inside it. */
  lemma LongFrameCanBeLost(s: bytes, j: nat) returns (chunks: seq<bytes>)
    requires j < |Frames(s)|
    requires |Frames(s)[j].Wire()| > MAX_FRAME_BYTES + 1
    ensures Concat(chunks) == s && Lost(chunks, j)
  {
    var n := MAX_FRAME_BYTES + 1;
    UpToIsPrefix(s, j, n);
    OutgrownInside(s, j, n);
    chunks := CutAfter(s, UpTo(s, j, n), j);
  }

  lemma CutAfter(s: bytes, head: bytes, j: nat) returns (chunks: seq<bytes>)
    requires head <= s && |Frames(head)| == j && |Rest(head)| > MAX_FRAME_BYTES
    ensures Concat(chunks) == s && Lost(chunks, j)
  {
    chunks := [head, s[|head|..]];
    TwoChunks(head, s[|head|..]);
    LostAtCut(chunks, 1, j);
  }

  lemma OutgrownInside(s: bytes, j: nat, n: nat)
    requires j < |Frames(s)| && MAX_FRAME_BYTES < n < |Frames(s)[j].Wire()|
    ensures |Frames(UpTo(s, j, n))| == j && |Rest(UpTo(s, j, n))| > MAX_FRAME_BYTES
  {
    UpToIsPartial(s, j, n);
  }

  lemma LostAtCut(chunks: seq<bytes>, k: nat, j: nat)
    requires k <= |chunks| && Outgrown(chunks[..k], j)
    ensures Lost(chunks, j)
  {
    LostExactly(chunks, j);
  }

  lemma TwoChunks(a: bytes, b: bytes)
    ensures Concat([a, b]) == a + b && Concat([a, b][..1]) == a
  {
    assert [a, b][..1] == [a] && [a][..0] == [];
    assert Concat([a]) == Concat([]) + a;
  }

  /** The cap, exactly: a frame is safe under every chunking of the stream if and only if its bytes
      on the wire, terminator included, number at most one more than MAX_FRAME_BYTES. */
  lemma SafeUnderEveryChunking(s: bytes, j: nat)
    requires j < |Frames(s)|
    ensures (forall chunks: seq<bytes> :: Concat(chunks) == s ==> !Lost(chunks, j))
       <==> |Frames(s)[j].Wire()| <= 1_048_577
  {
    if |Frames(s)[j].Wire()| <= MAX_FRAME_BYTES + 1 {
      forall chunks: seq<bytes> | Concat(chunks) == s
        ensures !Lost(chunks, j)
      {
        FittingFrameSurvives(chunks, j);
      }
    } else {
      var chunks := LongFrameCanBeLost(s, j);
    }
  }

  /** A discard keeps exactly two bytes, the last ones. */
  lemma DiscardKeepsTwo(v: View, c: bytes)
    requires SseDecoder.Discards(v, c)
    ensures |AfterPush(v, c).buf| == 2 && IsTail(AfterPush(v, c).buf, Rest(v.buf + c))
    ensures AfterPush(v, c).desynced
  {
  }

  // ---------------------------------------------------------------- chunk boundaries do not matter

  /** From any state at all, pushing `a` then `b` announces the same frames and ends in the same
      state as pushing `a + b`, unless the first push ends in a discard. */
  lemma PushInTwo(v: View, a: bytes, b: bytes)
    requires !SseDecoder.Discards(v, a)
    ensures PushFrames(v, a) + PushFrames(AfterPush(v, a), b) == PushFrames(v, a + b)
    ensures AfterPush(AfterPush(v, a), b) == AfterPush(v, a + b)
  {
    Assoc(v.buf, a, b);
    var all, r := v.buf + a, Rest(v.buf + a);
    SplitAppend(all, b);
    assert AfterPush(v, a) == View(r, v.desynced && Frames(all) == [], v.dropped);
    AnnouncedInTwo(v.desynced, Frames(all), Frames(r + b));
  }

  lemma AnnouncedInTwo(desynced: bool, f: seq<Frame>, g: seq<Frame>)
    ensures Announced(desynced, f) + Announced(desynced && f == [], g) == Announced(desynced, f + g)
  {
  }

  /** ... and so the same events. */
  lemma ChunkIndependence(v: View, a: bytes, b: bytes)
    requires !SseDecoder.Discards(v, a)
    ensures Events(PushFrames(v, a)) + Events(PushFrames(AfterPush(v, a), b)) == Events(PushFrames(v, a + b))
  {
    PushInTwo(v, a, b);
    EventsAppend(PushFrames(v, a), PushFrames(AfterPush(v, a), b));
  }

  // ---------------------------------------------------------------- encode, deliver, decode

  function EncodeAll(events: seq<Event>): bytes {
    if events == [] then [] else Encode(events[0]) + EncodeAll(events[1..])
  }

  function FramesFor(events: seq<Event>): seq<Frame> {
    if events == [] then [] else [FrameFor(events[0])] + FramesFor(events[1..])
  }

  lemma {:induction false} EncodedStream(events: seq<Event>)
    requires forall ev :: ev in events ==> GoodEvent(ev)
    ensures |FramesFor(events)| == |events|
    ensures forall i :: 0 <= i < |events| ==> FramesFor(events)[i] == FrameFor(events[i])
    ensures forall f :: f in FramesFor(events) ==> WellCut(f)
    ensures Events(FramesFor(events)) == events
    ensures Wires(FramesFor(events)) == EncodeAll(events)
  {
    if events != [] {
      assert events[0] in events;
      EncodedFrame(events[0]);
      EncodedEvent(events[0]);
      EncodedStream(events[1..]);
      var fs := FramesFor(events[1..]);
      assert ([FrameFor(events[0])] + fs)[1..] == fs;
    }
  }

  ghost predicate Fits(ev: Event) {
    GoodEvent(ev) && |Encode(ev)| <= MAX_FRAME_BYTES + 1
  }

  /** Any list of events that fit, written out and delivered in any chunking, is read back as exactly
      that list, with nothing pending, nothing lost and nothing to resynchronise on. */
  lemma DeliverAndDecode(events: seq<Event>, chunks: seq<bytes>)
    requires forall ev :: ev in events ==> Fits(ev)
    requires Concat(chunks) == EncodeAll(events)
    ensures Decoded(chunks) == events
    ensures After(chunks).buf == [] && !After(chunks).desynced && forall j: nat :: !Lost(chunks, j)
  {
    FramesOfEncodedStream(events);
    DeliveredIntact(events, chunks);
    EventsAreExact(chunks);
    SurvivorsAll(FramesFor(events), chunks, 0);
    NothingPending(chunks);
  }

  lemma NothingPending(chunks: seq<bytes>)
    requires Rest(Concat(chunks)) == [] && forall j: nat :: !Lost(chunks, j)
    ensures After(chunks).buf == [] && !After(chunks).desynced
  {
    AlwaysInStep(chunks);
  }

  lemma DeliveredIntact(events: seq<Event>, chunks: seq<bytes>)
    requires forall ev :: ev in events ==> Fits(ev)
    requires Frames(Concat(chunks)) == FramesFor(events) && Rest(Concat(chunks)) == []
    ensures forall j: nat :: !Lost(chunks, j)
  {
    EncodedStream(events);
    NothingInProgressLost(chunks);
    forall j: nat
      ensures !Lost(chunks, j)
    {
      if j < |events| {
        assert events[j] in events;
        FittingFrameSurvives(chunks, j);
      }
    }
  }

  lemma NothingInProgressLost(chunks: seq<bytes>)
    requires Rest(Concat(chunks)) == []
    ensures forall j: nat :: |Frames(Concat(chunks))| <= j ==> !Lost(chunks, j)
  {
    AlwaysInStep(chunks);
    NoneBeyond(chunks);
  }

  lemma FramesOfEncodedStream(events: seq<Event>)
    requires forall ev :: ev in events ==> GoodEvent(ev)
    ensures Frames(EncodeAll(events)) == FramesFor(events) && Rest(EncodeAll(events)) == []
    ensures Events(FramesFor(events)) == events && |FramesFor(events)| == |events|
    ensures forall i :: 0 <= i < |events| ==> FramesFor(events)[i] == FrameFor(events[i])
  {
    EncodedStream(events);
    assert EncodeAll(events) + [] == EncodeAll(events);
    FramesUnique(FramesFor(events), []);
  }
}
