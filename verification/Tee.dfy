/** The streaming tee: each chunk goes to the client untouched and to the meter, and the request's
    record is written once, when the response finishes or is dropped. */
module Tee {
  import opened Wrappers
  import opened Framing
  import opened SsePayload
  import opened SseDecoder
  import opened SseResync
  import opened Metering
  import opened Arithmetic

  datatype Record = Record(backend: string, failedOver: bool, mirroredTo: Option<string>, model: string,
                           streaming: bool, status: nat, durationMs: u64, metered: Metered)

  /** What polling the upstream yields. */
  datatype Poll = Chunk(data: bytes) | UpstreamError

  /** What the client is handed. */
  datatype Item = Forwarded(data: bytes) | Failed

  /** Completed request records, bounded. */
  class AppState {
    const maxRecords: nat
    var records: seq<Record>
    ghost var history: seq<Record>

    /** The newest records, up to the cap. */
    ghost predicate Valid()
      reads this
    {
      records == history[if |history| <= maxRecords then 0 else |history| - maxRecords..]
    }

    constructor (maxRecords: nat)
      ensures Valid() && history == [] && this.maxRecords == maxRecords
    {
      this.maxRecords := maxRecords;
      records, history := [], [];
    }

    /** Dropping the oldest needs one to drop, so the cap must not be zero. */
    method Write(r: Record)
      requires Valid() && maxRecords > 0
      modifies this
      ensures Valid() && history == old(history) + [r]
    {
      if |records| >= maxRecords {
        records := records[1..];
      }
      records := records + [r];
      history := history + [r];
    }
  }

  function Chunks(polls: seq<Poll>): seq<bytes> {
    if polls == [] then []
    else Chunks(polls[..|polls| - 1]) + (match polls[|polls| - 1] case Chunk(b) => [b] case UpstreamError => [])
  }

  lemma ChunksSnoc(polls: seq<Poll>, p: Poll)
    ensures Chunks(polls + [p]) == match p case Chunk(b) => Chunks(polls) + [b] case UpstreamError => Chunks(polls)
  {
    assert (polls + [p])[..|polls|] == polls;
  }

  function Forward(p: Poll): Item {
    match p case Chunk(b) => Forwarded(b) case UpstreamError => Failed
  }

  /** The bytes the client is handed. */
  function Received(items: seq<Item>): bytes {
    if items == [] then []
    else Received(items[..|items| - 1]) + (match items[|items| - 1] case Forwarded(b) => b case Failed => [])
  }

  /** One item for each poll. */
  predicate Handed(items: seq<Item>, polls: seq<Poll>) {
    |items| == |polls| && forall i :: 0 <= i < |polls| ==> items[i] == Forward(polls[i])
  }

  lemma HandedSnoc(items: seq<Item>, polls: seq<Poll>, i: nat)
    requires i < |polls| && Handed(items, polls[..i])
    ensures Handed(items + [Forward(polls[i])], polls[..i + 1])
    ensures polls[..i + 1] == polls[..i] + [polls[i]]
  {
  }

  /** What the client is handed for its polls: one item each, together the upstream's bytes unaltered, and a
      failure exactly where the upstream failed. */
  lemma {:induction false} ForwardedVerbatim(polls: seq<Poll>, items: seq<Item>)
    requires Handed(items, polls)
    ensures Received(items) == Concat(Chunks(polls))
    ensures forall i :: 0 <= i < |polls| ==> (items[i].Failed? <==> polls[i].UpstreamError?)
  {
    if polls != [] {
      var n := |polls| - 1;
      ForwardedVerbatim(polls[..n], items[..n]);
      var before := Chunks(polls[..n]);
      assert items[n] == Forward(polls[n]);
      if polls[n].Chunk? {
        assert Chunks(polls) == before + [polls[n].data];
        assert (before + [polls[n].data])[..|before|] == before;
        assert Concat(before + [polls[n].data]) == Concat(before) + polls[n].data;
      } else {
        assert Chunks(polls) == before + [] == before;
        assert Received(items[..n]) + [] == Received(items[..n]);
      }
    }
  }

  /** One streamed response: the decoder and the meter of its closure, and the record its drop hook holds. */
  class StreamedResponse {
    const app: AppState
    const decoder: Decoder
    const meter: Meter
    var pending: Option<Record>
    ghost var polled: seq<Poll>

    ghost predicate Valid()
      reads this, app, decoder, meter
    {
      && app.Valid() && app.maxRecords > 0 && meter.Valid()
      && decoder.State() == After(Chunks(polled))
      && meter.seen == Decoded(Chunks(polled))
    }

    constructor (app: AppState, parse: Parser, base: Record)
      requires app.Valid() && app.maxRecords > 0
      ensures Valid() && polled == [] && pending == Some(base) && this.app == app && meter.parse == parse
      ensures fresh(decoder) && fresh(meter)
    {
      this.app := app;
      decoder := new Decoder();
      meter := new Meter(parse);
      pending, polled := Some(base), [];
    }

    /** One poll of the mapped stream. */
    method Next(p: Poll) returns (item: Item)
      requires Valid()
      modifies this`polled, decoder, meter
      ensures Valid() && polled == old(polled) + [p]
      ensures item == Forward(p)
    {
      ChunksSnoc(polled, p);
      match p
      case UpstreamError =>
        polled := polled + [p];
        item := Failed;
      case Chunk(data) =>
        Inspect(data);
        polled := polled + [p];
        item := Forwarded(data);
    }

    /** The same bytes, decoded and metered in flight. */
    method Inspect(data: bytes)
      requires Valid()
      modifies decoder, meter
      ensures app.Valid() && meter.Valid()
      ensures decoder.State() == After(Chunks(polled) + [data])
      ensures meter.seen == Decoded(Chunks(polled) + [data])
    {
      Unfold(Chunks(polled), data);
      var events := decoder.Push(data);
      ObserveAll(events);
    }

    method ObserveAll(events: seq<Event>)
      requires meter.Valid()
      modifies meter
      ensures meter.Valid() && meter.seen == old(meter.seen) + events
    {
      for i := 0 to |events|
        invariant meter.Valid() && meter.seen == old(meter.seen) + events[..i]
      {
        meter.Observe(events[i]);
        assert events[..i + 1] == events[..i] + [events[i]];
        Assoc(old(meter.seen), events[..i], [events[i]]);
      }
      assert events[..|events|] == events;
    }

    /** The drop hook: writes the record if it has not been written yet. */
    method Finish(elapsedMs: u64)
      requires Valid()
      modifies this`pending, app
      ensures Valid() && pending == None
      ensures old(pending).None? ==> app.history == old(app.history)
      ensures old(pending).Some? ==>
        exists m :: IsVerdict(meter.parse, meter.seen, m)
          && app.history == old(app.history) + [old(pending).value.(durationMs := elapsedMs, metered := m)]
    {
      var metered := meter.Snapshot();
      if pending.Some? {
        var r := pending.value.(durationMs := elapsedMs, metered := metered);
        pending := None;
        app.Write(r);
      }
    }

    /** The client polls until it has taken all of these. */
    method PollAll(polls: seq<Poll>) returns (sent: seq<Item>)
      requires Valid() && polled == []
      modifies this`polled, decoder, meter
      ensures Valid() && polled == polls
      ensures Handed(sent, polls)
    {
      sent := [];
      for i := 0 to |polls|
        invariant Valid() && polled == polls[..i] && Handed(sent, polls[..i])
      {
        var item := Next(polls[i]);
        HandedSnoc(sent, polls, i);
        sent := sent + [item];
      }
      assert polls[..|polls|] == polls;
    }

    /** The body's whole life: the client polls `upto` times and goes away. If it polled past the end of
        the upstream, the hook ran there and an empty chunk followed; the hook runs again, to no effect,
        when what is left of the body is dropped. */
    method Stream(upstream: seq<Poll>, upto: nat, elapsedMs: u64) returns (sent: seq<Item>)
      requires Valid() && polled == [] && pending.Some?
      modifies this, decoder, meter, app
      ensures var taken := upstream[..if upto < |upstream| then upto else |upstream|];
              && |sent| == (if upto <= |upstream| then upto else |upstream| + 1)
              && (forall i :: 0 <= i < |taken| ==> sent[i] == Forward(taken[i]))
              && (upto > |upstream| ==> sent[|upstream|] == Forwarded([]))
              && exists m :: IsVerdict(meter.parse, Decoded(Chunks(taken)), m)
                   && app.history == old(app.history) + [old(pending).value.(durationMs := elapsedMs, metered := m)]
      ensures Valid() && pending == None
    {
      var n := if upto < |upstream| then upto else |upstream|;
      sent := PollAll(upstream[..n]);
      if upto > |upstream| {
        Finish(elapsedMs);
        sent := sent + [Forwarded([])];
      }
      Finish(elapsedMs);
    }
  }

  // ---------------------------------------------------------------- metering does not see the chunking

  /** When every frame fits, the events metered are those of the whole byte stream. */
  lemma FittingStreamIsFullyDecoded(chunks: seq<bytes>)
    requires AllFit(Concat(chunks))
    ensures Decoded(chunks) == Events(Frames(Concat(chunks)))
  {
    var s := Concat(chunks);
    forall j: nat | j < |Frames(s)|
      ensures !Lost(chunks, j)
    {
      FittingFrameSurvives(chunks, j);
    }
    SurvivorsAll(Frames(s), chunks, 0);
    EventsAreExact(chunks);
  }

  ghost predicate AllFit(s: bytes) {
    forall j: nat :: j < |Frames(s)| ==> |Frames(s)[j].Wire()| <= MAX_FRAME_BYTES + 1
  }

  /** Two deliveries of the same bytes are metered alike, wherever the chunks were cut and whatever
      errors the upstream interleaved. */
  lemma MeteringIgnoresChunking(parse: Parser, a: seq<Poll>, b: seq<Poll>, m1: Metered, m2: Metered)
    requires Concat(Chunks(a)) == Concat(Chunks(b)) && AllFit(Concat(Chunks(a)))
    requires IsVerdict(parse, Decoded(Chunks(a)), m1) && IsVerdict(parse, Decoded(Chunks(b)), m2)
    ensures m1 == m2
  {
    FittingStreamIsFullyDecoded(Chunks(a));
    FittingStreamIsFullyDecoded(Chunks(b));
    VerdictUnique(parse, Decoded(Chunks(a)), m1, m2);
  }
}
