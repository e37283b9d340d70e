/** The bounded incremental decoder: one class whose state survives from chunk to chunk, and the
    proof that, over any number of chunks, it loses exactly the frames whose retained part
    outgrew the cap at a chunk boundary. */
module SseDecoder {
  import opened Wrappers
  import opened Framing
  import opened SsePayload
  import opened Arithmetic

  const MAX_FRAME_BYTES: nat := 1024 * 1024
  const RESYNC_TAIL: nat := 2

  /** The decoder's whole state. */
  datatype View = View(buf: bytes, desynced: bool, dropped: u64)

  const FRESH := View([], false, 0)

  /** The frames one push may announce: all but the first while resynchronising. */
  function Announced(desynced: bool, fs: seq<Frame>): seq<Frame> {
    if desynced && fs != [] then fs[1..] else fs
  }

  ghost function PushFrames(v: View, chunk: bytes): seq<Frame> {
    Announced(v.desynced, Frames(v.buf + chunk))
  }

  /** Whether a push ends by discarding the partial frame. */
  ghost predicate Discards(v: View, chunk: bytes) {
    |Rest(v.buf + chunk)| > MAX_FRAME_BYTES
  }

  /** The state once every complete frame has been taken out. */
  ghost function Drained(v: View, chunk: bytes): View {
    View(Rest(v.buf + chunk), v.desynced && Frames(v.buf + chunk) == [], v.dropped)
  }

  /** A partial frame past the cap is discarded, all but its last bytes. */
  function Capped(v: View): View {
    if |v.buf| <= MAX_FRAME_BYTES then v
    else View(v.buf[|v.buf| - RESYNC_TAIL..], true, SatAdd(v.dropped, 1))
  }

  ghost function AfterPush(v: View, chunk: bytes): View {
    Capped(Drained(v, chunk))
  }

  class Decoder {
    var buf: bytes
    var desynced: bool
    var droppedFrames: u64

    ghost function State(): View
      reads this
    {
      View(buf, desynced, droppedFrames)
    }

    constructor ()
      ensures State() == FRESH
    {
      buf, desynced, droppedFrames := [], false, 0;
    }

    /** How much of an unfinished frame is buffered. */
    method Pending() returns (n: nat)
      ensures n == |State().buf|
    {
      n := |buf|;
    }

    /** One chunk in; the events of the frames it completes out. */
    method Push(chunk: bytes) returns (out: seq<Event>)
      modifies this
      ensures State() == AfterPush(old(State()), chunk)
      ensures out == Events(PushFrames(old(State()), chunk))
      ensures |buf| <= MAX_FRAME_BYTES
    {
      ghost var before, all, start := State(), buf + chunk, desynced;
      buf := buf + chunk;
      out := [];
      ghost var done: seq<Frame> := [];
      var end := FindFrameEnd(buf);
      while end.Some?
        invariant end == FrameEndOf(buf)
        invariant Frames(all) == done + Frames(buf) && Rest(all) == Rest(buf)
        invariant desynced == (start && done == [])
        invariant out == Events(Announced(start, done))
        invariant droppedFrames == before.dropped
        decreases |buf|
      {
        ghost var f := Frame(buf[..end.value.contentLen], buf[end.value.contentLen..end.value.frameLen]);
        FirstFrame(done, f, buf);
        AnnouncedSnoc(start, done, f);
        var announced := TakeFrame(end.value);
        out := out + announced;
        done := done + [f];
        end := FindFrameEnd(buf);
      }
      assert done + [] == done;
      assert State() == Drained(before, chunk);
      EnforceCap();
    }

    /** Splits one complete frame off the buffer; the first one after a discard is swallowed. */
    method TakeFrame(end: FrameEnd) returns (out: seq<Event>)
      requires FrameEndOf(buf) == Some(end)
      modifies this`buf, this`desynced
      ensures buf == old(buf[end.frameLen..]) && !desynced
      ensures out == if old(desynced) then [] else
                Events([Frame(old(buf)[..end.contentLen], old(buf)[end.contentLen..end.frameLen])])
    {
      var frame := buf[..end.frameLen];
      buf := buf[end.frameLen..];
      if desynced {
        desynced := false;
        return [];
      }
      var body := frame[..end.contentLen];
      assert body == old(buf)[..end.contentLen];
      EventsOne(Frame(body, old(buf)[end.contentLen..end.frameLen]));
      var ev := ParseFrame(body);
      out := if ev.Some? then [ev.value] else [];
    }

    method EnforceCap()
      modifies this
      ensures State() == Capped(old(State()))
      ensures |buf| <= MAX_FRAME_BYTES
    {
      if |buf| > MAX_FRAME_BYTES {
        buf := buf[|buf| - RESYNC_TAIL..];
        desynced := true;
        droppedFrames := SatAdd(droppedFrames, 1);
      }
    }
  }

  lemma FirstFrame(done: seq<Frame>, f: Frame, buf: bytes)
    requires FrameEndOf(buf).Some?
    requires var e := FrameEndOf(buf).value; f == Frame(buf[..e.contentLen], buf[e.contentLen..e.frameLen])
    ensures done + Frames(buf) == done + [f] + Frames(buf[FrameEndOf(buf).value.frameLen..])
    ensures Rest(buf) == Rest(buf[FrameEndOf(buf).value.frameLen..])
  {
    Assoc(done, [f], Frames(buf[FrameEndOf(buf).value.frameLen..]));
  }

  /** One more frame: swallowed if it is the first one of a resynchronising push. */
  lemma AnnouncedSnoc(start: bool, done: seq<Frame>, f: Frame)
    ensures Events(Announced(start, done + [f])) ==
            Events(Announced(start, done)) + (if start && done == [] then [] else Events([f]))
  {
    if start && done == [] {
      assert Announced(start, done + [f]) == [];
    } else {
      assert Announced(start, done + [f]) == Announced(start, done) + [f];
      EventsAppend(Announced(start, done), [f]);
    }
  }
}
