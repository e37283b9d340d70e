/** Event payloads: what one frame's body says, and how an event is written on the wire.
    Text is kept as its UTF-8 bytes. */
module SsePayload {
  import opened Wrappers
  import opened Framing

  datatype Event = Data(payload: bytes) | Done

  const SPACE: byte := 32
  const COLON: byte := 58
  /** `data:` */
  const DATA_FIELD: bytes := [100, 97, 116, 97, 58]
  /** `[DONE]` */
  const DONE_MARK: bytes := [91, 68, 79, 78, 69, 93]

  // ---------------------------------------------------------------- text

  predicate Continuation(b: byte) { 0x80 <= b <= 0xBF }

  /** Length of the well-formed UTF-8 character at the head of `s`, or 0. */
  function CharLen(s: bytes): (n: nat)
    ensures n <= |s|
  {
    if s == [] then 0
    else if s[0] < 0x80 then 1
    else if |s| < 2 then 0
    else if 0xC2 <= s[0] <= 0xDF then if Continuation(s[1]) then 2 else 0
    else if |s| < 3 then 0
    else if 0xE0 <= s[0] <= 0xEF then
      var lo := if s[0] == 0xE0 then 0xA0 else 0x80;
      var hi := if s[0] == 0xED then 0x9F else 0xBF;
      if lo <= s[1] <= hi && Continuation(s[2]) then 3 else 0
    else if |s| < 4 then 0
    else if 0xF0 <= s[0] <= 0xF4 then
      var lo := if s[0] == 0xF0 then 0x90 else 0x80;
      var hi := if s[0] == 0xF4 then 0x8F else 0xBF;
      if lo <= s[1] <= hi && Continuation(s[2]) && Continuation(s[3]) then 4 else 0
    else 0
  }

  predicate Utf8Valid(s: bytes)
    decreases |s|
  {
    s == [] || (CharLen(s) > 0 && Utf8Valid(s[CharLen(s)..]))
  }

  /** Length of the Unicode white-space character at the head of `s`, or 0. */
  function SpaceLen(s: bytes): (n: nat)
    ensures n <= |s|
  {
    if s == [] then 0
    else if 9 <= s[0] <= 13 || s[0] == SPACE then 1
    else if |s| < 2 then 0
    else if s[0] == 0xC2 && (s[1] == 0x85 || s[1] == 0xA0) then 2
    else if |s| < 3 then 0
    else if s[0] == 0xE1 && s[1] == 0x9A && s[2] == 0x80 then 3
    else if s[0] == 0xE2 && s[1] == 0x80 && (0x80 <= s[2] <= 0x8A || s[2] in {0xA8, 0xA9, 0xAF}) then 3
    else if s[0] == 0xE2 && s[1] == 0x81 && s[2] == 0x9F then 3
    else if s[0] == 0xE3 && s[1] == 0x80 && s[2] == 0x80 then 3
    else 0
  }

  function TrimStart(s: bytes): bytes
    decreases |s|
  {
    if SpaceLen(s) > 0 then TrimStart(s[SpaceLen(s)..]) else s
  }

  /** How much of the last `k` bytes is a white-space character at their head. */
  function TailSpace(s: bytes, k: nat): (n: nat)
    ensures n <= |s|
  {
    if k <= |s| then SpaceLen(s[|s| - k..]) else 0
  }

  /** Length of the white-space character at the end of `s`, or 0. */
  function LastSpace(s: bytes): (n: nat)
    ensures n <= |s|
  {
    if TailSpace(s, 1) == 1 then 1
    else if TailSpace(s, 2) == 2 then 2
    else if TailSpace(s, 3) == 3 then 3
    else 0
  }

  function TrimEnd(s: bytes): bytes
    decreases |s|
  {
    if LastSpace(s) > 0 then TrimEnd(s[..|s| - LastSpace(s)]) else s
  }

  predicate IsDoneMark(payload: bytes) {
    TrimEnd(TrimStart(payload)) == DONE_MARK
  }

  // ---------------------------------------------------------------- fields

  /** The pieces between line feeds; never empty, and no piece holds a line feed. */
  function SplitLines(s: bytes): (r: seq<bytes>)
    ensures |r| > 0
    ensures forall l :: l in r ==> LF !in l
  {
    if s == [] then [[]]
    else
      var r := SplitLines(s[1..]);
      assert r[0] in r;
      if s[0] == LF then [[]] + r else [[s[0]] + r[0]] + r[1..]
  }

  function StripCr(line: bytes): bytes {
    if line != [] && line[|line| - 1] == CR then line[..|line| - 1] else line
  }

  function StripSpace(v: bytes): bytes {
    if v != [] && v[0] == SPACE then v[1..] else v
  }

  /** The value of a `data:` line; comments, blank lines and other fields have none. */
  function LineValue(line: bytes): Option<bytes> {
    var l := StripCr(line);
    if l == [] || l[0] == COLON then None
    else if DATA_FIELD <= l then Some(StripSpace(l[|DATA_FIELD|..]))
    else None
  }

  function Values(lines: seq<bytes>): seq<bytes> {
    if lines == [] then [] else FieldOf(lines[0]) + Values(lines[1..])
  }

  function FieldOf(line: bytes): seq<bytes> {
    match LineValue(line) case Some(v) => [v] case None => []
  }

  function Join(values: seq<bytes>): bytes {
    if values == [] then []
    else if |values| == 1 then values[0]
    else values[0] + [LF] + Join(values[1..])
  }

  function DropLeadingEmpty(values: seq<bytes>): seq<bytes> {
    if values != [] && values[0] == [] then DropLeadingEmpty(values[1..]) else values
  }

  /** The `data` values of a body joined by line feeds. Leading empty values leave no line feed behind. */
  function Payload(body: bytes): bytes {
    Gathered(SplitLines(body))
  }

  function Gathered(lines: seq<bytes>): bytes {
    Join(DropLeadingEmpty(Values(lines)))
  }

  /** What a frame's body announces: nothing for text that is not UTF-8 or carries no data. */
  function EventOf(body: bytes): Option<Event> {
    if !Utf8Valid(body) || Payload(body) == [] then None
    else if IsDoneMark(Payload(body)) then Some(Done)
    else Some(Data(Payload(body)))
  }

  function Events(fs: seq<Frame>): seq<Event> {
    if fs == [] then [] else FrameEvents(fs[0]) + Events(fs[1..])
  }

  function FrameEvents(f: Frame): seq<Event> {
    match EventOf(f.body) case Some(ev) => [ev] case None => []
  }

  lemma EventsOne(f: Frame)
    ensures Events([f]) == FrameEvents(f)
  {
    assert [f][1..] == [];
    assert Events([f]) == FrameEvents(f) + Events([]);
  }

  /** The gateway's line loop with its accumulator. */
  method ParseFrame(body: bytes) returns (r: Option<Event>)
    ensures r == EventOf(body)
  {
    if !Utf8Valid(body) {
      return None;
    }
    var lines := SplitLines(body);
    var data: bytes := [];
    for i := 0 to |lines|
      invariant data == Gathered(lines[..i])
    {
      GatherOne(lines, i);
      var line := StripCr(lines[i]);
      if line == [] || line[0] == COLON {
        continue;
      }
      if DATA_FIELD <= line {
        if data != [] {
          data := data + [LF];
        }
        data := data + StripSpace(line[|DATA_FIELD|..]);
      }
    }
    assert lines[..|lines|] == lines;
    if data == [] {
      return None;
    }
    if IsDoneMark(data) {
      return Some(Done);
    }
    return Some(Data(data));
  }

  /** One more line: what the accumulator becomes. */
  lemma GatherOne(lines: seq<bytes>, i: nat)
    requires i < |lines|
    ensures Gathered(lines[..i + 1]) ==
            (match LineValue(lines[i])
             case None => Gathered(lines[..i])
             case Some(v) => if Gathered(lines[..i]) == [] then v else Gathered(lines[..i]) + [LF] + v)
  {
    assert lines[..i + 1] == lines[..i] + [lines[i]];
    ValuesSnoc(lines[..i], lines[i]);
    if LineValue(lines[i]).Some? {
      JoinAppend(Values(lines[..i]), LineValue(lines[i]).value);
    }
  }

  lemma {:induction false} ValuesSnoc(ls: seq<bytes>, l: bytes)
    ensures Values(ls + [l]) == Values(ls) + FieldOf(l)
    ensures LineValue(l).None? ==> Values(ls + [l]) == Values(ls)
  {
    if ls == [] {
      assert [] + [l] == [l] && [l][1..] == [];
    } else {
      assert (ls + [l])[1..] == ls[1..] + [l];
      ValuesSnoc(ls[1..], l);
      Assoc(FieldOf(ls[0]), Values(ls[1..]), FieldOf(l));
    }
  }

  lemma {:induction false} JoinAppend(vs: seq<bytes>, v: bytes)
    ensures Join(DropLeadingEmpty(vs + [v])) ==
            (if Join(DropLeadingEmpty(vs)) == [] then v else Join(DropLeadingEmpty(vs)) + [LF] + v)
  {
    if vs == [] {
      assert vs + [v] == [v];
    } else if vs[0] == [] {
      assert (vs + [v])[1..] == vs[1..] + [v];
      JoinAppend(vs[1..], v);
    } else {
      JoinSnoc(vs, v);
    }
  }

  lemma {:induction false} JoinSnoc(vs: seq<bytes>, v: bytes)
    requires vs != []
    ensures Join(vs + [v]) == Join(vs) + [LF] + v
  {
    assert (vs + [v])[1..] == vs[1..] + [v];
    if |vs| > 1 {
      JoinSnoc(vs[1..], v);
    }
  }

  lemma {:induction false} EventsAppend(a: seq<Frame>, b: seq<Frame>)
    ensures Events(a + b) == Events(a) + Events(b)
  {
    if a == [] {
      assert a + b == b;
    } else {
      assert (a + b)[1..] == a[1..] + b;
      EventsAppend(a[1..], b);
      Assoc(FrameEvents(a[0]), Events(a[1..]), Events(b));
    }
  }

  // ---------------------------------------------------------------- encoding

  /** How an event is rendered on the wire. */
  function Encode(ev: Event): bytes {
    FrameFor(ev).Wire()
  }

  function FrameFor(ev: Event): Frame {
    Frame(DATA_FIELD + [SPACE] + (match ev case Data(d) => d case Done => DONE_MARK), [LF, LF])
  }

  /** The payloads that survive a trip over the wire. */
  predicate Encodable(d: bytes) {
    d != [] && LF !in d && d[|d| - 1] != CR && !IsDoneMark(d)
  }

  lemma {:induction false} SplitWithoutLf(s: bytes)
    requires LF !in s
    ensures SplitLines(s) == [s]
  {
    if s != [] {
      assert LF !in s[1..];
      SplitWithoutLf(s[1..]);
      assert [s[0]] + s[1..] == s;
    }
  }

  lemma {:induction false} AsciiPrefixKeepsUtf8(p: bytes, s: bytes)
    requires forall b :: b in p ==> b < 0x80
    ensures Utf8Valid(p + s) <==> Utf8Valid(s)
  {
    if p == [] {
      assert p + s == s;
    } else {
      assert p[0] in p && (p + s)[1..] == p[1..] + s;
      assert forall b :: b in p[1..] ==> b in p;
      AsciiPrefixKeepsUtf8(p[1..], s);
    }
  }

  /** What the body written for a payload without line feeds says. */
  lemma PayloadOfEncoded(d: bytes)
    requires LF !in d
    ensures Payload(DATA_FIELD + [SPACE] + d) == StripCr(d)
  {
    var body := DATA_FIELD + [SPACE] + d;
    SplitWithoutLf(body);
    var l := StripCr(body);
    assert l == DATA_FIELD + [SPACE] + StripCr(d);
    assert l[|DATA_FIELD|..] == [SPACE] + StripCr(d);
    assert DATA_FIELD <= l;
    assert LineValue(body) == Some(StripCr(d));
    ValuesSnoc([], body);
    assert [] + [body] == [body];
    JoinAppend([], StripCr(d));
    assert [] + [StripCr(d)] == [StripCr(d)];
  }

  lemma DoneMarkIsDone()
    ensures IsDoneMark(DONE_MARK)
  {
    assert SpaceLen(DONE_MARK) == 0;
    assert SpaceLen(DONE_MARK[5..]) == 0;
    assert SpaceLen(DONE_MARK[4..]) == 0;
    assert SpaceLen(DONE_MARK[3..]) == 0;
    assert TailSpace(DONE_MARK, 1) == TailSpace(DONE_MARK, 2) == TailSpace(DONE_MARK, 3) == 0;
  }

  ghost predicate GoodEvent(ev: Event) {
    ev.Data? ==> Utf8Valid(ev.payload) && Encodable(ev.payload)
  }

  lemma EncodedBodyUtf8(d: bytes)
    ensures Utf8Valid(DATA_FIELD + [SPACE] + d) <==> Utf8Valid(d)
  {
    AsciiPrefixKeepsUtf8(DATA_FIELD + [SPACE], d);
  }

  lemma DoneMarkUtf8()
    ensures Utf8Valid(DONE_MARK)
  {
    AsciiPrefixKeepsUtf8(DONE_MARK, []);
    assert DONE_MARK + [] == DONE_MARK;
  }

  lemma BodyHoldsNoLf(d: bytes)
    requires LF !in d
    ensures LF !in DATA_FIELD + [SPACE] + d
  {
    assert LF !in DATA_FIELD;
    assert LF !in DATA_FIELD + [SPACE];
  }

  /** The frame written for an event is cut as one frame ... */
  lemma EncodedFrame(ev: Event)
    requires GoodEvent(ev)
    ensures WellCut(FrameFor(ev))
  {
    BodyHoldsNoLf(if ev.Data? then ev.payload else DONE_MARK);
    EncodedIsWellCut(ev);
  }

  /** ... and read back as that event. */
  lemma EncodedEvent(ev: Event)
    requires GoodEvent(ev)
    ensures EventOf(FrameFor(ev).body) == Some(ev)
  {
    var d := if ev.Data? then ev.payload else DONE_MARK;
    DoneMarkUtf8();
    DoneMarkIsDone();
    EncodedBodyUtf8(d);
    PayloadOfEncoded(d);
    assert StripCr(d) == d;
  }

  lemma EncodedIsWellCut(ev: Event)
    requires LF !in FrameFor(ev).body
    ensures WellCut(FrameFor(ev))
  {
    var w := FrameFor(ev).Wire();
    forall j: nat | j < |FrameFor(ev).body|
      ensures TerminatorAt(w, j) == 0
    {
      assert w[j] == FrameFor(ev).body[j];
    }
  }

  // ---------------------------------------------------------------- exactly which payloads survive

  /** Every data value costs its line at least the five bytes of `data:`. */
  lemma {:induction false} ValuesShorterThanLines(lines: seq<bytes>)
    ensures |Values(lines)| <= |lines|
    ensures Values(lines) != [] ==> |Join(Values(lines))| + 5 * |Values(lines)| <= |Join(lines)|
  {
    if lines != [] {
      var vs := Values(lines[1..]);
      ValuesShorterThanLines(lines[1..]);
      assert |lines| > 1 ==> |Join(lines)| == |lines[0]| + 1 + |Join(lines[1..])|;
      var f := FieldOf(lines[0]);
      FieldIsShorter(lines[0]);
      if f == [] {
        assert f + vs == vs;
      } else {
        JoinCons(f[0], vs);
        assert f == [f[0]];
      }
    }
  }

  lemma FieldIsShorter(line: bytes)
    ensures |FieldOf(line)| <= 1
    ensures FieldOf(line) != [] ==> |FieldOf(line)[0]| + 5 <= |line|
  {
  }

  lemma JoinCons(v: bytes, vs: seq<bytes>)
    ensures |Join([v] + vs)| == if vs == [] then |v| else |v| + 1 + |Join(vs)|
  {
    assert ([v] + vs)[1..] == vs;
  }

  lemma {:induction false} ValuesHoldNoLf(lines: seq<bytes>)
    requires forall l :: l in lines ==> LF !in l
    ensures forall v :: v in Values(lines) ==> LF !in v
  {
    if lines != [] {
      ValuesHoldNoLf(lines[1..]);
      assert lines[0] in lines;
    }
  }

  lemma {:induction false} JoinSplit(s: bytes)
    ensures Join(SplitLines(s)) == s
  {
    if s != [] {
      var r := SplitLines(s[1..]);
      JoinSplit(s[1..]);
      if s[0] == LF {
        assert ([[]] + r)[1..] == r;
      } else {
        var q := [[s[0]] + r[0]] + r[1..];
        assert q[1..] == r[1..];
        assert Join(q) == [s[0]] + Join(r);
      }
    }
  }

  lemma {:induction false} DropLeadingEmptyShorter(vs: seq<bytes>)
    ensures var ws := DropLeadingEmpty(vs); |ws| <= |vs| && |Join(ws)| <= |Join(vs)| && forall w :: w in ws ==> w in vs
  {
    if vs != [] && vs[0] == [] {
      DropLeadingEmptyShorter(vs[1..]);
    }
  }

  /** A payload that holds a line feed came from a body at least ten bytes longer. */
  lemma LineFeedCostsTenBytes(body: bytes)
    requires LF in Payload(body)
    ensures |Payload(body)| + 10 <= |body|
  {
    var lines := SplitLines(body);
    var vs := Values(lines);
    JoinSplit(body);
    ValuesShorterThanLines(lines);
    ValuesHoldNoLf(lines);
    DropLeadingEmptyShorter(vs);
    var ws := DropLeadingEmpty(vs);
    assert Join(ws) == Payload(body);
    assert ws != [];
    assert ws[0] in ws;
    assert |ws| >= 2;
  }

  lemma {:induction false} EventsComeFromFrames(fs: seq<Frame>, ev: Event)
    requires ev in Events(fs)
    ensures exists f :: f in fs && EventOf(f.body) == Some(ev) && |f.body| + |f.terminator| <= |Wires(fs)|
  {
    if EventOf(fs[0].body) == Some(ev) {
      assert fs[0] in fs;
    } else {
      EventsComeFromFrames(fs[1..], ev);
      var f :| f in fs[1..] && EventOf(f.body) == Some(ev) && |f.body| + |f.terminator| <= |Wires(fs[1..])|;
      assert f in fs;
    }
  }

  /** A payload holding a line feed is never read back as it was written. */
  lemma LineFeedNeverSurvives(d: bytes)
    requires LF in d
    ensures Data(d) !in Events(Frames(Encode(Data(d))))
  {
    var s := Encode(Data(d));
    if Data(d) in Events(Frames(s)) {
      EventsComeFromFrames(Frames(s), Data(d));
      var f :| f in Frames(s) && EventOf(f.body) == Some(Data(d)) && |f.body| + |f.terminator| <= |Wires(Frames(s))|;
      FramesLossless(s);
      FramesWellCut(s);
      LineFeedCostsTenBytes(f.body);
      assert false;
    }
  }

  /** The frames of one encoded event whose payload holds no line feed. */
  lemma FramesOfEncoded(ev: Event)
    requires LF !in FrameFor(ev).body
    ensures Frames(Encode(ev)) == [FrameFor(ev)]
  {
    EncodedIsWellCut(ev);
    FramesUnique([FrameFor(ev)], []);
    assert Wires([FrameFor(ev)]) + [] == Encode(ev);
  }

  /** A payload comes back as it was sent exactly when it is non-empty, holds no line feed,
      does not end in a carriage return and is not the end-of-stream mark. */
  lemma RoundTripExactly(d: bytes)
    requires Utf8Valid(d)
    ensures Events(Frames(Encode(Data(d)))) == [Data(d)] <==> Encodable(d)
  {
    if LF in d {
      LineFeedNeverSurvives(d);
    } else {
      LineFreeEvents(d);
      EncodedBodyUtf8(d);
      PayloadOfEncoded(d);
    }
  }

  lemma LineFreeEvents(d: bytes)
    requires LF !in d
    ensures Events(Frames(Encode(Data(d)))) == FrameEvents(FrameFor(Data(d)))
  {
    FramesOfEncoded(Data(d));
    EventsOne(FrameFor(Data(d)));
  }
}
