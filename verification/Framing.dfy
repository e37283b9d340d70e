/** Event-stream framing: a byte stream cut into frames at blank lines.
    `Frames` and `Rest` describe the whole stream with no bound on a frame's size; the
    bounded incremental decoder is judged against them. */
module Framing {
  import opened Wrappers

  type byte = b: int | 0 <= b < 256
  type bytes = seq<byte>

  const LF: byte := 10
  const CR: byte := 13

  /** `frameLen` bytes are consumed, of which the first `contentLen` are content. */
  datatype FrameEnd = FrameEnd(frameLen: nat, contentLen: nat)

  /** A complete frame as it sits on the wire. */
  datatype Frame = Frame(body: bytes, terminator: bytes) {
    function Wire(): bytes { body + terminator }
  }

  // ---------------------------------------------------------------- terminators

  /** Length of the terminator that starts at `i`, or 0 when none starts there. */
  function TerminatorAt(s: bytes, i: nat): nat {
    if i + 1 < |s| && s[i] == LF && s[i + 1] == LF then 2
    else if i + 2 < |s| && s[i] == LF && s[i + 1] == CR && s[i + 2] == LF then 3
    else 0
  }

  ghost predicate NoneIn(s: bytes, lo: nat, hi: nat) {
    forall j: nat :: lo <= j < hi ==> TerminatorAt(s, j) == 0
  }

  ghost predicate Unterminated(s: bytes) {
    NoneIn(s, 0, |s|)
  }

  /** A terminator starts at `c` and none starts earlier. */
  ghost predicate FirstAt(s: bytes, c: nat) {
    c < |s| && TerminatorAt(s, c) > 0 && NoneIn(s, 0, c)
  }

  lemma {:induction false} FirstExists(s: bytes, n: nat)
    requires n <= |s| && !NoneIn(s, 0, n)
    ensures exists c: nat :: FirstAt(s, c)
  {
    if NoneIn(s, 0, n - 1) {
      assert FirstAt(s, n - 1);
    } else {
      FirstExists(s, n - 1);
    }
  }

  /** Where the first frame of `s` ends, if it is complete. */
  ghost function FrameEndOf(s: bytes): (r: Option<FrameEnd>)
    ensures r.None? <==> Unterminated(s)
    ensures r.Some? ==>
      && FirstAt(s, r.value.contentLen)
      && r.value.frameLen == r.value.contentLen + TerminatorAt(s, r.value.contentLen) <= |s|
  {
    if Unterminated(s) then None
    else
      FirstExists(s, |s|);
      var c: nat :| FirstAt(s, c);
      Some(FrameEnd(c + TerminatorAt(s, c), c))
  }

  /** The gateway's left-to-right scan. */
  method FindFrameEnd(buf: bytes) returns (r: Option<FrameEnd>)
    ensures r.None? <==> Unterminated(buf)
    ensures r.Some? ==> r.value.contentLen < r.value.frameLen <= |buf|
    ensures r == FrameEndOf(buf)
  {
    for i := 0 to |buf|
      invariant NoneIn(buf, 0, i)
    {
      if buf[i] != LF {
        continue;
      }
      if i + 1 < |buf| && buf[i + 1] == LF {
        FirstEndIs(buf, i);
        return Some(FrameEnd(i + 2, i));
      }
      if i + 2 < |buf| && buf[i + 1] == CR && buf[i + 2] == LF {
        FirstEndIs(buf, i);
        return Some(FrameEnd(i + 3, i));
      }
    }
    return None;
  }

  // ---------------------------------------------------------------- whole-stream framing

  /** Every complete frame of the stream, in order, whatever its size. */
  ghost function Frames(s: bytes): seq<Frame>
    decreases |s|
  {
    match FrameEndOf(s)
    case None => []
    case Some(e) => [Frame(s[..e.contentLen], s[e.contentLen..e.frameLen])] + Frames(s[e.frameLen..])
  }

  /** What follows the last complete frame. */
  ghost function Rest(s: bytes): bytes
    decreases |s|
  {
    match FrameEndOf(s)
    case None => s
    case Some(e) => Rest(s[e.frameLen..])
  }

  function Wires(fs: seq<Frame>): bytes {
    if fs == [] then [] else fs[0].Wire() + Wires(fs[1..])
  }

  /** A frame cut where the first terminator of its own bytes ends. */
  ghost predicate WellCut(f: Frame) {
    && NoneIn(f.Wire(), 0, |f.body|)
    && |f.terminator| > 0
    && TerminatorAt(f.Wire(), |f.body|) == |f.terminator|
  }

  /** A terminator that is complete in `a` is the same terminator in `a + b`. */
  lemma TerminatorStable(a: bytes, b: bytes, i: nat)
    ensures TerminatorAt(a, i) > 0 ==> TerminatorAt(a + b, i) == TerminatorAt(a, i)
    ensures i + 2 < |a| ==> TerminatorAt(a + b, i) == TerminatorAt(a, i)
  {
  }

  /** The first terminator found never moves when bytes are appended. */
  lemma FirstEndStable(a: bytes, b: bytes)
    requires FrameEndOf(a).Some?
    ensures FrameEndOf(a + b) == FrameEndOf(a)
  {
    var s := a + b;
    var c := FrameEndOf(a).value.contentLen;
    TerminatorStable(a, b, c);
    forall j: nat | j < c
      ensures TerminatorAt(s, j) == 0
    {
      assert TerminatorAt(a, j) == 0;
      assert s[c] == LF && a[c] == LF;
    }
    FirstEndIs(s, c);
  }

  /** There is only one first terminator. */
  lemma FirstEndIs(s: bytes, c: nat)
    requires FirstAt(s, c)
    ensures FrameEndOf(s) == Some(FrameEnd(c + TerminatorAt(s, c), c))
  {
    assert TerminatorAt(s, c) > 0;
    assert !NoneIn(s, 0, |s|);
    var d := FrameEndOf(s).value.contentLen;
    assert TerminatorAt(s, d) > 0;
    assert !(c < d) && !(d < c);
  }

  /** Unfolds the framing of `s` by one frame. */
  lemma FirstCut(s: bytes) returns (f: Frame, t: bytes)
    requires FrameEndOf(s).Some?
    ensures Frames(s) == [f] + Frames(t) && Rest(s) == Rest(t)
    ensures s == f.Wire() + t && |t| < |s|
    ensures FrameEndOf(s) == Some(FrameEnd(|f.Wire()|, |f.body|))
  {
    var e := FrameEndOf(s).value;
    f, t := Frame(s[..e.contentLen], s[e.contentLen..e.frameLen]), s[e.frameLen..];
    assert f.Wire() == s[..e.frameLen];
  }

  /** Framing `a + b` is framing `a`, then framing what `a` left over together with `b`. */
  lemma {:induction false} SplitAppend(a: bytes, b: bytes)
    ensures Frames(a + b) == Frames(a) + Frames(Rest(a) + b)
    ensures Rest(a + b) == Rest(Rest(a) + b)
    decreases |a|
  {
    if FrameEndOf(a).Some? {
      var f, t := FirstCut(a);
      FirstEndStable(a, b);
      var f', t' := FirstCut(a + b);
      Assoc(f.Wire(), t, b);
      assert t' == t + b && f' == f by {
        assert (a + b)[|f.Wire()|..] == t + b;
        assert f'.Wire() == (a + b)[..|f.Wire()|] == f.Wire();
        assert f'.body == f'.Wire()[..|f.body|] && f.body == f.Wire()[..|f.body|];
        assert f'.terminator == f'.Wire()[|f.body|..] && f.terminator == f.Wire()[|f.body|..];
      }
      SplitAppend(t, b);
      Assoc([f], Frames(t), Frames(Rest(t) + b));
    }
  }

  /** Framing loses nothing and leaves no terminator behind. */
  lemma {:induction false} FramesLossless(s: bytes)
    ensures Wires(Frames(s)) + Rest(s) == s
    ensures Unterminated(Rest(s))
    decreases |s|
  {
    if FrameEndOf(s).Some? {
      var f, t := FirstCut(s);
      FramesLossless(t);
      WiresCons(f, Frames(t));
      Assoc(f.Wire(), Wires(Frames(t)), Rest(t));
    }
  }

  lemma WiresCons(f: Frame, fs: seq<Frame>)
    ensures Wires([f] + fs) == f.Wire() + Wires(fs)
  {
    assert ([f] + fs)[1..] == fs;
  }

  lemma Assoc<T>(a: seq<T>, b: seq<T>, c: seq<T>)
    ensures a + b + c == a + (b + c)
  {
  }

  /** Every frame is cut at its own first terminator. */
  lemma {:induction false} FramesWellCut(s: bytes)
    ensures forall f :: f in Frames(s) ==> WellCut(f)
    decreases |s|
  {
    if FrameEndOf(s).Some? {
      var f, t := FirstCut(s);
      FirstFrameWellCut(s, f, t);
      FramesWellCut(t);
    }
  }

  lemma FirstFrameWellCut(s: bytes, f: Frame, t: bytes)
    requires s == f.Wire() + t && FrameEndOf(s) == Some(FrameEnd(|f.Wire()|, |f.body|))
    ensures WellCut(f)
  {
    var w := f.Wire();
    assert |w| - |f.body| == |f.terminator|;
    forall j: nat | j < |f.body|
      ensures TerminatorAt(w, j) == 0
    {
      assert TerminatorAt(s, j) == 0;
      TerminatorStable(w, t, j);
    }
    assert TerminatorAt(w, |f.body|) == TerminatorAt(s, |f.body|);
  }

  /** A frame ends in a blank line, with or without a carriage return in it. */
  lemma TerminatorsExactly(body: bytes, terminator: bytes)
    ensures WellCut(Frame(body, terminator)) ==> terminator == [LF, LF] || terminator == [LF, CR, LF]
    ensures LF !in body ==> WellCut(Frame(body, [LF, LF])) && WellCut(Frame(body, [LF, CR, LF]))
  {
    var n := |body|;
    var f := Frame(body, terminator);
    assert |terminator| == 2 ==> terminator == [f.Wire()[n], f.Wire()[n + 1]];
    assert |terminator| == 3 ==> terminator == [f.Wire()[n], f.Wire()[n + 1], f.Wire()[n + 2]];
    forall j: nat | j < n && LF !in body
      ensures TerminatorAt(body + [LF, LF], j) == 0 && TerminatorAt(body + [LF, CR, LF], j) == 0
    {
      assert (body + [LF, LF])[j] == body[j] && (body + [LF, CR, LF])[j] == body[j];
    }
  }

  /** ... and it is the only way to cut the stream that does so. */
  lemma {:induction false} FramesUnique(fs: seq<Frame>, r: bytes)
    requires forall f :: f in fs ==> WellCut(f)
    requires Unterminated(r)
    ensures Frames(Wires(fs) + r) == fs
    ensures Rest(Wires(fs) + r) == r
    decreases |fs|
  {
    if fs == [] {
      assert Wires(fs) + r == r;
    } else {
      var f, t := fs[0], Wires(fs[1..]) + r;
      var s := f.Wire() + t;
      assert Wires(fs) + r == s;
      assert fs[0] in fs;
      FirstEndIs(f.Wire(), |f.body|);
      FirstEndStable(f.Wire(), t);
      assert s[|f.Wire()|..] == t;
      assert s[..|f.body|] == f.body && s[|f.body|..|f.Wire()|] == f.terminator;
      FramesUnique(fs[1..], r);
    }
  }

  // ---------------------------------------------------------------- cutting a partial frame short

  ghost predicate IsTail(t: bytes, r: bytes) {
    |t| <= |r| && t == r[|r| - |t|..]
  }

  /** Two retained bytes are enough: a terminator completed by later bytes starts inside the tail. */
  lemma TailKeepsFirstEnd(r: bytes, t: bytes, b: bytes)
    requires Unterminated(r) && IsTail(t, r) && |t| >= 2
    ensures Unterminated(r + b) <==> Unterminated(t + b)
    ensures FrameEndOf(r + b).None? <==> FrameEndOf(t + b).None?
    ensures FrameEndOf(r + b).Some? ==>
      (r + b)[FrameEndOf(r + b).value.frameLen..] == (t + b)[FrameEndOf(t + b).value.frameLen..]
  {
    var k := |r| - |t|;
    var x, y := r + b, t + b;
    assert y == x[k..];
    forall j: nat | j < |y|
      ensures TerminatorAt(x, j + k) == TerminatorAt(y, j)
    {
    }
    forall j: nat | j < k
      ensures TerminatorAt(x, j) == 0
    {
      assert TerminatorAt(r, j) == 0;
      TerminatorStable(r, b, j);
    }
    if FrameEndOf(y).Some? {
      var c := FrameEndOf(y).value.contentLen;
      assert TerminatorAt(x, c + k) == TerminatorAt(y, c);
      forall j: nat | j < c + k
        ensures TerminatorAt(x, j) == 0
      {
        if j >= k { assert TerminatorAt(x, (j - k) + k) == TerminatorAt(y, j - k); }
      }
      FirstEndIs(x, c + k);
    } else {
      forall j: nat | j < |x|
        ensures TerminatorAt(x, j) == 0
      {
        if j >= k { assert TerminatorAt(x, (j - k) + k) == TerminatorAt(y, j - k); }
      }
    }
  }

  /** One retained byte is not enough: here it hides the only terminator of the stream. */
  lemma OneTailByteIsNotEnough()
    ensures var r: bytes := [120, LF, CR];
            Unterminated(r) && IsTail([CR], r) && |Frames(r + [LF])| == 1 && Frames([CR] + [LF]) == []
  {
    var r: bytes := [120, LF, CR];
    var s := r + [LF];
    FirstEndIs(s, 1);
    assert s[FrameEndOf(s).value.frameLen..] == [];
    assert Unterminated([CR] + [LF]);
  }

  /** After the cut, every frame but the one that was cut short comes out as it would have. */
  lemma TailFramesAgree(r: bytes, t: bytes, b: bytes)
    requires Unterminated(r) && IsTail(t, r) && |t| >= 2
    ensures |Frames(r + b)| == |Frames(t + b)|
    ensures Frames(r + b) != [] ==> Frames(r + b)[1..] == Frames(t + b)[1..] && Rest(r + b) == Rest(t + b)
    ensures Frames(r + b) == [] ==> Rest(r + b) == r + b && Rest(t + b) == t + b
  {
    TailKeepsFirstEnd(r, t, b);
  }
}
