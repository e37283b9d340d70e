/** What the lines of a frame's body amount to, told line by line as they are written. */
module SseLines {
  import opened Framing
  import opened SsePayload

  /** A line as written: a data line with its value, with or without the space and a carriage return,
      or any other line. */
  datatype Line = DataLine(value: bytes, spaced: bool, cr: bool) | OtherLine(text: bytes)

  function Written(l: Line): bytes {
    match l
    case DataLine(v, spaced, cr) => DATA_FIELD + (if spaced then [SPACE] else []) + v + (if cr then [CR] else [])
    case OtherLine(text) => text
  }

  /** A line is written in one way only: a value that begins with a space needs the space ahead of it,
      one that ends in a carriage return needs another behind it. */
  predicate Proper(l: Line) {
    match l
    case DataLine(v, spaced, cr) =>
      && LF !in v
      && (!spaced ==> v == [] || v[0] != SPACE)
      && (!cr ==> v == [] || v[|v| - 1] != CR)
    case OtherLine(text) => LF !in text && !(DATA_FIELD <= text)
  }

  predicate AllProper(ls: seq<Line>) {
    forall l :: l in ls ==> Proper(l)
  }

  /** The lines with line feeds between them. */
  function Body(ls: seq<Line>): bytes {
    if ls == [] then []
    else if |ls| == 1 then Written(ls[0])
    else Written(ls[0]) + [LF] + Body(ls[1..])
  }

  /** The values of the data lines, in order. */
  function DataValues(ls: seq<Line>): seq<bytes> {
    if ls == [] then []
    else (if ls[0].DataLine? then [ls[0].value] else []) + DataValues(ls[1..])
  }

  // ---------------------------------------------------------------- lines

  lemma WrittenHoldsNoLf(l: Line)
    requires Proper(l)
    ensures LF !in Written(l)
  {
    assert LF !in DATA_FIELD;
  }

  lemma StripCrOff(b: bytes)
    ensures StripCr(b + [CR]) == b
  {
  }

  lemma CrIsOptional(l: Line)
    requires l.DataLine? && Proper(l)
    ensures StripCr(Written(l)) == DATA_FIELD + (if l.spaced then [SPACE] else []) + l.value
  {
    var b := DATA_FIELD + (if l.spaced then [SPACE] else []) + l.value;
    if l.cr {
      StripCrOff(b);
    } else {
      assert Written(l) == b;
      assert b[|b| - 1] == if l.value != [] then l.value[|l.value| - 1] else if l.spaced then SPACE else COLON;
    }
  }

  lemma ValueAfterField(line: bytes, rest: bytes)
    requires StripCr(line) == DATA_FIELD + rest
    ensures FieldOf(line) == [StripSpace(rest)]
  {
    assert (DATA_FIELD + rest)[|DATA_FIELD|..] == rest;
    assert DATA_FIELD <= DATA_FIELD + rest;
  }

  lemma NoValueElsewhere(text: bytes)
    requires !(DATA_FIELD <= text)
    ensures FieldOf(text) == []
  {
    assert DATA_FIELD <= StripCr(text) ==> DATA_FIELD <= text;
  }

  /** A data line has its value, whether or not the space is there; no other line has one. */
  lemma LineMeans(l: Line)
    requires Proper(l)
    ensures FieldOf(Written(l)) == if l.DataLine? then [l.value] else []
  {
    if l.DataLine? {
      var rest := (if l.spaced then [SPACE] else []) + l.value;
      CrIsOptional(l);
      Assoc(DATA_FIELD, if l.spaced then [SPACE] else [], l.value);
      ValueAfterField(Written(l), rest);
      SpaceOff(l.value, l.spaced);
    } else {
      NoValueElsewhere(l.text);
    }
  }

  lemma SpaceOff(v: bytes, spaced: bool)
    requires !spaced ==> v == [] || v[0] != SPACE
    ensures StripSpace((if spaced then [SPACE] else []) + v) == v
  {
    if spaced {
      assert ([SPACE] + v)[1..] == v;
    } else {
      assert [] + v == v;
    }
  }

  /** Every line can be told as one of these. */
  lemma EveryLine(text: bytes) returns (l: Line)
    requires LF !in text
    ensures Proper(l) && Written(l) == text
  {
    if DATA_FIELD <= text {
      l := EveryDataLine(text[|DATA_FIELD|..]);
      assert text == DATA_FIELD + text[|DATA_FIELD|..];
      Assoc3(DATA_FIELD, if l.spaced then [SPACE] else [], l.value, if l.cr then [CR] else []);
    } else {
      l := OtherLine(text);
    }
  }

  lemma Assoc3(a: bytes, b: bytes, c: bytes, d: bytes)
    ensures a + b + c + d == a + (b + c + d)
  {
  }

  predicate EndsInCr(b: bytes) { b != [] && b[|b| - 1] == CR }

  lemma CrBack(b: bytes)
    requires LF !in b
    ensures b == StripCr(b) + (if EndsInCr(b) then [CR] else [])
    ensures LF !in StripCr(b)
  {
  }

  predicate StartsWithSpace(b: bytes) { b != [] && b[0] == SPACE }

  lemma SpaceBack(b: bytes)
    requires LF !in b
    ensures b == (if StartsWithSpace(b) then [SPACE] else []) + StripSpace(b)
    ensures LF !in StripSpace(b)
    ensures StripSpace(b) != [] ==> b != [] && StripSpace(b)[|StripSpace(b)| - 1] == b[|b| - 1]
    ensures !StartsWithSpace(b) ==> StripSpace(b) == b
  {
  }

  lemma EveryDataLine(rest: bytes) returns (l: Line)
    requires LF !in rest
    ensures l.DataLine? && Proper(l)
    ensures (if l.spaced then [SPACE] else []) + l.value + (if l.cr then [CR] else []) == rest
  {
    CrBack(rest);
    SpaceBack(StripCr(rest));
    l := DataLine(StripSpace(StripCr(rest)), StartsWithSpace(StripCr(rest)), EndsInCr(rest));
  }

  // ---------------------------------------------------------------- bodies

  lemma {:induction false} SplitAtLineFeed(a: bytes, b: bytes)
    requires LF !in a
    ensures SplitLines(a + [LF] + b) == [a] + SplitLines(b)
  {
    var s := a + [LF] + b;
    if a == [] {
      assert s[1..] == b;
    } else {
      assert s[0] == a[0] && a[0] in a;
      assert s[1..] == a[1..] + [LF] + b;
      SplitAtLineFeed(a[1..], b);
      assert [a[0]] + a[1..] == a;
      assert ([a[1..]] + SplitLines(b))[1..] == SplitLines(b);
    }
  }

  lemma {:induction false} BodyValues(ls: seq<Line>)
    requires ls != [] && AllProper(ls)
    ensures Values(SplitLines(Body(ls))) == DataValues(ls)
  {
    assert ls[0] in ls;
    WrittenHoldsNoLf(ls[0]);
    LineMeans(ls[0]);
    if |ls| == 1 {
      SplitWithoutLf(Written(ls[0]));
      assert [Written(ls[0])][1..] == [] && ls[1..] == [];
    } else {
      SplitAtLineFeed(Written(ls[0]), Body(ls[1..]));
      BodyValues(ls[1..]);
      var lines := SplitLines(Body(ls[1..]));
      assert ([Written(ls[0])] + lines)[1..] == lines;
    }
  }

  lemma {:induction false} EmptiesVanish(empties: seq<bytes>, kept: seq<bytes>)
    requires forall v :: v in empties ==> v == []
    requires kept == [] || kept[0] != []
    ensures DropLeadingEmpty(empties + kept) == kept
  {
    if empties == [] {
      assert empties + kept == kept;
    } else {
      assert empties[0] in empties && forall v :: v in empties[1..] ==> v in empties;
      assert (empties + kept)[1..] == empties[1..] + kept;
      EmptiesVanish(empties[1..], kept);
    }
  }

  /** Data lines and other lines in any order, with or without the space: the payload is the data values joined
      by line feeds, less the leading empty ones. */
  lemma LinesAmountTo(ls: seq<Line>, empties: seq<bytes>, kept: seq<bytes>)
    requires ls != [] && AllProper(ls) && DataValues(ls) == empties + kept
    requires forall v :: v in empties ==> v == []
    requires kept == [] || kept[0] != []
    ensures Payload(Body(ls)) == Join(kept)
  {
    BodyValues(ls);
    EmptiesVanish(empties, kept);
  }

  /** Every body is such lines. */
  lemma {:induction false} EveryBody(lines: seq<bytes>) returns (ls: seq<Line>)
    requires lines != [] && forall l :: l in lines ==> LF !in l
    ensures AllProper(ls) && |ls| == |lines| && Body(ls) == Join(lines)
  {
    assert lines[0] in lines;
    var first := EveryLine(lines[0]);
    ls := [first];
    if |lines| > 1 {
      var more := EveryBody(lines[1..]);
      ls := [first] + more;
      assert ls[1..] == more;
    }
  }

  lemma BodyAsLines(body: bytes) returns (ls: seq<Line>)
    ensures ls != [] && AllProper(ls) && Body(ls) == body
  {
    JoinSplit(body);
    ls := EveryBody(SplitLines(body));
  }

  /** Joined values fall apart into the same values again. */
  lemma {:induction false} JoinedFallApart(values: seq<bytes>)
    requires values != [] && forall v :: v in values ==> LF !in v
    ensures SplitLines(Join(values)) == values
  {
    assert values[0] in values;
    if |values| == 1 {
      SplitWithoutLf(values[0]);
    } else {
      SplitAtLineFeed(values[0], Join(values[1..]));
      JoinedFallApart(values[1..]);
      assert values == [values[0]] + values[1..];
    }
  }

  /** The space after `data:` may be left out. */
  lemma SpaceIsOptional(d: bytes)
    requires LF !in d && (d == [] || d[0] != SPACE)
    ensures Payload(DATA_FIELD + d) == Payload(DATA_FIELD + [SPACE] + d) == StripCr(d)
  {
    PayloadOfEncoded(d);
    CrBack(d);
    var l := DataLine(StripCr(d), false, EndsInCr(d));
    assert Written(l) == DATA_FIELD + d by {
      assert DATA_FIELD + [] == DATA_FIELD;
      Assoc(DATA_FIELD, StripCr(d), if EndsInCr(d) then [CR] else []);
    }
    OneLine(l, DATA_FIELD + d);
  }

  lemma OneLine(l: Line, body: bytes)
    requires l.DataLine? && Proper(l) && Written(l) == body
    ensures Payload(body) == l.value
  {
    assert [l][1..] == [];
    assert DataValues([l]) == [l.value] == [l.value] + [] == [] + [l.value];
    if l.value == [] {
      LinesAmountTo([l], [l.value], []);
    } else {
      LinesAmountTo([l], [], [l.value]);
    }
  }
}
