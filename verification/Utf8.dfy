/** The encoding of text in bytes, and what validity, white space and the end-of-stream mark are in its terms. */
module Utf8 {
  import opened Framing
  import opened SsePayload
  import Text

  /** The bytes of one Unicode scalar value. */
  function EncodeChar(c: char): (r: bytes)
    ensures 1 <= |r| <= 4
  {
    var n := c as int;
    if n < 0x80 then [n]
    else if n < 0x800 then [0xC0 + n / 64, 0x80 + n % 64]
    else if n < 0x1_0000 then [0xE0 + n / 4096, 0x80 + n / 64 % 64, 0x80 + n % 64]
    else [0xF0 + n / 262144, 0x80 + n / 4096 % 64, 0x80 + n / 64 % 64, 0x80 + n % 64]
  }

  function EncodeText(t: string): bytes {
    if t == "" then [] else EncodeChar(t[0]) + EncodeText(t[1..])
  }

  // ---------------------------------------------------------------- validity

  lemma EncodedCharIsValid(c: char, rest: bytes)
    ensures CharLen(EncodeChar(c) + rest) == |EncodeChar(c)|
  {
  }

  /** A number of base-64 digits gives its digits back. */
  lemma LastDigit(q: nat, r: nat)
    requires r < 64
    ensures (64 * q + r) / 64 == q && (64 * q + r) % 64 == r
  {
  }

  lemma DivideTwice(n: nat)
    ensures n / 4096 == n / 64 / 64 && n / 262144 == n / 64 / 64 / 64
  {
  }

  lemma Digits(w: nat, x: nat, y: nat, z: nat)
    requires x < 64 && y < 64 && z < 64
    ensures var n := 64 * (64 * (64 * w + x) + y) + z;
            n / 262144 == w && n / 4096 % 64 == x && n / 64 % 64 == y && n % 64 == z
  {
    var b := 64 * w + x;
    var a := 64 * b + y;
    LastDigit(w, x);
    LastDigit(b, y);
    LastDigit(a, z);
    DivideTwice(64 * a + z);
  }

  lemma DecodeTwo(s: bytes) returns (c: char)
    requires CharLen(s) == 2
    ensures s[..2] == EncodeChar(c)
  {
    var x: int, y: int := s[0], s[1];
    c := ((x - 0xC0) * 64 + (y - 0x80)) as char;
  }

  lemma DecodeThree(s: bytes) returns (c: char)
    requires CharLen(s) == 3
    ensures s[..3] == EncodeChar(c)
  {
    var x: nat, y: nat, z: nat := s[0] as int - 0xE0, s[1] as int - 0x80, s[2] as int - 0x80;
    Digits(0, x, y, z);
    var n: nat := 64 * (64 * x + y) + z;
    assert 0x800 <= n < 0x1_0000 && !(0xD800 <= n < 0xE000);
    c := n as char;
    assert s[..3] == [s[0], s[1], s[2]];
  }

  lemma DecodeFour(s: bytes) returns (c: char)
    requires CharLen(s) == 4
    ensures s[..4] == EncodeChar(c)
  {
    var w: nat, x: nat := s[0] as int - 0xF0, s[1] as int - 0x80;
    var y: nat, z: nat := s[2] as int - 0x80, s[3] as int - 0x80;
    Digits(w, x, y, z);
    var n: nat := 64 * (64 * (64 * w + x) + y) + z;
    assert 0x1_0000 <= n < 0x11_0000;
    c := n as char;
    assert s[..4] == [s[0], s[1], s[2], s[3]];
  }

  lemma DecodeChar(s: bytes) returns (c: char)
    requires CharLen(s) > 0
    ensures s[..CharLen(s)] == EncodeChar(c)
  {
    match CharLen(s)
    case 1 => c := s[0] as char;
    case 2 => c := DecodeTwo(s);
    case 3 => c := DecodeThree(s);
    case 4 => c := DecodeFour(s);
  }

  lemma {:induction false} TextIsValid(t: string)
    ensures Utf8Valid(EncodeText(t))
  {
    if t != "" {
      TextIsValid(t[1..]);
      EncodedCharIsValid(t[0], EncodeText(t[1..]));
    }
  }

  lemma {:induction false} DecodeText(s: bytes) returns (t: string)
    requires Utf8Valid(s)
    ensures EncodeText(t) == s
    decreases |s|
  {
    t := "";
    if s != [] {
      var c := DecodeChar(s);
      var more := DecodeText(s[CharLen(s)..]);
      t := [c] + more;
      assert t[1..] == more;
    }
  }

  /** Bytes are valid exactly when they are the encoding of some text. */
  lemma ValidExactly(s: bytes)
    ensures Utf8Valid(s) <==> exists t: string :: EncodeText(t) == s
  {
    if Utf8Valid(s) {
      var t := DecodeText(s);
    }
    if t: string :| EncodeText(t) == s {
      TextIsValid(t);
    }
  }

  // ---------------------------------------------------------------- white space

  /** White space at the head of encoded text is a white-space character there. */
  lemma SpaceExactly(c: char, rest: bytes)
    ensures SpaceLen(EncodeChar(c) + rest) == if Text.IsSpace(c) then |EncodeChar(c)| else 0
  {
  }

  lemma {:induction false} TrimStartOfText(t: string)
    ensures TrimStart(EncodeText(t)) == EncodeText(Text.TrimStart(t))
  {
    if t != "" {
      SpaceExactly(t[0], EncodeText(t[1..]));
      if Text.IsSpace(t[0]) {
        assert EncodeText(t)[|EncodeChar(t[0])|..] == EncodeText(t[1..]);
        TrimStartOfText(t[1..]);
      }
    }
  }

  lemma {:induction false} EncodeSnoc(t: string, c: char)
    ensures EncodeText(t + [c]) == EncodeText(t) + EncodeChar(c)
  {
    if t == "" {
      assert t + [c] == [c] && [c][1..] == "";
      assert EncodeText([c]) == EncodeChar(c) + EncodeText("");
    } else {
      assert (t + [c])[1..] == t[1..] + [c];
      EncodeSnoc(t[1..], c);
      Assoc(EncodeChar(t[0]), EncodeText(t[1..]), EncodeChar(c));
    }
  }

  /** A lead byte and then continuation bytes, as many as its length says. */
  predicate CharShaped(e: bytes) {
    && 1 <= |e| <= 4
    && (|e| == 1 ==> e[0] < 0x80)
    && (|e| > 1 ==> e[0] >= 0xC0)
    && forall i :: 1 <= i < |e| ==> Continuation(e[i])
  }

  lemma EncodedCharIsShaped(c: char)
    ensures CharShaped(EncodeChar(c))
  {
  }

  /** White space of one, two or three bytes starts with a byte of its own sort. */
  lemma SpaceStarts(t: bytes)
    ensures |t| == 1 && SpaceLen(t) == 1 ==> t[0] < 0x80
    ensures |t| == 2 && SpaceLen(t) == 2 ==> t[0] >= 0xC0 && Continuation(t[1])
    ensures |t| == 3 && SpaceLen(t) == 3 ==> t[0] >= 0xC0 && Continuation(t[1]) && Continuation(t[2])
  {
  }

  /** Neither fewer nor more bytes at the end of a text than its last character has are white space. */
  lemma OtherTails(s: bytes, e: bytes, k: nat)
    requires CharShaped(e) && |e| <= |s| && s[|s| - |e|..] == e && 1 <= k <= 3 && k != |e|
    ensures TailSpace(s, k) != k
  {
    var n := |s|;
    if k <= n {
      SpaceStarts(s[n - k..]);
      assert s[n - 1] == e[|e| - 1];
      assert |e| >= 2 ==> s[n - 2] == e[|e| - 2];
      assert |e| >= 3 ==> s[n - 3] == e[|e| - 3];
    }
  }

  lemma SpacesAreShort(e: bytes)
    ensures SpaceLen(e) <= 3
  {
  }

  /** The last bytes of encoded text are white space exactly when its last character is. */
  lemma LastSpaceExactly(p: bytes, c: char)
    ensures LastSpace(p + EncodeChar(c)) == if Text.IsSpace(c) then |EncodeChar(c)| else 0
  {
    var e := EncodeChar(c);
    var s := p + e;
    assert s[|s| - |e|..] == e;
    EncodedCharIsShaped(c);
    if |e| != 1 { OtherTails(s, e, 1); }
    if |e| != 2 { OtherTails(s, e, 2); }
    if |e| != 3 { OtherTails(s, e, 3); }
    SpaceExactly(c, []);
    assert e + [] == e;
    SpacesAreShort(e);
    assert TailSpace(s, |e|) == SpaceLen(e);
  }

  lemma LastCharTrims(p: bytes, c: char)
    ensures TrimEnd(p + EncodeChar(c)) == if Text.IsSpace(c) then TrimEnd(p) else p + EncodeChar(c)
  {
    var s, e := p + EncodeChar(c), EncodeChar(c);
    LastSpaceExactly(p, c);
    assert s[..|s| - |e|] == p;
  }

  lemma {:induction false} TrimEndOfText(t: string)
    ensures TrimEnd(EncodeText(t)) == EncodeText(Text.TrimEnd(t))
  {
    if t != "" {
      var n := |t| - 1;
      assert t == t[..n] + [t[n]];
      EncodeSnoc(t[..n], t[n]);
      LastCharTrims(EncodeText(t[..n]), t[n]);
      if Text.IsSpace(t[n]) {
        TrimEndOfText(t[..n]);
      }
    }
  }

  // ---------------------------------------------------------------- the end of the stream

  lemma {:induction false} EncodingIsInjective(a: string, b: string)
    requires EncodeText(a) == EncodeText(b)
    ensures a == b
  {
    if a == "" || b == "" {
      assert a != "" ==> |EncodeText(a)| > 0;
      assert b != "" ==> |EncodeText(b)| > 0;
    } else {
      EncodedCharIsValid(a[0], EncodeText(a[1..]));
      EncodedCharIsValid(b[0], EncodeText(b[1..]));
      var k := |EncodeChar(a[0])|;
      assert EncodeText(a)[..k] == EncodeChar(a[0]) && EncodeText(b)[..k] == EncodeChar(b[0]);
      assert EncodeText(a)[k..] == EncodeText(a[1..]) && EncodeText(b)[k..] == EncodeText(b[1..]);
      CharsApart(a[0], b[0]);
      EncodingIsInjective(a[1..], b[1..]);
      assert a == [a[0]] + a[1..] && b == [b[0]] + b[1..];
    }
  }

  /** The number a character's bytes spell. */
  function Spelled(e: bytes): int {
    match |e|
    case 1 => e[0]
    case 2 => (e[0] as int - 0xC0) * 64 + e[1] as int - 0x80
    case 3 => (e[0] as int - 0xE0) * 4096 + (e[1] as int - 0x80) * 64 + e[2] as int - 0x80
    case 4 =>
      (e[0] as int - 0xF0) * 262144 + (e[1] as int - 0x80) * 4096 + (e[2] as int - 0x80) * 64 + e[3] as int - 0x80
    case _ => 0
  }

  lemma SpellsItself(c: char)
    ensures Spelled(EncodeChar(c)) == c as int
  {
    Recompose(c as int);
  }

  lemma Recompose(n: nat)
    ensures n == 64 * (n / 64) + n % 64
    ensures n == 4096 * (n / 4096) + 64 * (n / 64 % 64) + n % 64
    ensures n == 262144 * (n / 262144) + 4096 * (n / 4096 % 64) + 64 * (n / 64 % 64) + n % 64
  {
    var a := n / 64;
    var b := a / 64;
    DivideTwice(n);
    assert n == 64 * a + n % 64 && a == 64 * b + a % 64 && b == 64 * (b / 64) + b % 64;
  }

  lemma CharsApart(a: char, b: char)
    requires EncodeChar(a) == EncodeChar(b)
    ensures a == b
  {
    SpellsItself(a);
    SpellsItself(b);
  }

  lemma MarkInBytes()
    ensures EncodeText("[DONE]") == DONE_MARK
  {
    EncodeOne('[', "DONE]");
    EncodeOne('D', "ONE]");
    EncodeOne('O', "NE]");
    EncodeOne('N', "E]");
    EncodeOne('E', "]");
    EncodeOne(']', "");
  }

  lemma EncodeOne(c: char, t: string)
    requires c < '\U{80}'
    ensures EncodeText([c] + t) == [c as int] + EncodeText(t)
  {
    assert ([c] + t)[1..] == t;
  }

  /** A payload ends the stream exactly when, white space around it aside, it reads [DONE]. */
  lemma DoneExactly(t: string)
    ensures IsDoneMark(EncodeText(t)) <==> Text.Trim(t) == "[DONE]"
  {
    TrimStartOfText(t);
    TrimEndOfText(Text.TrimStart(t));
    MarkInBytes();
    if IsDoneMark(EncodeText(t)) {
      EncodingIsInjective(Text.Trim(t), "[DONE]");
    }
  }

  /** What a frame's body announces, in terms of text: nothing if it is none or its payload is empty, the end of
      the stream if the payload reads [DONE] with or without white space around it, and otherwise the payload. */
  lemma AnnouncesExactly(body: bytes, t: string)
    ensures (forall x: string :: EncodeText(x) != body) ==> EventOf(body).None?
    ensures Utf8Valid(body) && Payload(body) == EncodeText(t) ==>
      if t == "" then EventOf(body).None?
      else if Text.Trim(t) == "[DONE]" then EventOf(body).Some? && EventOf(body).value.Done?
      else EventOf(body).Some? && EventOf(body).value == Data(EncodeText(t))
  {
    ValidExactly(body);
    DoneExactly(t);
    assert t != "" ==> |EncodeText(t)| > 0;
  }
}
