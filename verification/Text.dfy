/** Text as sequences of Unicode scalar values. */
module Text {
  /** The Unicode White_Space property. */
  predicate IsSpace(c: char) {
    || '\U{9}' <= c <= '\U{D}' || c == ' ' || c == '\U{85}' || c == '\U{A0}' || c == '\U{1680}'
    || '\U{2000}' <= c <= '\U{200A}' || c == '\U{2028}' || c == '\U{2029}' || c == '\U{202F}'
    || c == '\U{205F}' || c == '\U{3000}'
  }

  predicate Blank(s: string) {
    forall c :: c in s ==> IsSpace(c)
  }

  function TrimStart(s: string): string {
    if s != "" && IsSpace(s[0]) then TrimStart(s[1..]) else s
  }

  function TrimEnd(s: string): string {
    if s != "" && IsSpace(s[|s| - 1]) then TrimEnd(s[..|s| - 1]) else s
  }

  function Trim(s: string): string {
    TrimEnd(TrimStart(s))
  }

  /** No white space at either end. */
  predicate Tight(s: string) {
    s == "" || (!IsSpace(s[0]) && !IsSpace(s[|s| - 1]))
  }

  lemma {:induction false} TrimStartShape(s: string)
    ensures TrimStart(s) == "" <==> Blank(s)
    ensures TrimStart(s) != "" ==> !IsSpace(TrimStart(s)[0])
    ensures TrimStart(s) != "" ==> s != "" && TrimStart(s)[|TrimStart(s)| - 1] == s[|s| - 1]
  {
    if s != "" {
      assert s == [s[0]] + s[1..];
      if IsSpace(s[0]) { TrimStartShape(s[1..]); } else { assert s[0] in s; }
    }
  }

  lemma {:induction false} TrimEndShape(s: string)
    ensures TrimEnd(s) == "" <==> Blank(s)
    ensures TrimEnd(s) != "" ==> s != "" && TrimEnd(s)[0] == s[0] && !IsSpace(TrimEnd(s)[|TrimEnd(s)| - 1])
  {
    if s != "" {
      var n := |s| - 1;
      assert s == s[..n] + [s[n]];
      if IsSpace(s[n]) { TrimEndShape(s[..n]); } else { assert s[n] in s; }
    }
  }

  lemma TrimShape(s: string)
    ensures Tight(Trim(s))
    ensures Trim(s) == "" <==> Blank(s)
    ensures Tight(s) ==> Trim(s) == s
  {
    TrimStartShape(s);
    TrimEndShape(TrimStart(s));
    if TrimStart(s) != "" {
      assert TrimStart(s)[0] in TrimStart(s);
    }
  }

  /** Trimming takes off exactly the white space around a text. */
  lemma TrimExactly(s: string, t: string)
    ensures Trim(s) == t <==> Tight(t) && exists a, b :: Blank(a) && Blank(b) && s == a + t + b
  {
    TrimShape(s);
    if Trim(s) == t {
      var a := LeadingSpace(s);
      var b := TrailingSpace(TrimStart(s));
      assert s == a + t + b;
    }
    if a, b :| Tight(t) && Blank(a) && Blank(b) && s == a + t + b {
      if t == "" {
        assert forall c :: c in s ==> c in a || c in b;
      } else {
        SpaceAhead(a, t + b);
        assert a + (t + b) == s;
        SpaceBehind(t, b);
      }
    }
  }

  lemma {:induction false} LeadingSpace(s: string) returns (a: string)
    ensures Blank(a) && s == a + TrimStart(s)
  {
    a := "";
    if s != "" && IsSpace(s[0]) {
      var more := LeadingSpace(s[1..]);
      a := [s[0]] + more;
    }
  }

  lemma {:induction false} TrailingSpace(s: string) returns (b: string)
    ensures Blank(b) && s == TrimEnd(s) + b
  {
    b := "";
    if s != "" && IsSpace(s[|s| - 1]) {
      var more := TrailingSpace(s[..|s| - 1]);
      b := more + [s[|s| - 1]];
    }
  }

  lemma {:induction false} SpaceAhead(a: string, t: string)
    requires Blank(a) && t != "" && !IsSpace(t[0])
    ensures TrimStart(a + t) == t
  {
    if a == "" {
      assert a + t == t;
    } else {
      assert a[0] in a && forall c :: c in a[1..] ==> c in a;
      assert (a + t)[1..] == a[1..] + t;
      SpaceAhead(a[1..], t);
    }
  }

  lemma {:induction false} SpaceBehind(t: string, b: string)
    requires Blank(b) && t != "" && !IsSpace(t[|t| - 1])
    ensures TrimEnd(t + b) == t
  {
    if b == "" {
      assert t + b == t;
    } else {
      var n := |b| - 1;
      assert b[n] in b && forall c :: c in b[..n] ==> c in b;
      assert (t + b)[..|t| + n] == t + b[..n];
      SpaceBehind(t, b[..n]);
    }
  }
}
