/** Model references: parsing, printing, quantisation labels, and what the cache key hashes. */
module ModelReference {
  import opened Wrappers
  import opened Text

  datatype Scheme = Hf | Oci | S3 | File
  datatype Source = Source(scheme: Scheme, locator: string)
  datatype ModelRef = ModelRef(source: Source, quant: Option<string>, revision: Option<string>)

  datatype Reason = EmptyReference | EmptyQuant | EmptyRevision | EmptyLocator(scheme: Scheme) | NeedsOrg
  datatype Parsed = Ok(ref: ModelRef) | Err(why: Reason)

  function SchemeName(s: Scheme): string {
    match s
    case Hf => "hf"
    case Oci => "oci"
    case S3 => "s3"
    case File => "file"
  }

  // ------------------------------------------------------------------ text

  /** The text before and after the first `c`. */
  function SplitOnce(s: string, c: char): Option<(string, string)> {
    if s == "" then None
    else if s[0] == c then Some(("", s[1..]))
    else match SplitOnce(s[1..], c)
      case None => None
      case Some((a, b)) => Some(([s[0]] + a, b))
  }

  function Fold(c: char): char {
    if 'A' <= c <= 'Z' then (c as int - 'A' as int + 'a' as int) as char
    else if c == '-' then '_' else c
  }

  function Folded(s: string): string {
    seq(|s|, i requires 0 <= i < |s| => Fold(s[i]))
  }

  function CanonQuant(q: string): string {
    Folded(Trim(q))
  }

  // ------------------------------------------------------------------ parse and print

  /** Every leading "//" taken off. */
  function StripSlashes(p: string): string {
    if "//" <= p then StripSlashes(p[2..]) else p
  }

  function ParseSource(rest: string): Source {
    match SplitOnce(rest, ':')
    case None => Source(Hf, rest)
    case Some((prefix, p)) =>
      if prefix == "hf" then Source(Hf, p)
      else if prefix == "oci" then Source(Oci, p)
      else if prefix == "s3" then Source(S3, StripSlashes(p))
      else if prefix == "file" then Source(File, p)
      else Source(Hf, rest)
  }

  function CheckSource(source: Source): Option<Reason> {
    if Blank(source.locator) then Some(EmptyLocator(source.scheme))
    else if source.scheme.Hf? && '/' !in source.locator then Some(NeedsOrg)
    else None
  }

  function Canon(q: Option<string>): Option<string> {
    if q.None? then None else Some(CanonQuant(q.value))
  }

  /** What is left once the quantisation is off: locator and revision. */
  function ParseRest(rest: string, quant: Option<string>): Parsed {
    var at := SplitOnce(rest, '@');
    if at.Some? && Blank(at.value.1) then Err(EmptyRevision)
    else
      var source := ParseSource(if at.Some? then at.value.0 else rest);
      var bad := CheckSource(source);
      if bad.Some? then Err(bad.value)
      else Ok(ModelRef(source, Canon(quant), if at.Some? then Some(at.value.1) else None))
  }

  function ParseTrimmed(s: string): Parsed {
    if s == "" then Err(EmptyReference)
    else
      var hash := SplitOnce(s, '#');
      if hash.Some? && Blank(hash.value.1) then Err(EmptyQuant)
      else if hash.Some? then ParseRest(hash.value.0, Some(hash.value.1))
      else ParseRest(s, None)
  }

  /** `[scheme:]locator[@revision][#quant]` */
  function Parse(s: string): Parsed {
    ParseTrimmed(Trim(s))
  }

  function PrintSource(s: Source): string {
    SchemeName(s.scheme) + ":" + s.locator
  }

  function Suffix(c: char, s: Option<string>): string {
    if s.None? then "" else [c] + s.value
  }

  function Print(r: ModelRef): string {
    PrintSource(r.source) + Suffix('@', r.revision) + Suffix('#', r.quant)
  }

  // ------------------------------------------------------------------ lemmas about text

  lemma FoldKeepsShape(s: string)
    requires Tight(s)
    ensures Tight(Folded(s)) && Folded(Folded(s)) == Folded(s)
    ensures s != "" ==> !Blank(Folded(s))
  {
    if s != "" {
      assert Folded(s)[0] in Folded(s);
    }
  }

  lemma CanonIsCanonical(q: string)
    ensures CanonQuant(CanonQuant(q)) == CanonQuant(q) && Tight(CanonQuant(q))
    ensures !Blank(q) ==> !Blank(CanonQuant(q))
    ensures forall c :: c in CanonQuant(q) ==> c != '-' && !('A' <= c <= 'Z')
  {
    TrimShape(q);
    FoldKeepsShape(Trim(q));
    TrimShape(CanonQuant(q));
  }

  /** Labels share an entry exactly when, trimmed, they differ only in ASCII case and '-' for '_'. */
  predicate SameLetter(a: char, b: char) {
    || a == b
    || ('A' <= a <= 'Z' && b as int == a as int + 32)
    || ('A' <= b <= 'Z' && a as int == b as int + 32)
    || (a in {'-', '_'} && b in {'-', '_'})
  }

  lemma CanonIdentifiesExactly(p: string, q: string)
    ensures CanonQuant(p) == CanonQuant(q) <==>
      |Trim(p)| == |Trim(q)| && forall i :: 0 <= i < |Trim(p)| ==> SameLetter(Trim(p)[i], Trim(q)[i])
  {
    var a, b := Trim(p), Trim(q);
    forall x, y ensures Fold(x) == Fold(y) <==> SameLetter(x, y) {
    }
    if CanonQuant(p) == CanonQuant(q) {
      assert |Folded(a)| == |a| && |Folded(b)| == |b|;
      forall i | 0 <= i < |a| ensures SameLetter(a[i], b[i]) {
        assert Folded(a)[i] == Folded(b)[i];
      }
    }
  }

  lemma {:induction false} SplitShape(s: string, c: char)
    ensures SplitOnce(s, c).None? <==> c !in s
    ensures SplitOnce(s, c).Some? ==>
      var (a, b) := SplitOnce(s, c).value; s == a + [c] + b && c !in a
  {
    if s != "" {
      assert s == [s[0]] + s[1..];
      if s[0] != c { SplitShape(s[1..], c); }
    }
  }

  lemma {:induction false} SplitFinds(a: string, c: char, b: string)
    requires c !in a
    ensures SplitOnce(a + [c] + b, c) == Some((a, b))
  {
    var s := a + [c] + b;
    if a == "" {
      assert s[1..] == b;
    } else {
      assert s[0] == a[0] && a[0] in a;
      assert s[1..] == a[1..] + [c] + b;
      SplitFinds(a[1..], c, b);
      assert [a[0]] + a[1..] == a;
    }
  }

  lemma {:induction false} StripShape(p: string)
    ensures !("//" <= StripSlashes(p))
    ensures exists k :: 0 <= k <= |p| && StripSlashes(p) == p[k..]
  {
    if "//" <= p {
      StripShape(p[2..]);
      var k :| 0 <= k <= |p[2..]| && StripSlashes(p[2..]) == p[2..][k..];
      assert p[2..][k..] == p[2 + k..];
    } else {
      assert p[0..] == p;
    }
  }

  // ------------------------------------------------------------------ the round trip

  predicate Free(c: char, s: string) { c !in s }

  predicate EndsTight(s: string) {
    s != "" && !IsSpace(s[|s| - 1])
  }

  predicate WellFormedSource(s: Source) {
    && Free('#', s.locator) && Free('@', s.locator) && !Blank(s.locator)
    && (s.scheme.Hf? ==> '/' in s.locator)
    && (s.scheme.S3? ==> !("//" <= s.locator))
  }

  /** The references that parsing can produce. */
  predicate WellFormed(r: ModelRef) {
    && WellFormedSource(r.source)
    && (r.revision.Some? ==> Free('#', r.revision.value) && !Blank(r.revision.value))
    && (r.quant.Some? ==> CanonQuant(r.quant.value) == r.quant.value && !Blank(r.quant.value))
    && (r.quant.None? && r.revision.Some? ==> EndsTight(r.revision.value))
    && (r.quant.None? && r.revision.None? ==> EndsTight(r.source.locator))
  }

  /** A text's end, cut off anywhere, ends as the text does. */
  lemma TailEndsTight(s: string, k: nat)
    requires EndsTight(s) && k < |s|
    ensures EndsTight(s[k..])
  {
    assert s[k..][|s| - k - 1] == s[|s| - 1];
  }

  lemma SourceIsWellFormed(rest: string)
    requires Free('#', rest) && Free('@', rest) && CheckSource(ParseSource(rest)).None?
    ensures WellFormedSource(ParseSource(rest))
    ensures EndsTight(rest) ==> EndsTight(ParseSource(rest).locator)
  {
    var k := LocatorIsTail(rest);
    TailKeepsFree(rest, k);
    if EndsTight(rest) {
      TailEndsTight(rest, k);
    }
    if ParseSource(rest).scheme.S3? {
      StrippedLocator(rest);
    }
  }

  lemma TailKeepsFree(s: string, k: nat)
    requires k <= |s| && Free('#', s) && Free('@', s)
    ensures Free('#', s[k..]) && Free('@', s[k..])
  {
  }

  lemma StrippedLocator(rest: string)
    requires ParseSource(rest).scheme.S3?
    ensures !("//" <= ParseSource(rest).locator)
  {
    StripShape(SplitOnce(rest, ':').value.1);
  }

  /** The locator is always the end of what was parsed. */
  lemma LocatorIsTail(rest: string) returns (k: nat)
    ensures k <= |rest| && ParseSource(rest).locator == rest[k..]
  {
    SplitShape(rest, ':');
    match SplitOnce(rest, ':')
    case None =>
      k := 0;
    case Some((a, p)) =>
      assert rest[|a| + 1..] == p;
      if a == "s3" {
        StripShape(p);
        var j :| 0 <= j <= |p| && StripSlashes(p) == p[j..];
        k := |a| + 1 + j;
        assert rest[k..] == p[j..];
      } else if a in {"hf", "oci", "file"} {
        k := |a| + 1;
      } else {
        k := 0;
      }
  }

  lemma RestIsWellFormed(rest: string, quant: Option<string>)
    requires Free('#', rest) && ParseRest(rest, quant).Ok?
    requires quant.Some? ==> !Blank(quant.value)
    requires quant.None? ==> EndsTight(rest)
    ensures WellFormed(ParseRest(rest, quant).ref)
  {
    SplitShape(rest, '@');
    var at := SplitOnce(rest, '@');
    if quant.Some? { CanonIsCanonical(quant.value); }
    match at
    case None =>
      SourceIsWellFormed(rest);
    case Some((a, v)) =>
      assert Free('#', a) && Free('#', v);
      SourceIsWellFormed(a);
      if quant.None? {
        assert v != "" && rest[|rest| - 1] == v[|v| - 1];
      }
  }

  /** Whatever parses is well formed. */
  lemma ParsedIsWellFormed(s: string)
    requires Parse(s).Ok?
    ensures WellFormed(Parse(s).ref)
  {
    var t := Trim(s);
    TrimShape(s);
    SplitShape(t, '#');
    match SplitOnce(t, '#')
    case None =>
      RestIsWellFormed(t, None);
    case Some((rest, q)) =>
      RestIsWellFormed(rest, Some(q));
  }

  lemma PrintedSourceParses(s: Source)
    requires WellFormedSource(s)
    ensures ParseSource(PrintSource(s)) == s
  {
    var name := SchemeName(s.scheme);
    assert ':' !in name;
    SplitFinds(name, ':', s.locator);
    assert PrintSource(s) == name + [':'] + s.locator;
  }

  lemma PrintedSourceIsPlain(s: Source)
    requires WellFormedSource(s)
    ensures Free('#', PrintSource(s)) && Free('@', PrintSource(s))
    ensures PrintSource(s) != "" && !IsSpace(PrintSource(s)[0])
  {
  }

  lemma PrintedRestParses(r: ModelRef, quant: Option<string>)
    requires WellFormed(r) && Canon(quant) == r.quant
    ensures ParseRest(PrintSource(r.source) + Suffix('@', r.revision), quant) == Ok(r)
  {
    PrintedSourceParses(r.source);
    PrintedSourceIsPlain(r.source);
    var rest := PrintSource(r.source) + Suffix('@', r.revision);
    if r.revision.Some? {
      SplitFinds(PrintSource(r.source), '@', r.revision.value);
      assert rest == PrintSource(r.source) + ['@'] + r.revision.value;
    } else {
      assert rest == PrintSource(r.source);
      SplitShape(rest, '@');
    }
  }

  /** A printed reference begins and ends with something other than white space. */
  lemma PrintedIsTight(r: ModelRef)
    requires WellFormed(r)
    ensures Print(r) != "" && Tight(Print(r))
  {
    PrintedSourceIsPlain(r.source);
    var t := Print(r);
    assert t[0] == PrintSource(r.source)[0];
    if r.quant.Some? {
      CanonIsCanonical(r.quant.value);
      assert r.quant.value != "" && t[|t| - 1] == r.quant.value[|r.quant.value| - 1];
    } else if r.revision.Some? {
      assert t[|t| - 1] == r.revision.value[|r.revision.value| - 1];
    } else {
      assert t[|t| - 1] == r.source.locator[|r.source.locator| - 1];
    }
  }

  lemma WellFormedPrintsBack(r: ModelRef)
    requires WellFormed(r)
    ensures Parse(Print(r)) == Ok(r)
  {
    var t := Print(r);
    PrintedIsTight(r);
    TrimShape(t);
    var rest := PrintSource(r.source) + Suffix('@', r.revision);
    PrintedSourceIsPlain(r.source);
    assert Free('#', rest);
    PrintedRestParses(r, r.quant);
    if r.quant.Some? {
      assert t == rest + ['#'] + r.quant.value;
      SplitFinds(rest, '#', r.quant.value);
    } else {
      assert t == rest;
      SplitShape(t, '#');
    }
  }

  /** For every text: parsing what was printed of what was parsed gives it back. */
  lemma RoundTrip(s: string)
    requires Parse(s).Ok?
    ensures Parse(Print(Parse(s).ref)) == Parse(s)
  {
    ParsedIsWellFormed(s);
    WellFormedPrintsBack(Parse(s).ref);
  }

  /** A reference survives printing and parsing exactly when it is well formed; only then does a text denote it. */
  lemma RoundTripExactly(r: ModelRef)
    ensures WellFormed(r) <==> Parse(Print(r)) == Ok(r)
    ensures WellFormed(r) <==> exists s :: Parse(s) == Ok(r)
  {
    if WellFormed(r) {
      WellFormedPrintsBack(r);
    }
    if s :| Parse(s) == Ok(r) {
      ParsedIsWellFormed(s);
    }
  }

  /** Printing is one to one on what parses. */
  lemma PrintedApart(r: ModelRef, r': ModelRef)
    requires WellFormed(r) && WellFormed(r')
    ensures Print(r) == Print(r') <==> r == r'
  {
    WellFormedPrintsBack(r);
    WellFormedPrintsBack(r');
  }

  // ------------------------------------------------------------------ what a text means

  /** `n` pairs of slashes. */
  function Slashes(n: nat): string {
    if n == 0 then "" else "//" + Slashes(n - 1)
  }

  /** All pairs of slashes ahead of `p` taken off. */
  ghost predicate WithoutSlashes(p: string, locator: string) {
    !("//" <= locator) && exists n :: p == Slashes(n) + locator
  }

  /** The source a text names: by its scheme if it has one of the four, and otherwise as it stands on
      Hugging Face, colons or no colons. */
  ghost predicate Names(rest: string, source: Source) {
    if "hf:" <= rest then source == Source(Hf, rest[3..])
    else if "oci:" <= rest then source == Source(Oci, rest[4..])
    else if "file:" <= rest then source == Source(File, rest[5..])
    else if "s3:" <= rest then source.scheme.S3? && WithoutSlashes(rest[3..], source.locator)
    else source == Source(Hf, rest)
  }

  lemma {:induction false} StripsSlashes(n: nat, p: string)
    requires !("//" <= p)
    ensures StripSlashes(Slashes(n) + p) == p
  {
    if n == 0 {
      assert Slashes(n) + p == p;
    } else {
      assert (Slashes(n) + p)[2..] == Slashes(n - 1) + p;
      assert "//" <= Slashes(n) + p;
      StripsSlashes(n - 1, p);
    }
  }

  lemma {:induction false} SlashesOff(p: string) returns (n: nat)
    ensures p == Slashes(n) + StripSlashes(p) && !("//" <= StripSlashes(p))
  {
    if "//" <= p {
      var k := SlashesOff(p[2..]);
      n := k + 1;
      assert p == "//" + p[2..];
      assert p == Slashes(n) + StripSlashes(p);
    } else {
      n := 0;
      assert Slashes(0) + p == p;
    }
  }

  lemma PrefixSplits(name: string, rest: string)
    requires ':' !in name && name + ":" <= rest
    ensures SplitOnce(rest, ':') == Some((name, rest[|name| + 1..]))
  {
    var p := rest[|name| + 1..];
    assert rest == name + [':'] + p;
    SplitFinds(name, ':', p);
  }

  lemma PrefixIsSplit(name: string, rest: string)
    requires SplitOnce(rest, ':').Some? && SplitOnce(rest, ':').value.0 == name
    ensures name + ":" <= rest && rest[|name| + 1..] == SplitOnce(rest, ':').value.1
  {
    SplitShape(rest, ':');
  }

  /** A prefix is read as a scheme exactly when it is there with its colon. */
  lemma SchemeFound(name: string, rest: string)
    requires ':' !in name
    ensures name + ":" <= rest <==> SplitOnce(rest, ':').Some? && SplitOnce(rest, ':').value.0 == name
    ensures name + ":" <= rest ==> SplitOnce(rest, ':').value.1 == rest[|name| + 1..]
  {
    if name + ":" <= rest {
      PrefixSplits(name, rest);
    } else if SplitOnce(rest, ':').Some? && SplitOnce(rest, ':').value.0 == name {
      PrefixIsSplit(name, rest);
    }
  }

  /** The four schemes, each by its own name. */
  lemma SchemesFound(rest: string)
    ensures var at := SplitOnce(rest, ':');
      && ("hf:" <= rest <==> at.Some? && at.value.0 == "hf") && ("hf:" <= rest ==> at.value.1 == rest[3..])
      && ("oci:" <= rest <==> at.Some? && at.value.0 == "oci") && ("oci:" <= rest ==> at.value.1 == rest[4..])
      && ("file:" <= rest <==> at.Some? && at.value.0 == "file") && ("file:" <= rest ==> at.value.1 == rest[5..])
      && ("s3:" <= rest <==> at.Some? && at.value.0 == "s3") && ("s3:" <= rest ==> at.value.1 == rest[3..])
  {
    SchemeFound("hf", rest);
    SchemeFound("oci", rest);
    SchemeFound("file", rest);
    SchemeFound("s3", rest);
    assert "hf" + ":" == "hf:" && "oci" + ":" == "oci:" && "file" + ":" == "file:" && "s3" + ":" == "s3:";
  }

  lemma StrippedExactly(p: string, locator: string)
    ensures StripSlashes(p) == locator <==> WithoutSlashes(p, locator)
  {
    if StripSlashes(p) == locator {
      var n := SlashesOff(p);
    }
    if WithoutSlashes(p, locator) {
      var n :| p == Slashes(n) + locator;
      StripsSlashes(n, locator);
    }
  }

  /** The source found is the one named. */
  lemma SourceExactly(rest: string, source: Source)
    ensures ParseSource(rest) == source <==> Names(rest, source)
  {
    SchemesFound(rest);
    if "s3:" <= rest {
      StrippedExactly(rest[3..], source.locator);
      assert !("hf:" <= rest) && !("oci:" <= rest) && !("file:" <= rest);
      assert ParseSource(rest) == Source(S3, StripSlashes(rest[3..]));
    }
  }

  /** A text cut at its first '#', and what is ahead of that at its first '@'. */
  predicate Cut(t: string, rest: string, revision: Option<string>, quant: Option<string>) {
    && t == rest + Suffix('@', revision) + Suffix('#', quant)
    && Free('#', rest) && Free('@', rest) && (revision.Some? ==> Free('#', revision.value))
  }

  lemma SuffixSplits(front: string, c: char, x: Option<string>)
    requires Free(c, front)
    ensures SplitOnce(front + Suffix(c, x), c) == if x.Some? then Some((front, x.value)) else None
    ensures x.None? ==> front + Suffix(c, x) == front
  {
    if x.Some? {
      assert front + Suffix(c, x) == front + [c] + x.value;
      SplitFinds(front, c, x.value);
    } else {
      assert front + Suffix(c, x) == front;
      SplitShape(front, c);
    }
  }

  lemma FrontIsFree(rest: string, revision: Option<string>)
    requires Free('#', rest) && (revision.Some? ==> Free('#', revision.value))
    ensures Free('#', rest + Suffix('@', revision))
  {
  }

  /** The parts of a cut text are the ones parsing looks at. */
  lemma CutIsSplit(t: string, rest: string, revision: Option<string>, quant: Option<string>)
    requires Cut(t, rest, revision, quant)
    ensures var front := rest + Suffix('@', revision);
            && SplitOnce(t, '#') == (if quant.Some? then Some((front, quant.value)) else None)
            && (quant.None? ==> t == front)
            && SplitOnce(front, '@') == (if revision.Some? then Some((rest, revision.value)) else None)
            && (revision.None? ==> front == rest)
  {
    FrontIsFree(rest, revision);
    SuffixSplits(rest + Suffix('@', revision), '#', quant);
    SuffixSplits(rest, '@', revision);
  }

  /** What becomes of a text that is cut so and names `source`: the first objection there is to it, or the
      reference made of its parts. */
  function Verdict(source: Source, revision: Option<string>, quant: Option<string>): Parsed {
    if quant.Some? && Blank(quant.value) then Err(EmptyQuant)
    else if revision.Some? && Blank(revision.value) then Err(EmptyRevision)
    else if Blank(source.locator) then Err(EmptyLocator(source.scheme))
    else if source.scheme.Hf? && '/' !in source.locator then Err(NeedsOrg)
    else Ok(ModelRef(source, if quant.Some? then Some(CanonQuant(quant.value)) else None, revision))
  }

  lemma JudgedByParts(t: string, rest: string, revision: Option<string>, quant: Option<string>, source: Source)
    requires t != "" && Cut(t, rest, revision, quant) && ParseSource(rest) == source
    ensures ParseTrimmed(t) == Verdict(source, revision, quant)
  {
    CutIsSplit(t, rest, revision, quant);
  }

  /** Parsing, exactly: a blank text is refused, and any other is judged by its parts. */
  lemma ParsesExactly(s: string, rest: string, revision: Option<string>, quant: Option<string>, source: Source)
    ensures Blank(s) <==> Parse(s) == Err(EmptyReference)
    ensures !Blank(s) && Cut(Trim(s), rest, revision, quant) && Names(rest, source) ==>
              Parse(s) == Verdict(source, revision, quant)
  {
    TrimShape(s);
    SourceExactly(rest, source);
    if !Blank(s) {
      var a, b, c, d := EveryTextIsCut(Trim(s));
      SourceExactly(a, d);
      JudgedByParts(Trim(s), a, b, c, d);
      if Cut(Trim(s), rest, revision, quant) && Names(rest, source) {
        JudgedByParts(Trim(s), rest, revision, quant, source);
      }
    }
  }

  lemma CutOff(t: string, c: char) returns (front: string, x: Option<string>)
    ensures t == front + Suffix(c, x) && Free(c, front) && front <= t
    ensures forall d :: Free(d, t) ==> Free(d, front) && (x.Some? ==> Free(d, x.value))
  {
    SplitShape(t, c);
    match SplitOnce(t, c)
    case None =>
      front, x := t, None;
      assert t == front + "";
    case Some((a, b)) =>
      front, x := a, Some(b);
      assert t == a + ([c] + b);
  }

  /** Every text has such parts. */
  lemma EveryTextIsCut(t: string)
    returns (rest: string, revision: Option<string>, quant: Option<string>, source: Source)
    ensures Cut(t, rest, revision, quant) && Names(rest, source) && rest <= t
  {
    var front;
    front, quant := CutOff(t, '#');
    rest, revision := CutOff(front, '@');
    source := ParseSource(rest);
    SourceExactly(rest, source);
  }

  predicate HasScheme(t: string) {
    "hf:" <= t || "oci:" <= t || "file:" <= t || "s3:" <= t
  }

  lemma CutAfterPrefix(t: string, rest: string, revision: Option<string>, quant: Option<string>)
    requires Cut(t, rest, revision, quant)
    ensures Cut("hf:" + t, "hf:" + rest, revision, quant)
  {
    assert "hf:" + t == "hf:" + rest + Suffix('@', revision) + Suffix('#', quant);
  }

  lemma PrefixedIsTight(t: string)
    requires t != "" && Tight(t)
    ensures Tight("hf:" + t) && Trim("hf:" + t) == "hf:" + t && !Blank("hf:" + t)
  {
    var u := "hf:" + t;
    assert u[0] == 'h' && u[|u| - 1] == t[|t| - 1];
    TrimShape(u);
  }

  /** A text without one of the four schemes means what it means with `hf:` ahead of it, refusals included. */
  lemma BareIsHuggingFace(s: string)
    requires !Blank(s) && !HasScheme(Trim(s))
    ensures Parse(s) == Parse("hf:" + Trim(s))
  {
    var t := Trim(s);
    TrimShape(s);
    PrefixedIsTight(t);
    var rest, revision, quant, source := EveryTextIsCut(t);
    CutAfterPrefix(t, rest, revision, quant);
    BareSource(rest);
    ParsesExactly(s, rest, revision, quant, ParseSource(rest));
    ParsesExactly("hf:" + t, "hf:" + rest, revision, quant, ParseSource(rest));
  }

  lemma BareSource(rest: string)
    requires !HasScheme(rest)
    ensures ParseSource(rest) == Source(Hf, rest)
    ensures Names(rest, Source(Hf, rest)) && Names("hf:" + rest, Source(Hf, rest))
  {
    SourceExactly(rest, Source(Hf, rest));
    assert ("hf:" + rest)[3..] == rest;
  }

  // ------------------------------------------------------------------ the cache key

  const NUL: char := '\0'

  function OrEmpty(s: Option<string>): string {
    if s.None? then "" else s.value
  }

  /** The text whose hash is the cache key. */
  function Preimage(r: ModelRef): string {
    SchemeName(r.source.scheme) + [NUL] + (r.source.locator + [NUL] + (OrEmpty(r.quant) + [NUL] + OrEmpty(r.revision)))
  }

  /** The fields in their order, each after a NUL; a missing one is empty. */
  lemma PreimagesSpelledOut()
    ensures Preimage(ModelRef(Source(Hf, "o/n"), Some("q4"), Some("v"))) == "hf\0o/n\0q4\0v"
    ensures Preimage(ModelRef(Source(S3, "b"), None, Some("v"))) == "s3\0b\0\0v"
    ensures Preimage(ModelRef(Source(Oci, "r"), Some("q4"), None)) == "oci\0r\0q4\0"
    ensures Preimage(ModelRef(Source(File, "m"), None, None)) == "file\0m\0\0"
  {
  }

  predicate NulFree(r: ModelRef) {
    Free(NUL, r.source.locator) && Free(NUL, OrEmpty(r.quant)) && Free(NUL, OrEmpty(r.revision))
  }

  lemma FieldsApart(a: string, x: string, b: string, y: string)
    requires Free(NUL, a) && Free(NUL, b) && a + [NUL] + x == b + [NUL] + y
    ensures a == b && x == y
  {
    SplitFinds(a, NUL, x);
    SplitFinds(b, NUL, y);
  }

  lemma SchemesApart(a: Scheme, b: Scheme)
    ensures Free(NUL, SchemeName(a))
    ensures SchemeName(a) == SchemeName(b) ==> a == b
  {
    assert "hf"[0] != "oci"[0] && "s3"[0] != "file"[0];
  }

  function Nuls(s: string): nat {
    if s == "" then 0 else (if s[0] == NUL then 1 else 0) + Nuls(s[1..])
  }

  lemma {:induction false} NulsAdd(s: string, t: string)
    ensures Nuls(s + t) == Nuls(s) + Nuls(t)
  {
    if s == "" {
      assert s + t == t;
    } else {
      assert (s + t)[1..] == s[1..] + t;
      NulsAdd(s[1..], t);
    }
  }

  lemma {:induction false} NoNuls(s: string)
    ensures Nuls(s) == 0 <==> Free(NUL, s)
  {
    if s != "" {
      NoNuls(s[1..]);
      assert s == [s[0]] + s[1..];
    }
  }

  /** The three separators, and whatever NULs the fields hold. */
  lemma NulsOfPreimage(r: ModelRef)
    ensures Nuls(Preimage(r)) == 3 + Nuls(r.source.locator) + Nuls(OrEmpty(r.quant)) + Nuls(OrEmpty(r.revision))
  {
    var q, v := OrEmpty(r.quant), OrEmpty(r.revision);
    var name, loc := SchemeName(r.source.scheme), r.source.locator;
    SchemesApart(r.source.scheme, r.source.scheme);
    NoNuls(name);
    OneSeparator(q, v);
    OneSeparator(loc, q + [NUL] + v);
    OneSeparator(name, loc + [NUL] + (q + [NUL] + v));
  }

  lemma OneSeparator(a: string, b: string)
    ensures Nuls(a + [NUL] + b) == Nuls(a) + 1 + Nuls(b)
  {
    NulsAdd(a + [NUL], b);
    NulsAdd(a, [NUL]);
    assert Nuls([NUL]) == 1 + Nuls("");
  }

  /** The number of NULs in a preimage tells whether a field held one. */
  lemma SamePreimageSameNuls(a: ModelRef, b: ModelRef)
    requires Preimage(a) == Preimage(b) && NulFree(a)
    ensures NulFree(b)
  {
    NulsOfPreimage(a);
    NulsOfPreimage(b);
    NoNuls(a.source.locator);
    NoNuls(OrEmpty(a.quant));
    NoNuls(OrEmpty(a.revision));
    NoNuls(b.source.locator);
    NoNuls(OrEmpty(b.quant));
    NoNuls(OrEmpty(b.revision));
  }

  /** A reference that parses and holds no NUL shares its key's preimage with no other that parses. */
  lemma PreimageIsInjective(a: ModelRef, b: ModelRef)
    requires WellFormed(a) && WellFormed(b) && NulFree(a)
    ensures Preimage(a) == Preimage(b) <==> a == b
  {
    if Preimage(a) == Preimage(b) {
      SamePreimageSameNuls(a, b);
      SchemesApart(a.source.scheme, b.source.scheme);
      SchemesApart(b.source.scheme, a.source.scheme);
      var restA := OrEmpty(a.quant) + [NUL] + OrEmpty(a.revision);
      var restB := OrEmpty(b.quant) + [NUL] + OrEmpty(b.revision);
      FieldsApart(SchemeName(a.source.scheme), a.source.locator + [NUL] + restA,
                  SchemeName(b.source.scheme), b.source.locator + [NUL] + restB);
      FieldsApart(a.source.locator, restA, b.source.locator, restB);
      FieldsApart(OrEmpty(a.quant), OrEmpty(a.revision), OrEmpty(b.quant), OrEmpty(b.revision));
      SameOption(a.quant, b.quant);
      SameOption(a.revision, b.revision);
    }
  }

  // ------------------------------------------------------------------ which characters keep keys apart

  /** The fields are written in permitted characters. */
  ghost predicate Over(r: ModelRef, permitted: char -> bool) {
    && (forall c :: c in r.source.locator ==> permitted(c))
    && (forall c :: c in OrEmpty(r.quant) ==> permitted(c))
    && (forall c :: c in OrEmpty(r.revision) ==> permitted(c))
  }

  ghost predicate KeysApart(permitted: char -> bool) {
    forall a, b ::
      && WellFormed(a) && WellFormed(b) && Over(a, permitted) && Over(b, permitted)
      && Preimage(a) == Preimage(b)
      ==> a == b
  }

  /** Two references written in NULs alone. */
  function JustNuls(): ModelRef { ModelRef(Source(File, [NUL, NUL]), None, None) }

  function NulAndQuant(): ModelRef { ModelRef(Source(File, [NUL]), Some([NUL]), None) }

  lemma NulsCollide()
    ensures WellFormed(JustNuls()) && WellFormed(NulAndQuant())
    ensures Preimage(JustNuls()) == Preimage(NulAndQuant())
  {
    assert NUL in [NUL] && NUL in [NUL, NUL] && !IsSpace(NUL);
    TrimShape([NUL]);
    assert Folded([NUL]) == [NUL];
    assert Preimage(JustNuls()) == "file\0\0\0\0\0";
    assert Preimage(NulAndQuant()) == "file\0\0\0\0\0";
  }

  /** Different references have different preimages, whatever characters they are written in, exactly when
      NUL is not one of them. */
  lemma KeysApartExactly(permitted: char -> bool)
    ensures KeysApart(permitted) <==> !permitted(NUL)
  {
    if permitted(NUL) {
      NulsCollide();
      assert Over(JustNuls(), permitted) && Over(NulAndQuant(), permitted);
    } else {
      forall a, b | && WellFormed(a) && WellFormed(b) && Over(a, permitted) && Over(b, permitted)
                    && Preimage(a) == Preimage(b)
        ensures a == b
      {
        PreimageIsInjective(a, b);
      }
    }
  }

  lemma SameOption(a: Option<string>, b: Option<string>)
    requires a.Some? ==> !Blank(a.value)
    requires b.Some? ==> !Blank(b.value)
    requires OrEmpty(a) == OrEmpty(b)
    ensures a == b
  {
  }

  /** With a NUL in a field the separation fails: two texts, two references, one preimage. */
  lemma NulConfusesKeys()
    ensures var a := ModelRef(Source(Hf, "o/n" + [NUL] + "x"), None, None);
      var b := ModelRef(Source(Hf, "o/n"), Some("x"), Some([NUL]));
      WellFormed(a) && WellFormed(b) && a != b && Preimage(a) == Preimage(b)
  {
    var loc := "o/n" + [NUL] + "x";
    assert loc == "o/n\0x";
    var a, b := ModelRef(Source(Hf, loc), None, None), ModelRef(Source(Hf, "o/n"), Some("x"), Some([NUL]));
    assert loc[0] in loc && loc[1] == '/' && loc[4] == 'x';
    assert "o/n"[0] == 'o' && "o/n"[1] == '/';
    TrimShape("x");
    assert Folded("x") == "x";
    assert "x"[0] == 'x' && 'x' in "x" && NUL in [NUL] && !IsSpace(NUL);
    assert loc[0] == 'o' && 'o' in "o/n" && '/' in "o/n" && '/' in loc;
    assert Preimage(a) == "hf\0o/n\0x\0\0";
    assert Preimage(b) == "hf\0o/n\0x\0\0";
  }
}
