/** The gateway's command line, and the routing table it starts from. */
module Startup {
  import opened Wrappers
  import opened Framing
  import opened Routing
  import opened Control

  datatype Args = Args(port: nat, incumbent: string, incumbentModel: Option<string>, candidate: Option<string>,
                       candidateModel: Option<string>, capture: Option<string>, key: Option<string>, percent: u8)

  datatype Outcome = Started(args: Args) | Refused | HelpShown

  const DEFAULTS := Args(8787, "", None, None, None, Some("onpar-captures.log"), None, 0)

  const VALUE_FLAGS: set<string> := {
    "--upstream", "--upstream-model", "--candidate", "--candidate-model", "--capture", "--key", "--port", "--percent"
  }

  predicate Digits(s: string) {
    s != [] && forall c :: c in s ==> '0' <= c <= '9'
  }

  function Decimal(s: string): nat {
    if s == [] then 0
    else 10 * Decimal(s[..|s| - 1]) + (if '0' <= s[|s| - 1] <= '9' then s[|s| - 1] as int - '0' as int else 0)
  }

  /** An unsigned number no greater than `max`; a leading plus sign is allowed. */
  function Unsigned(s: string, max: nat): Option<nat> {
    var digits := if s != [] && s[0] == '+' then s[1..] else s;
    if Digits(digits) && Decimal(digits) <= max then Some(Decimal(digits)) else None
  }

  /** What one flag does: `used` values consumed, or the end of the matter. */
  datatype Effect = Go(args: Args, used: nat) | Stop(outcome: Outcome)

  function Flag(a: Args, flag: string, value: Option<string>): Effect {
    if flag == "-h" || flag == "--help" then Stop(HelpShown)
    else if flag == "--no-capture" then Go(a.(capture := None), 0)
    else if flag !in VALUE_FLAGS then Stop(Refused)
    else if value.None? then Stop(Refused)
    else
      var v := value.value;
      if flag == "--upstream" then Go(a.(incumbent := v), 1)
      else if flag == "--upstream-model" then Go(a.(incumbentModel := value), 1)
      else if flag == "--candidate" then Go(a.(candidate := value), 1)
      else if flag == "--candidate-model" then Go(a.(candidateModel := value), 1)
      else if flag == "--capture" then Go(a.(capture := value), 1)
      else if flag == "--key" then Go(a.(key := value), 1)
      else if flag == "--port" then
        (match Unsigned(v, 65535) case Some(n) => Go(a.(port := n), 1) case None => Stop(Refused))
      else
        match Unsigned(v, 255)
        case Some(n) => if n > 100 then Stop(Refused) else Go(a.(percent := n), 1)
        case None => Stop(Refused)
  }

  /** The refusals once every flag is read. */
  function Checked(a: Args): Outcome {
    if a.incumbent == "" then Refused
    else if a.percent > 0 && a.candidate.None? then Refused
    else if a.percent > 0 then Refused
    else Started(a)
  }

  function Scan(a: Args, args: seq<string>): Outcome
    decreases |args|
  {
    if args == [] then Checked(a)
    else
      match Flag(a, args[0], if |args| > 1 then Some(args[1]) else None)
      case Stop(o) => o
      case Go(a', used) => Scan(a', if 1 + used <= |args| then args[1 + used..] else [])
  }

  method ParseFrom(args: seq<string>) returns (r: Outcome)
    ensures r == Scan(DEFAULTS, args) && ComesTo(args, r)
  {
    var a := DEFAULTS;
    var i := 0;
    while i < |args|
      invariant 0 <= i <= |args|
      invariant Scan(a, args[i..]) == Scan(DEFAULTS, args)
    {
      var value := if i + 1 < |args| then Some(args[i + 1]) else None;
      var effect := Flag(a, args[i], value);
      assert value.Some? ==> args[i..][1] == args[i + 1];
      if effect.Stop? {
        OutcomeExactly(args, effect.outcome);
        return effect.outcome;
      }
      assert effect.used == 1 ==> value.Some?;
      assert args[i..][1 + effect.used..] == args[i + 1 + effect.used..];
      a := effect.args;
      i := i + 1 + effect.used;
    }
    r := Checked(a);
    OutcomeExactly(args, r);
  }

  // ---------------------------------------------------------------- what a command line means

  /** A flag with the value given for it, if it takes one. */
  datatype Setting = Setting(flag: string, value: Option<string>)

  /** The command line as written. */
  function Words(opts: seq<Setting>): seq<string> {
    if opts == [] then []
    else
      var n := |opts| - 1;
      Words(opts[..n]) + [opts[n].flag] + (if opts[n].value.Some? then [opts[n].value.value] else [])
  }

  /** A known flag, with a value exactly if it takes one, and a number in range where one is due. */
  predicate Good(o: Setting) {
    if o.flag == "--no-capture" then o.value.None?
    else
      && o.flag in VALUE_FLAGS && o.value.Some?
      && (o.flag == "--port" ==> Unsigned(o.value.value, 65535).Some?)
      && (o.flag == "--percent" ==> Unsigned(o.value.value, 100).Some?)
  }

  predicate AllGood(opts: seq<Setting>) {
    forall o :: o in opts ==> Good(o)
  }

  /** The value given last for any of the flags. */
  function LastOf(opts: seq<Setting>, flags: set<string>, default: Option<string>): Option<string> {
    if opts == [] then default
    else if opts[|opts| - 1].flag in flags then opts[|opts| - 1].value
    else LastOf(opts[..|opts| - 1], flags, default)
  }

  function Number(v: Option<string>, max: nat, default: nat): (n: nat)
    requires default <= max
    ensures n <= max
  {
    if v.None? || Unsigned(v.value, max).None? then default else Unsigned(v.value, max).value
  }

  /** Each setting is the value given last for its flag, or its default. */
  function Meaning(opts: seq<Setting>): Args {
    var incumbent := LastOf(opts, {"--upstream"}, Some(""));
    Args(
      Number(LastOf(opts, {"--port"}, None), 65535, 8787),
      if incumbent.Some? then incumbent.value else "",
      LastOf(opts, {"--upstream-model"}, None),
      LastOf(opts, {"--candidate"}, None),
      LastOf(opts, {"--candidate-model"}, None),
      LastOf(opts, {"--capture", "--no-capture"}, Some("onpar-captures.log")),
      LastOf(opts, {"--key"}, None),
      Number(LastOf(opts, {"--percent"}, None), 100, 0))
  }

  /** Words that begin with no good option. */
  predicate Stuck(words: seq<string>) {
    && words != [] && words[0] != "--no-capture"
    && (words[0] in VALUE_FLAGS && |words| > 1 ==> !Good(Setting(words[0], Some(words[1]))))
  }

  /** What a command line comes to: its good options up to its end, or up to a call for help or a word
      that is no flag, lacks its value or has one out of range. */
  ghost predicate ComesTo(args: seq<string>, r: Outcome) {
    exists opts, rest :: Splits(args, opts, rest) && r == OutcomeOf(opts, rest)
  }

  predicate Splits(args: seq<string>, opts: seq<Setting>, rest: seq<string>) {
    AllGood(opts) && args == Words(opts) + rest && (rest == [] || Stuck(rest))
  }

  function OutcomeOf(opts: seq<Setting>, rest: seq<string>): Outcome {
    if rest != [] then if rest[0] in {"-h", "--help"} then HelpShown else Refused
    else if Meaning(opts).incumbent == "" || Meaning(opts).percent > 0 then Refused
    else Started(Meaning(opts))
  }

  lemma LastSnoc(opts: seq<Setting>, o: Setting, flags: set<string>, default: Option<string>)
    ensures LastOf(opts + [o], flags, default) == if o.flag in flags then o.value else LastOf(opts, flags, default)
  {
    assert (opts + [o])[..|opts|] == opts;
  }

  function Next(words: seq<string>): Option<string> {
    if |words| > 1 then Some(words[1]) else None
  }

  /** One good option does to the settings what it means. */
  lemma FlagMeans(opts: seq<Setting>, o: Setting, next: Option<string>)
    requires Good(o) && (o.value.Some? ==> next == o.value)
    ensures Flag(Meaning(opts), o.flag, next) == Go(Meaning(opts + [o]), if o.value.Some? then 1 else 0)
  {
    LastSnoc(opts, o, {"--upstream"}, Some(""));
    LastSnoc(opts, o, {"--port"}, None);
    LastSnoc(opts, o, {"--upstream-model"}, None);
    LastSnoc(opts, o, {"--candidate"}, None);
    LastSnoc(opts, o, {"--candidate-model"}, None);
    LastSnoc(opts, o, {"--capture", "--no-capture"}, Some("onpar-captures.log"));
    LastSnoc(opts, o, {"--key"}, None);
    LastSnoc(opts, o, {"--percent"}, None);
  }

  lemma FlagStops(a: Args, words: seq<string>)
    requires Stuck(words)
    ensures Flag(a, words[0], Next(words)) == Stop(if words[0] in {"-h", "--help"} then HelpShown else Refused)
  {
  }

  lemma WordsSnoc(opts: seq<Setting>, o: Setting, rest: seq<string>)
    ensures Words(opts + [o]) + rest ==
            Words(opts) + ([o.flag] + (if o.value.Some? then [o.value.value] else []) + rest)
  {
    assert (opts + [o])[..|opts|] == opts;
  }

  /** Reading good options leaves the settings they mean. */
  lemma {:induction false} ReadingMeans(opts: seq<Setting>, rest: seq<string>)
    requires AllGood(opts)
    ensures Scan(DEFAULTS, Words(opts) + rest) == Scan(Meaning(opts), rest)
  {
    if opts == [] {
      assert Words(opts) + rest == rest;
    } else {
      var init, o := opts[..|opts| - 1], opts[|opts| - 1];
      assert opts == init + [o];
      var words := [o.flag] + (if o.value.Some? then [o.value.value] else []) + rest;
      WordsSnoc(init, o, rest);
      ReadingMeans(init, words);
      FlagMeans(init, o, Next(words));
      assert words[if o.value.Some? then 2 else 1..] == rest;
    }
  }

  lemma StuckMeans(opts: seq<Setting>, rest: seq<string>)
    requires rest == [] || Stuck(rest)
    ensures Scan(Meaning(opts), rest) == OutcomeOf(opts, rest)
  {
    if rest != [] {
      FlagStops(Meaning(opts), rest);
    }
  }

  lemma GoodHead(words: seq<string>) returns (o: Setting, rest: seq<string>)
    requires words != [] && !Stuck(words)
    ensures Good(o) && words == [o.flag] + (if o.value.Some? then [o.value.value] else []) + rest
    ensures |rest| < |words|
  {
    if words[0] == "--no-capture" {
      o, rest := Setting(words[0], None), words[1..];
    } else {
      o, rest := Setting(words[0], Some(words[1])), words[2..];
    }
  }

  lemma SplitOff(opts: seq<Setting>, words: seq<string>) returns (all: seq<Setting>, rest: seq<string>)
    requires AllGood(opts)
    ensures Splits(Words(opts) + words, all, rest)
    decreases |words|
  {
    if words == [] || Stuck(words) {
      all, rest := opts, words;
    } else {
      var o, more := GoodHead(words);
      WordsSnoc(opts, o, more);
      all, rest := SplitOff(opts + [o], more);
    }
  }

  /** The flag loop comes to what the command line means, and to nothing else. */
  lemma OutcomeExactly(args: seq<string>, r: Outcome)
    ensures Scan(DEFAULTS, args) == r <==> ComesTo(args, r)
  {
    forall opts, rest | Splits(args, opts, rest)
      ensures Scan(DEFAULTS, args) == OutcomeOf(opts, rest)
    {
      ReadingMeans(opts, rest);
      StuckMeans(opts, rest);
    }
    assert Words([]) + args == args;
    var all, rest := SplitOff([], args);
    assert Splits(args, all, rest);
  }

  function PhaseFor(candidate: Option<string>, percent: u8): Phase {
    if candidate.None? then Off
    else if percent == 0 then Shadow
    else if percent == 100 then Cut
    else Canary(percent)
  }

  /** The table the process starts with: one route, no overrides, no failover. */
  function StartTable(a: Args): Table {
    var incumbent := Backend("incumbent", a.incumbent, a.incumbentModel);
    var candidate :=
      match a.candidate case None => incumbent case Some(url) => Backend("candidate", url, a.candidateModel);
    Table(Route(incumbent, candidate, PhaseFor(a.candidate, a.percent), false), map[])
  }

  /** The phase asked for would serve exactly the share asked for, so only the refusals stop it. */
  lemma PhaseServesThePercent(url: string, percent: u8)
    requires percent <= 100
    ensures PhaseFor(Some(url), percent).CandidatePercent() == percent
  {
  }

  lemma {:induction false} OnlyCheckedArgsStart(a: Args, args: seq<string>)
    requires Scan(a, args).Started?
    ensures Scan(a, args) == Checked(Scan(a, args).args)
    decreases |args|
  {
    if args != [] {
      var e := Flag(a, args[0], if |args| > 1 then Some(args[1]) else None);
      OnlyCheckedArgsStart(e.args, if 1 + e.used <= |args| then args[1 + e.used..] else []);
    }
  }

  /** No command line moves traffic: whatever it says, a process that starts serves nothing from the
      candidate, for any cluster. */
  lemma StartupIsQuiet(args: seq<string>)
    requires Scan(DEFAULTS, args).Started?
    ensures Quiet(StartTable(Scan(DEFAULTS, args).args))
  {
    OnlyCheckedArgsStart(DEFAULTS, args);
  }

  /** What is scored from the start: a candidate that was named, as it was named, by every request; and nothing if
      none was. */
  lemma CandidateIsMirroredFromTheStart(args: seq<string>, cluster: Option<string>, key: bytes)
    requires Scan(DEFAULTS, args).Started?
    ensures var a := Scan(DEFAULTS, args).args;
            Decide(StartTable(a), cluster, key).mirror ==
            if a.candidate.None? then None else Some(Backend("candidate", a.candidate.value, a.candidateModel))
  {
    OnlyCheckedArgsStart(DEFAULTS, args);
  }

  /** The phase for a candidate: compared only at none of the traffic, sole server at all of it, and for any
      share between them both; without a candidate neither. */
  lemma PhaseComparesExactly(candidate: Option<string>, percent: u8, incumbent: Backend, other: Backend, key: bytes)
    requires percent <= 100
    ensures var t := Table(Route(incumbent, other, PhaseFor(candidate, percent), false), map[]);
            && (Decide(t, None, key).mirror.Some? <==> candidate.Some? && Bucket(key) >= percent)
            && (Decide(t, None, key).serve ==
                if candidate.Some? && Bucket(key) < percent then other else incumbent)
  {
  }

  // ---------------------------------------------------------------- numbers on the command line

  function Digit(d: nat): char
    requires d < 10
  {
    ('0' as int + d) as char
  }

  /** A number as people write it. */
  function Shown(n: nat): string {
    (if n < 10 then "" else Shown(n / 10)) + [Digit(n % 10)]
  }

  lemma OneMoreDigit(s: string, d: nat)
    requires (s == "" || Digits(s)) && d < 10
    ensures Digits(s + [Digit(d)]) && Decimal(s + [Digit(d)]) == 10 * Decimal(s) + d
  {
    assert (s + [Digit(d)])[..|s|] == s;
  }

  lemma {:induction false} ShownReads(n: nat)
    ensures Digits(Shown(n)) && Decimal(Shown(n)) == n
  {
    if n < 10 {
      OneMoreDigit("", n);
    } else {
      ShownReads(n / 10);
      OneMoreDigit(Shown(n / 10), n % 10);
    }
  }

  lemma AllButLast(s: string)
    requires Digits(s)
    ensures exists d: nat :: d < 10 && s == s[..|s| - 1] + [Digit(d)]
    ensures |s| > 1 ==> Digits(s[..|s| - 1])
  {
    var n := |s| - 1;
    assert s[n] in s;
    var d := s[n] as int - '0' as int;
    assert s == s[..n] + [Digit(d)];
    assert forall c :: c in s[..n] ==> c in s;
  }

  /** A zero ahead of a number changes nothing. */
  lemma {:induction false} LeadingZero(s: string)
    requires Digits(s)
    ensures Digits("0" + s) && Decimal("0" + s) == Decimal(s)
  {
    AllButLast(s);
    var init := s[..|s| - 1];
    var d: nat :| d < 10 && s == init + [Digit(d)];
    if init == "" {
      OneMoreDigit("", 0);
      assert "" + [Digit(0)] == "0";
    } else {
      LeadingZero(init);
    }
    OneMoreDigit(init, d);
    OneMoreDigit("0" + init, d);
    assert "0" + init + [Digit(d)] == "0" + s;
  }

  lemma DigitsRead(s: string, max: nat)
    requires Digits(s)
    ensures Unsigned(s, max) == if Decimal(s) <= max then Some(Decimal(s)) else None
    ensures Unsigned("+" + s, max) == Unsigned(s, max)
  {
    assert s[0] in s;
    assert ("+" + s)[1..] == s;
  }

  /** A number is read as itself up to the limit and refused above it, a plus sign or zeros ahead or not. */
  lemma NumbersRead(n: nat, max: nat)
    ensures var s := Shown(n);
            && Unsigned(s, max) == (if n <= max then Some(n) else None)
            && Unsigned("+" + s, max) == Unsigned(s, max) && Unsigned("0" + s, max) == Unsigned(s, max)
  {
    var s := Shown(n);
    ShownReads(n);
    LeadingZero(s);
    DigitsRead(s, max);
    DigitsRead("0" + s, max);
  }

  /** Nothing but digits, and a plus sign ahead of them, reads as a number. */
  lemma OnlyDigitsRead(s: string, max: nat, i: nat)
    requires Unsigned(s, max).Some? && i < |s|
    ensures '0' <= s[i] <= '9' || (i == 0 && s[i] == '+')
  {
    if s[0] == '+' && i > 0 {
      assert s[1..][i - 1] == s[i];
      assert s[i] in s[1..];
    } else {
      assert s[i] in s;
    }
  }

  /** From any command line, through any interleaving of handlers in which no confirmed change was
      applied, every request is answered by the upstream named on the command line. */
  lemma UpstreamAnswersUntilConfirmed(args: seq<string>, steps: seq<Step>, cluster: Option<string>, key: bytes)
    requires Scan(DEFAULTS, args).Started?
    requires var t := StartTable(Scan(DEFAULTS, args).args);
             Runs(Start(t), steps) && forall tr :: tr in Run(Start(t), steps).applied ==> !tr.confirmed
    ensures var a := Scan(DEFAULTS, args).args;
            Decide(Run(Start(StartTable(a)), steps).table, cluster, key).serve
              == Backend("incumbent", a.incumbent, a.incumbentModel)
  {
    StartupIsQuiet(args);
    NothingMovesUnconfirmed(StartTable(Scan(DEFAULTS, args).args), steps, cluster, key);
  }
}
