/** Token metering: what a stream of events says about its own cost. JSON parsing is a parameter. */
module Metering {
  import opened Wrappers
  import opened Framing
  import opened SsePayload
  import opened Arithmetic

  /** A parsed payload, as far as metering looks into it. */
  datatype Json =
    | Null
    | Unsigned(n: u64)
    | Text(s: bytes)
    | Items(items: seq<Json>)
    | Object(fields: map<string, Json>)
    | Other

  type Parser = bytes -> Option<Json>

  datatype Usage = Usage(prompt: u64, completion: u64)

  /** The verdict on a stream: a usage the upstream gave, or how many content deltas went by. */
  datatype Metered = Reported(usage: Usage) | Unreported(deltas: u64)

  function Get(v: Json, key: string): Option<Json> {
    if v.Object? && key in v.fields then Some(v.fields[key]) else None
  }

  function Count(v: Json, key: string): Option<u64> {
    match Get(v, key) case Some(Unsigned(n)) => Some(n) case _ => None
  }

  /** Both counts or nothing; a null `usage` is nothing. */
  function UsageFrom(v: Json): Option<Usage> {
    match Get(v, "usage")
    case None => None
    case Some(u) =>
      match (Count(u, "prompt_tokens"), Count(u, "completion_tokens"))
      case (Some(p), Some(c)) => Some(Usage(p, c))
      case _ => None
  }

  predicate ChoiceHasContent(c: Json) {
    match Get(c, "delta")
    case None => false
    case Some(d) => match Get(d, "content") case Some(Text(s)) => s != [] case _ => false
  }

  predicate HasContentDelta(v: Json) {
    match Get(v, "choices")
    case Some(Items(cs)) => exists c :: c in cs && ChoiceHasContent(c)
    case _ => false
  }

  // ---------------------------------------------------------------- what a list of events says

  function EventUsage(parse: Parser, ev: Event): Option<Usage> {
    if ev.Done? || parse(ev.payload).None? then None else UsageFrom(parse(ev.payload).value)
  }

  predicate EventHasDelta(parse: Parser, ev: Event) {
    ev.Data? && parse(ev.payload).Some? && HasContentDelta(parse(ev.payload).value)
  }

  /** The verdict on a stream, told without running a meter: the last complete usage if there is one,
      otherwise the number of content deltas. */
  ghost predicate IsVerdict(parse: Parser, events: seq<Event>, m: Metered) {
    match m
    case Reported(u) =>
      exists i :: 0 <= i < |events| && EventUsage(parse, events[i]) == Some(u)
                  && forall j :: i < j < |events| ==> EventUsage(parse, events[j]).None?
    case Unreported(n) =>
      && (forall ev :: ev in events ==> EventUsage(parse, ev).None?)
      && n == Saturated(Deltas(parse, events))
  }

  function Deltas(parse: Parser, events: seq<Event>): nat {
    if events == [] then 0
    else Deltas(parse, events[..|events| - 1]) + (if EventHasDelta(parse, events[|events| - 1]) then 1 else 0)
  }

  /** A usage is found exactly where a payload parses to an object with an object under `usage` that holds both
      counts, each under its own name. */
  lemma UsageExactly(parse: Parser, ev: Event, u: Usage)
    ensures EventUsage(parse, ev) == Some(u) <==>
      && ev.Data? && parse(ev.payload).Some?
      && var v := parse(ev.payload).value;
         && v.Object? && "usage" in v.fields && v.fields["usage"].Object?
         && var f := v.fields["usage"].fields;
            && "prompt_tokens" in f && f["prompt_tokens"] == Unsigned(u.prompt)
            && "completion_tokens" in f && f["completion_tokens"] == Unsigned(u.completion)
  {
  }

  /** A choice that carries generated text. */
  predicate CarriesText(c: Json) {
    && c.Object? && "delta" in c.fields && c.fields["delta"].Object?
    && "content" in c.fields["delta"].fields
    && c.fields["delta"].fields["content"].Text? && c.fields["delta"].fields["content"].s != []
  }

  /** An event counts as a content delta exactly where one of its choices carries text. */
  lemma DeltaExactly(parse: Parser, ev: Event)
    ensures EventHasDelta(parse, ev) <==>
      && ev.Data? && parse(ev.payload).Some?
      && var v := parse(ev.payload).value;
         && v.Object? && "choices" in v.fields && v.fields["choices"].Items?
         && exists c :: c in v.fields["choices"].items && CarriesText(c)
  {
    forall c: Json
      ensures ChoiceHasContent(c) <==> CarriesText(c)
    {
    }
  }

  /** The positions of the content deltas among the first `n` events. */
  function DeltaPositions(parse: Parser, events: seq<Event>, n: nat): set<nat>
    requires n <= |events|
  {
    set i: nat | i < n && EventHasDelta(parse, events[i])
  }

  lemma OneMorePosition(before: set<nat>, after: set<nat>, n: nat, counts: bool)
    requires n !in before && forall i :: i in after <==> i in before || (i == n && counts)
    ensures |after| == |before| + if counts then 1 else 0
  {
    assert after == before + (if counts then {n} else {});
  }

  /** The deltas are counted once for each event that is one. */
  lemma {:induction false} DeltasAreCounted(parse: Parser, events: seq<Event>, n: nat)
    requires n <= |events|
    ensures Deltas(parse, events[..n]) == |DeltaPositions(parse, events, n)|
  {
    if n == 0 {
      assert DeltaPositions(parse, events, n) == {};
    } else {
      var init, ev := events[..n - 1], events[n - 1];
      DeltasAreCounted(parse, events, n - 1);
      assert events[..n] == init + [ev];
      DeltasSnoc(parse, init, ev);
      OneMorePosition(DeltaPositions(parse, events, n - 1), DeltaPositions(parse, events, n), n - 1,
                      EventHasDelta(parse, ev));
    }
  }

  lemma DeltasSnoc(parse: Parser, events: seq<Event>, ev: Event)
    ensures Deltas(parse, events + [ev]) == Deltas(parse, events) + if EventHasDelta(parse, ev) then 1 else 0
  {
    assert (events + [ev])[..|events|] == events;
  }

  /** There is only one verdict on a stream. */
  lemma VerdictUnique(parse: Parser, events: seq<Event>, m1: Metered, m2: Metered)
    requires IsVerdict(parse, events, m1) && IsVerdict(parse, events, m2)
    ensures m1 == m2
  {
    if m1.Reported? {
      var i :| 0 <= i < |events| && EventUsage(parse, events[i]) == Some(m1.usage)
               && forall j :: i < j < |events| ==> EventUsage(parse, events[j]).None?;
      assert events[i] in events;
    }
    if m2.Reported? {
      var k :| 0 <= k < |events| && EventUsage(parse, events[k]) == Some(m2.usage)
               && forall j :: k < j < |events| ==> EventUsage(parse, events[j]).None?;
      assert events[k] in events;
    }
  }

  class Meter {
    const parse: Parser
    var usage: Option<Usage>
    var deltas: u64
    ghost var seen: seq<Event>

    /** The fields are what the events seen so far amount to. */
    ghost predicate Valid()
      reads this
    {
      && deltas == Saturated(Deltas(parse, seen))
      && (usage.Some? ==> IsVerdict(parse, seen, Reported(usage.value)))
      && (usage.None? ==> forall ev :: ev in seen ==> EventUsage(parse, ev).None?)
    }

    constructor (parse: Parser)
      ensures Valid() && seen == [] && this.parse == parse
    {
      this.parse := parse;
      usage, deltas, seen := None, 0, [];
    }

    method Observe(ev: Event)
      requires Valid()
      modifies this
      ensures Valid() && seen == old(seen) + [ev]
    {
      ghost var before := seen;
      seen := seen + [ev];
      assert seen[..|seen| - 1] == before;
      if ev.Done? {
        KeepUsage(before, ev);
        return;
      }
      var v := parse(ev.payload);
      if v.None? {
        KeepUsage(before, ev);
        return;
      }
      var u := UsageFrom(v.value);
      if u.Some? {
        usage := u;
        assert EventUsage(parse, seen[|seen| - 1]) == u;
      } else {
        KeepUsage(before, ev);
      }
      if HasContentDelta(v.value) {
        deltas := SatAdd(deltas, 1);
      }
    }

    /** The verdict on the events seen so far. */
    method Snapshot() returns (m: Metered)
      requires Valid()
      ensures IsVerdict(parse, seen, m)
    {
      m := if usage.Some? then Reported(usage.value) else Unreported(deltas);
    }

    lemma KeepUsage(before: seq<Event>, ev: Event)
      requires EventUsage(parse, ev).None?
      ensures forall u :: IsVerdict(parse, before, Reported(u)) ==> IsVerdict(parse, before + [ev], Reported(u))
    {
      var after := before + [ev];
      forall u | IsVerdict(parse, before, Reported(u))
        ensures IsVerdict(parse, after, Reported(u))
      {
        var i :| 0 <= i < |before| && EventUsage(parse, before[i]) == Some(u)
                 && forall j :: i < j < |before| ==> EventUsage(parse, before[j]).None?;
        assert EventUsage(parse, after[i]) == Some(u);
      }
    }
  }

  // ---------------------------------------------------------------- cost

  const MICROS_PER_MTOK: nat := 1_000_000

  function PartCost(tokens: u64, rate: u64): u64 {
    SatMul(tokens, rate) / MICROS_PER_MTOK
  }

  /** Integer micro-dollars, from per-million-token rates. */
  function CostMicros(u: Usage, promptRate: u64, completionRate: u64): u64 {
    SatAdd(PartCost(u.prompt, promptRate), PartCost(u.completion, completionRate))
  }

  // A ledger adds up the costs of its requests.

  function Total(tokens: seq<u64>): nat {
    if tokens == [] then 0 else tokens[0] + Total(tokens[1..])
  }

  /** What the entries of one kind come to, each charged by itself. */
  function Charged(tokens: seq<u64>, rate: u64): nat {
    if tokens == [] then 0 else PartCost(tokens[0], rate) + Charged(tokens[1..], rate)
  }

  /** What they come to before any of it is rounded down, in millionths of a micro-dollar. */
  function Owed(tokens: seq<u64>, rate: u64): nat {
    if tokens == [] then 0 else SatMul(tokens[0], rate) + Owed(tokens[1..], rate)
  }

  /** What rounding down leaves over of each entry, added up. */
  function LeftOver(tokens: seq<u64>, rate: u64): nat {
    if tokens == [] then 0 else SatMul(tokens[0], rate) % MICROS_PER_MTOK + LeftOver(tokens[1..], rate)
  }

  /** Whole micro-dollars among what was left over. */
  function Carried(tokens: seq<u64>, rate: u64): nat {
    LeftOver(tokens, rate) / MICROS_PER_MTOK
  }

  /** What the 64-bit cap takes off the charge for all the tokens at once; nothing if they are in range. */
  function CutOff(tokens: seq<u64>, rate: u64): nat {
    Owed(tokens, rate) / MICROS_PER_MTOK - Saturated(Owed(tokens, rate)) / MICROS_PER_MTOK
  }

  lemma {:induction false} OwedIsChargedAndLeftOver(tokens: seq<u64>, rate: u64)
    ensures Owed(tokens, rate) == MICROS_PER_MTOK * Charged(tokens, rate) + LeftOver(tokens, rate)
  {
    if tokens != [] {
      OwedIsChargedAndLeftOver(tokens[1..], rate);
    }
  }

  lemma Distribute(a: nat, b: nat, rate: nat)
    ensures (a + b) * rate == a * rate + b * rate && 0 <= a * rate && 0 <= b * rate
  {
  }

  /** Charging all the tokens at once caps what is owed for them. */
  lemma {:induction false} TotalIsOwed(tokens: seq<u64>, rate: u64)
    ensures SatMul(Total(tokens), rate) == Saturated(Owed(tokens, rate))
    ensures Owed(tokens, rate) <= Total(tokens) * rate
  {
    if tokens != [] {
      TotalIsOwed(tokens[1..], rate);
      Distribute(tokens[0], Total(tokens[1..]), rate);
    }
  }

  lemma PartsAddUp(tokens: seq<u64>, rate: u64)
    requires Total(tokens) <= U64_MAX
    ensures Charged(tokens, rate) + Carried(tokens, rate) == PartCost(Total(tokens), rate) + CutOff(tokens, rate)
  {
    OwedIsChargedAndLeftOver(tokens, rate);
    TotalIsOwed(tokens, rate);
    WholeParts(Charged(tokens, rate), LeftOver(tokens, rate));
  }

  lemma WholeParts(q: nat, r: nat)
    ensures (MICROS_PER_MTOK * q + r) / MICROS_PER_MTOK == q + r / MICROS_PER_MTOK
  {
  }

  function Prompts(us: seq<Usage>): seq<u64> {
    seq(|us|, i requires 0 <= i < |us| => us[i].prompt)
  }

  function Completions(us: seq<Usage>): seq<u64> {
    seq(|us|, i requires 0 <= i < |us| => us[i].completion)
  }

  /** The costs of the requests, added up. */
  function Ledger(us: seq<Usage>, promptRate: u64, completionRate: u64): nat {
    if us == [] then 0 else CostMicros(us[0], promptRate, completionRate) + Ledger(us[1..], promptRate, completionRate)
  }

  lemma CostIsItsParts(u: Usage, promptRate: u64, completionRate: u64)
    ensures CostMicros(u, promptRate, completionRate) ==
            PartCost(u.prompt, promptRate) + PartCost(u.completion, completionRate)
  {
    assert PartCost(u.prompt, promptRate) <= U64_MAX / MICROS_PER_MTOK;
    assert PartCost(u.completion, completionRate) <= U64_MAX / MICROS_PER_MTOK;
  }

  lemma {:induction false} LedgerIsItsParts(us: seq<Usage>, promptRate: u64, completionRate: u64)
    ensures Ledger(us, promptRate, completionRate) ==
            Charged(Prompts(us), promptRate) + Charged(Completions(us), completionRate)
  {
    if us != [] {
      LedgerIsItsParts(us[1..], promptRate, completionRate);
      CostIsItsParts(us[0], promptRate, completionRate);
      assert Prompts(us)[1..] == Prompts(us[1..]) && Completions(us)[1..] == Completions(us[1..]);
    }
  }

  /** One request with the tokens of all. */
  function Together(us: seq<Usage>): Usage
    requires Total(Prompts(us)) <= U64_MAX && Total(Completions(us)) <= U64_MAX
  {
    Usage(Total(Prompts(us)), Total(Completions(us)))
  }

  /** The whole micro-dollars that rounding each request down costs the ledger. */
  function Shortfall(us: seq<Usage>, promptRate: u64, completionRate: u64): nat {
    Carried(Prompts(us), promptRate) + Carried(Completions(us), completionRate)
  }

  /** The whole micro-dollars that capping the one big request costs it. */
  function Windfall(us: seq<Usage>, promptRate: u64, completionRate: u64): nat {
    CutOff(Prompts(us), promptRate) + CutOff(Completions(us), completionRate)
  }

  /** A ledger and the cost of one request with all its tokens differ by exactly what rounding takes from the
      one and the 64-bit cap from the other. */
  lemma CostsAddUpExactly(us: seq<Usage>, promptRate: u64, completionRate: u64)
    requires Total(Prompts(us)) <= U64_MAX && Total(Completions(us)) <= U64_MAX
    ensures Ledger(us, promptRate, completionRate) + Shortfall(us, promptRate, completionRate) ==
            CostMicros(Together(us), promptRate, completionRate) + Windfall(us, promptRate, completionRate)
  {
    LedgerIsItsParts(us, promptRate, completionRate);
    CostIsItsParts(Together(us), promptRate, completionRate);
    PartsAddUp(Prompts(us), promptRate);
    PartsAddUp(Completions(us), completionRate);
  }

  /** Nothing is capped unless the tokens of one kind leave the 64-bit range at their rate. */
  lemma NothingCutOffInRange(tokens: seq<u64>, rate: u64)
    requires Total(tokens) * rate <= U64_MAX
    ensures CutOff(tokens, rate) == 0
  {
    TotalIsOwed(tokens, rate);
  }

  /** So in range a ledger is never above the one request, and equal to it exactly when neither what the
      prompts nor what the completions left over makes a whole micro-dollar. */
  lemma CostsAddUpInRange(us: seq<Usage>, promptRate: u64, completionRate: u64)
    requires Total(Prompts(us)) <= U64_MAX && Total(Completions(us)) <= U64_MAX
    requires Total(Prompts(us)) * promptRate <= U64_MAX && Total(Completions(us)) * completionRate <= U64_MAX
    ensures var apart := Ledger(us, promptRate, completionRate);
            var together := CostMicros(Together(us), promptRate, completionRate);
            && apart <= together
            && (apart == together <==>
                  && LeftOver(Prompts(us), promptRate) < MICROS_PER_MTOK
                  && LeftOver(Completions(us), completionRate) < MICROS_PER_MTOK)
  {
    CostsAddUpExactly(us, promptRate, completionRate);
    NothingCutOffInRange(Prompts(us), promptRate);
    NothingCutOffInRange(Completions(us), completionRate);
  }

  /** So a ledger of small requests can fall short of one big one: two single tokens at half a
      micro-dollar each are recorded as free. */
  lemma SmallRequestsCanReadAsFree()
    ensures CostMicros(Usage(1, 0), 500_000, 0) == 0 && CostMicros(Usage(2, 0), 500_000, 0) == 1
  {
  }
}
