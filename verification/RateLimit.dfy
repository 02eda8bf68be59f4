/** The lock-free token bucket of ratelimit.c.

    Any number of CPUs spend from one resident bucket, a 64-bit word that holds a 32-bit
    stamp above a 32-bit token count. A CPU's packet goes through atomic steps: read the
    word, sample the clock, then compute and compare-and-swap; the clock may advance between
    any two steps. An interleaving is a sequence of such steps. */
module RateLimit {
  import opened Types

  const ONE_TOKEN: nat := 256
  const TWO64: nat := 0x1_0000_0000_0000_0000

  function Stamp(word: nat): nat { word / TWO32 }

  function Tokens(word: nat): nat { word % TWO32 }

  // ---- one spend ------------------------------------------------------------------

  datatype Spend = Limited | Next(word: nat)

  /** `rl_spend`, with every operation wrapped at its C width. */
  function RlSpend(seen: nat, now: nat, rate: nat, burst: nat): Spend {
    var elapsed := now - Stamp(seen);
    var refill := if elapsed < 0 then burst
                  else var earned := (elapsed * rate) % TWO64; if earned > burst then burst else earned;
    var sum := (Tokens(seen) + refill) % TWO64;
    var tokens := if sum > burst then burst else sum;
    if tokens < ONE_TOKEN then Limited
    else Next((now * TWO32) % TWO64 + (tokens - ONE_TOKEN) % TWO32)
  }

  /** The bucket content without widths: what was there plus what was earned, up to the burst. */
  function Available(seen: nat, now: nat, rate: nat, burst: nat): nat
    requires Stamp(seen) <= now
  {
    var total := Tokens(seen) + (now - Stamp(seen)) * rate;
    if total > burst then burst else total
  }

  lemma ProductBelow(a: nat, b: nat)
    requires a < TWO32 && b < TWO32
    ensures 0 <= a * b < TWO64
  {
    Scale(b, a, TWO32 - 1);
  }

  lemma SmallMod(x: nat, m: nat)
    requires x < m
    ensures x % m == x
  {
  }

  lemma Unpack(stamp: nat, tokens: nat)
    requires tokens < TWO32
    ensures Stamp(stamp * TWO32 + tokens) == stamp && Tokens(stamp * TWO32 + tokens) == tokens
  {
  }

  /** On a 64-bit word, 32-bit parameters and a clock not behind the stamp, nothing wraps:
      a spend is refused exactly when less than one token is available, and otherwise leaves
      the word stamped now with one token less. */
  lemma SpendExact(seen: nat, now: nat, rate: nat, burst: nat)
    requires seen < TWO64 && now < TWO32 && rate < TWO32 && burst < TWO32
    requires Stamp(seen) <= now
    ensures RlSpend(seen, now, rate, burst).Limited? <==> Available(seen, now, rate, burst) < ONE_TOKEN
    ensures var r := RlSpend(seen, now, rate, burst); r.Next? ==>
              r.word < TWO64 && Stamp(r.word) == now && Tokens(r.word) == Available(seen, now, rate, burst) - ONE_TOKEN
  {
    var earned := (now - Stamp(seen)) * rate;
    ProductBelow(now - Stamp(seen), rate);
    SmallMod(earned, TWO64);
    var refill := if earned > burst then burst else earned;
    SmallMod(Tokens(seen) + refill, TWO64);
    var tokens := Available(seen, now, rate, burst);
    if tokens >= ONE_TOKEN {
      SmallMod(now * TWO32, TWO64);
      SmallMod(tokens - ONE_TOKEN, TWO32);
      assert RlSpend(seen, now, rate, burst) == Next(now * TWO32 + (tokens - ONE_TOKEN));
      Unpack(now, tokens - ONE_TOKEN);
    }
  }

  /** A clock behind the stamp takes the resync branch: whatever was spent, the bucket is
      full again. This is what the step order below must keep out of reach. */
  lemma ResyncRefills(seen: nat, now: nat, rate: nat, burst: nat)
    requires now < Stamp(seen) && now < TWO32 && ONE_TOKEN <= burst < TWO32
    ensures RlSpend(seen, now, rate, burst) == Next(now * TWO32 + (burst - ONE_TOKEN))
  {
  }

  // ---- the interleaving ------------------------------------------------------------

  datatype Params = Params(rate: nat, burst: nat, retries: nat)

  /** A lost attempt: it had a token to spend from the word at log position `at`, at the time
      `now`, and found the word at position `found` instead. */
  datatype Loss = Loss(at: nat, now: nat, found: nat)

  /** Where a CPU stands in its packet. Besides what it holds, the history of the packet: `at` is
      the log position of the word that was read, `read` the clock when it was, `since` the log
      position at arrival, `losses` the attempts lost so far. */
  datatype Cpu =
    | Idle
    | Loaded(seen: nat, retry: nat, at: nat, read: nat, since: nat, losses: seq<Loss>)
    | Armed(seen: nat, now: nat, retry: nat, at: nat, read: nat, since: nat, losses: seq<Loss>)

  /** A packet refused on the word at log position `at`, read at `read` and judged at `now`. */
  datatype Refusal = Refusal(cpu: nat, at: nat, read: nat, now: nat, since: nat)

  /** A packet admitted without a token, after its losses. */
  datatype FailOpen = FailOpen(cpu: nat, since: nat, losses: seq<Loss>)

  /** The shared word and clock, the CPUs, and the history: every word the bucket has held, per
      CPU the arrivals, the successful spends and the admissions after exhausted retries, and
      every refusal and fail-open. */
  datatype State = State(word: nat, clock: nat, cpus: seq<Cpu>, log: seq<nat>, spent: seq<nat>, exhausted: seq<nat>,
                         arrivals: seq<nat>, refusals: seq<Refusal>, failOpens: seq<FailOpen>)

  datatype Event = Tick(to: nat) | Load(cpu: nat) | Sample(cpu: nat) | Attempt(cpu: nat)

  predicate Enabled(p: Params, s: State, e: Event) {
    match e
    case Tick(to) => s.clock <= to < TWO32
    case Load(c) => c < |s.cpus| && s.cpus[c].Idle?
    case Sample(c) => c < |s.cpus| && s.cpus[c].Loaded?
    case Attempt(c) => c < |s.cpus| && s.cpus[c].Armed?
  }

  function Apply(p: Params, s: State, e: Event): State
    requires Enabled(p, s, e) && |s.spent| == |s.exhausted| == |s.arrivals| == |s.cpus|
    requires s.log != []
  {
    match e
    case Tick(to) => s.(clock := to)
    case Load(c) =>
      s.(cpus := s.cpus[c := Loaded(s.word, 0, |s.log| - 1, s.clock, |s.log| - 1, [])], arrivals := s.arrivals[c := s.arrivals[c] + 1])
    case Sample(c) =>
      var cpu := s.cpus[c];
      if cpu.retry < p.retries
      then s.(cpus := s.cpus[c := Armed(cpu.seen, s.clock, cpu.retry, cpu.at, cpu.read, cpu.since, cpu.losses)])
      else s.(cpus := s.cpus[c := Idle], exhausted := s.exhausted[c := s.exhausted[c] + 1],
              failOpens := s.failOpens + [FailOpen(c, cpu.since, cpu.losses)])
    case Attempt(c) =>
      var cpu := s.cpus[c];
      match RlSpend(cpu.seen, cpu.now, p.rate, p.burst)
      case Limited => s.(cpus := s.cpus[c := Idle], refusals := s.refusals + [Refusal(c, cpu.at, cpu.read, cpu.now, cpu.since)])
      case Next(next) =>
        if s.word == cpu.seen
        then s.(word := next, cpus := s.cpus[c := Idle], log := s.log + [next], spent := s.spent[c := s.spent[c] + 1])
        else s.(cpus := s.cpus[c := Loaded(s.word, cpu.retry + 1, |s.log| - 1, s.clock, cpu.since,
                                           cpu.losses + [Loss(cpu.at, cpu.now, |s.log| - 1)])])
  }

  function Spends(s: State): nat
    requires s.log != []
  {
    |s.log| - 1
  }

  /** A resident bucket, found by `n` idle CPUs. */
  ghost predicate Initial(p: Params, s: State) {
    && p.rate < TWO32 && p.burst < TWO32
    && s.word < TWO64 && Stamp(s.word) <= s.clock < TWO32
    && s.log == [s.word]
    && s.cpus == seq(|s.cpus|, _ => Idle)
    && s.spent == s.exhausted == s.arrivals == seq(|s.cpus|, _ => 0)
    && s.refusals == [] && s.failOpens == []
  }

  // ---- the invariant -----------------------------------------------------------------

  /** The bucket moves strictly forward: to a later stamp, or to fewer tokens at the same one. */
  predicate Before(a: nat, b: nat) {
    Stamp(a) < Stamp(b) || (Stamp(a) == Stamp(b) && Tokens(a) > Tokens(b))
  }

  ghost predicate CpuValid(p: Params, s: State, c: nat)
    requires c < |s.cpus| == |s.spent| == |s.exhausted|
  {
    match s.cpus[c]
    case Idle => p.retries * s.exhausted[c] + s.spent[c] < |s.log|
    case Loaded(seen, retry, at, _, _, _) =>
      && at < |s.log| && s.log[at] == seen && retry <= p.retries
      && p.retries * s.exhausted[c] + retry + s.spent[c] <= at
    case Armed(seen, now, retry, at, _, _, _) =>
      && at < |s.log| && s.log[at] == seen && retry < p.retries
      && Stamp(seen) <= now <= s.clock
      && p.retries * s.exhausted[c] + retry + s.spent[c] <= at
  }

  ghost predicate Inv(p: Params, s: State) {
    && p.rate < TWO32 && p.burst < TWO32
    && |s.cpus| == |s.spent| == |s.exhausted| == |s.arrivals|
    && s.log != [] && s.log[|s.log| - 1] == s.word
    && s.clock < TWO32
    && (forall i :: 0 <= i < |s.log| ==> s.log[i] < TWO64 && Stamp(s.log[i]) <= s.clock)
    && (forall i, j :: 0 <= i < j < |s.log| ==> Before(s.log[i], s.log[j]))
    && (forall c :: 0 <= c < |s.cpus| ==> CpuValid(p, s, c))
    && Sum(s.spent) == |s.log| - 1
    && Paid(p, s.log)
  }

  /** Every spend so far was covered by the initial tokens and the time on the stamp. */
  ghost predicate Paid(p: Params, log: seq<nat>)
    requires log != []
  {
    var first, last := log[0], log[|log| - 1];
    && Stamp(first) <= Stamp(last)
    && ONE_TOKEN * (|log| - 1) + Tokens(last) <= Tokens(first) + p.rate * (Stamp(last) - Stamp(first))
  }

  function Sum(s: seq<nat>): nat {
    if s == [] then 0 else Sum(s[..|s| - 1]) + s[|s| - 1]
  }

  lemma {:induction false} SumUpdate(s: seq<nat>, i: nat, v: nat)
    requires i < |s|
    ensures Sum(s[i := v]) == Sum(s) - s[i] + v
  {
    var n := |s| - 1;
    if i < n {
      SumUpdate(s[..n], i, v);
      assert s[i := v][..n] == s[..n][i := v];
    } else {
      assert s[i := v][..n] == s[..n];
    }
  }

  lemma {:induction false} SumZero(n: nat)
    ensures Sum(seq(n, _ => 0)) == 0
  {
    if n > 0 {
      SumZero(n - 1);
      assert seq(n, _ => 0)[..n - 1] == seq(n - 1, _ => 0);
    }
  }

  lemma InitialInv(p: Params, s: State)
    requires Initial(p, s)
    ensures Inv(p, s)
  {
    SumZero(|s.cpus|);
  }

  /** A successful spend moves the word strictly forward and costs a token. */
  lemma SpendMoves(seen: nat, now: nat, rate: nat, burst: nat, next: nat)
    requires seen < TWO64 && now < TWO32 && rate < TWO32 && burst < TWO32 && Stamp(seen) <= now
    requires RlSpend(seen, now, rate, burst) == Next(next)
    ensures next < TWO64 && Stamp(next) == now && Before(seen, next)
    ensures Tokens(next) + ONE_TOKEN <= Tokens(seen) + rate * (now - Stamp(seen))
  {
    SpendExact(seen, now, rate, burst);
    assert (now - Stamp(seen)) * rate == rate * (now - Stamp(seen));
  }

  /** A spend from the current word extends the log by a strictly later, still covered word. */
  lemma SpendExtendsLog(p: Params, s: State, c: nat, next: nat)
    requires Inv(p, s) && c < |s.cpus| && s.cpus[c].Armed? && s.cpus[c].seen == s.word
    requires RlSpend(s.word, s.cpus[c].now, p.rate, p.burst) == Next(next)
    ensures next < TWO64 && Stamp(next) == s.cpus[c].now && Before(s.word, next)
    ensures forall i :: 0 <= i < |s.log| ==> Before(s.log[i], next)
    ensures Paid(p, s.log + [next])
  {
    assert CpuValid(p, s, c);
    SpendMoves(s.word, s.cpus[c].now, p.rate, p.burst, next);
    Distribute(p.rate, Stamp(s.word) - Stamp(s.log[0]), Stamp(next) - Stamp(s.word));
  }

  lemma Distribute(r: nat, a: int, b: int)
    ensures r * a + r * b == r * (a + b)
  {
  }

  /** A compare-and-swap succeeds exactly when no other spend happened since the word was
      read: equal words mean the same position in the log, so there is no ABA. */
  lemma SwapMeansUntouched(p: Params, s: State, c: nat)
    requires Inv(p, s) && c < |s.cpus| && s.cpus[c].Armed?
    ensures s.word == s.cpus[c].seen <==> s.cpus[c].at == |s.log| - 1
  {
    assert CpuValid(p, s, c);
  }

  lemma AttemptInv(p: Params, s: State, c: nat)
    requires Inv(p, s) && Enabled(p, s, Attempt(c))
    ensures Inv(p, Apply(p, s, Attempt(c)))
  {
    var r := RlSpend(s.cpus[c].seen, s.cpus[c].now, p.rate, p.burst);
    if r.Next? && s.word == s.cpus[c].seen {
      WonInv(p, s, c, r.word);
    } else {
      LostInv(p, s, c);
    }
  }

  lemma WonInv(p: Params, s: State, c: nat, next: nat)
    requires Inv(p, s) && Enabled(p, s, Attempt(c)) && s.word == s.cpus[c].seen
    requires RlSpend(s.word, s.cpus[c].now, p.rate, p.burst) == Next(next)
    ensures Inv(p, Apply(p, s, Attempt(c)))
  {
    var t := Apply(p, s, Attempt(c));
    assert CpuValid(p, s, c);
    SwapMeansUntouched(p, s, c);
    SpendExtendsLog(p, s, c, next);
    SumUpdate(s.spent, c, s.spent[c] + 1);
    assert forall i :: 0 <= i < |s.log| ==> t.log[i] == s.log[i];
    forall d | 0 <= d < |t.cpus| ensures CpuValid(p, t, d) {
      assert CpuValid(p, s, d);
    }
  }

  lemma LostInv(p: Params, s: State, c: nat)
    requires Inv(p, s) && Enabled(p, s, Attempt(c))
    requires s.word != s.cpus[c].seen || RlSpend(s.cpus[c].seen, s.cpus[c].now, p.rate, p.burst).Limited?
    ensures Inv(p, Apply(p, s, Attempt(c)))
  {
    var t := Apply(p, s, Attempt(c));
    assert CpuValid(p, s, c);
    SwapMeansUntouched(p, s, c);
    forall d | 0 <= d < |t.cpus| ensures CpuValid(p, t, d) {
      assert CpuValid(p, s, d);
    }
  }

  lemma ExhaustedAccounting(retries: nat, exhausted: nat, retry: nat, spent: nat, at: nat)
    requires retries * exhausted + retry + spent <= at && retry >= retries
    ensures retries * (exhausted + 1) + spent <= at
  {
  }

  lemma SampleInv(p: Params, s: State, c: nat)
    requires Inv(p, s) && Enabled(p, s, Sample(c))
    ensures Inv(p, Apply(p, s, Sample(c)))
  {
    var t := Apply(p, s, Sample(c));
    assert CpuValid(p, s, c);
    if s.cpus[c].retry >= p.retries {
      ExhaustedAccounting(p.retries, s.exhausted[c], s.cpus[c].retry, s.spent[c], s.cpus[c].at);
    }
    forall d | 0 <= d < |t.cpus| ensures CpuValid(p, t, d) {
      assert CpuValid(p, s, d);
    }
  }

  lemma StepInv(p: Params, s: State, e: Event)
    requires Inv(p, s) && Enabled(p, s, e)
    ensures Inv(p, Apply(p, s, e))
  {
    match e
    case Attempt(c) => AttemptInv(p, s, c);
    case Sample(c) => SampleInv(p, s, c);
    case _ =>
      forall d | 0 <= d < |s.cpus| ensures CpuValid(p, Apply(p, s, e), d) {
        assert CpuValid(p, s, d);
      }
  }

  // ---- whole runs --------------------------------------------------------------------

  /** `run` lists the states of an interleaving, each reached from the one before by an event. */
  ghost predicate Execution(p: Params, run: seq<State>) {
    && run != [] && Initial(p, run[0])
    && forall i :: 0 <= i < |run| - 1 ==> StepOf(p, run, i)
  }

  ghost predicate StepOf(p: Params, run: seq<State>, i: nat)
    requires i + 1 < |run|
  {
    && |run[i].spent| == |run[i].exhausted| == |run[i].arrivals| == |run[i].cpus| && run[i].log != []
    && exists e :: Enabled(p, run[i], e) && run[i + 1] == Apply(p, run[i], e)
  }

  lemma NextInv(p: Params, s: State, t: State, e: Event)
    requires Inv(p, s) && Enabled(p, s, e) && t == Apply(p, s, e)
    ensures Inv(p, t) && t.log[0] == s.log[0] && |t.cpus| == |s.cpus|
  {
    StepInv(p, s, e);
  }

  lemma {:induction false} ExecutionInv(p: Params, run: seq<State>, i: nat)
    requires Execution(p, run) && i < |run|
    ensures Inv(p, run[i])
    ensures run[i].log[0] == run[0].word && |run[i].cpus| == |run[0].cpus|
  {
    if i == 0 {
      InitialInv(p, run[0]);
    } else {
      ExecutionInv(p, run, i - 1);
      assert StepOf(p, run, i - 1);
      var e :| Enabled(p, run[i - 1], e) && run[i] == Apply(p, run[i - 1], e);
      NextInv(p, run[i - 1], run[i], e);
    }
  }

  // ---- every packet gets a true answer ------------------------------------------------

  /** The attempt had a token, and lost the swap because the bucket had moved on. */
  ghost predicate LossTrue(p: Params, log: seq<nat>, l: Loss) {
    && l.at < l.found < |log| && Stamp(log[l.at]) <= l.now
    && Available(log[l.at], l.now, p.rate, p.burst) >= ONE_TOKEN
  }

  /** Attempts in a row, each on the word the one before it found, the last one finding `at`. */
  ghost predicate Losses(p: Params, log: seq<nat>, losses: seq<Loss>, since: nat, at: nat) {
    && (forall k :: 0 <= k < |losses| ==> LossTrue(p, log, losses[k]))
    && (forall k :: 0 <= k < |losses| ==> Follows(losses, since, k))
    && since <= at == (if losses == [] then since else losses[|losses| - 1].found)
  }

  ghost predicate Follows(losses: seq<Loss>, since: nat, k: nat)
    requires k < |losses|
  {
    losses[k].at == if k == 0 then since else losses[k - 1].found
  }

  /** The refusal saw a word no older than the packet's arrival, and at a time after that word was
      read there was not a whole token in it. */
  ghost predicate RefusalTrue(p: Params, log: seq<nat>, r: Refusal) {
    && r.since <= r.at < |log| && r.read <= r.now && Stamp(log[r.at]) <= r.now
    && Available(log[r.at], r.now, p.rate, p.burst) < ONE_TOKEN
  }

  /** The fail-open lost every attempt it was allowed, and each had a token. */
  ghost predicate FailOpenTrue(p: Params, log: seq<nat>, f: FailOpen) {
    |f.losses| == p.retries && f.since < |log| && exists at: nat :: at < |log| && Losses(p, log, f.losses, f.since, at)
  }

  ghost predicate CpuHonest(p: Params, s: State, c: nat)
    requires c < |s.cpus|
  {
    match s.cpus[c]
    case Idle => true
    case Loaded(_, retry, at, read, since, losses) =>
      at < |s.log| && read <= s.clock && |losses| == retry && Losses(p, s.log, losses, since, at)
    case Armed(_, now, retry, at, read, since, losses) =>
      at < |s.log| && read <= now && |losses| == retry && Losses(p, s.log, losses, since, at)
  }

  function RefusalsOf(refusals: seq<Refusal>, c: nat): nat {
    if refusals == [] then 0
    else RefusalsOf(refusals[..|refusals| - 1], c) + if refusals[|refusals| - 1].cpu == c then 1 else 0
  }

  function FailOpensOf(failOpens: seq<FailOpen>, c: nat): nat {
    if failOpens == [] then 0
    else FailOpensOf(failOpens[..|failOpens| - 1], c) + if failOpens[|failOpens| - 1].cpu == c then 1 else 0
  }

  function InFlight(cpu: Cpu): nat { if cpu.Idle? then 0 else 1 }

  /** Packets that arrived at a CPU are accounted for one by one. */
  ghost predicate Answered(s: State, c: nat)
    requires c < |s.cpus| == |s.spent| == |s.exhausted| == |s.arrivals|
  {
    && s.arrivals[c] == s.spent[c] + RefusalsOf(s.refusals, c) + s.exhausted[c] + InFlight(s.cpus[c])
    && s.exhausted[c] == FailOpensOf(s.failOpens, c)
  }

  ghost predicate Honest(p: Params, s: State) {
    && |s.cpus| == |s.spent| == |s.exhausted| == |s.arrivals|
    && (forall c :: 0 <= c < |s.cpus| ==> CpuHonest(p, s, c))
    && (forall c :: 0 <= c < |s.cpus| ==> Answered(s, c))
    && (forall k :: 0 <= k < |s.refusals| ==> RefusalTrue(p, s.log, s.refusals[k]))
    && (forall k :: 0 <= k < |s.failOpens| ==> FailOpenTrue(p, s.log, s.failOpens[k]))
  }

  /** More words in the log take nothing back. */
  lemma LogGrows(p: Params, log: seq<nat>, word: nat)
    ensures forall l :: LossTrue(p, log, l) ==> LossTrue(p, log + [word], l)
    ensures forall losses, since, at :: Losses(p, log, losses, since, at) ==> Losses(p, log + [word], losses, since, at)
    ensures forall r :: RefusalTrue(p, log, r) ==> RefusalTrue(p, log + [word], r)
    ensures forall f :: FailOpenTrue(p, log, f) ==> FailOpenTrue(p, log + [word], f)
  {
    forall f | FailOpenTrue(p, log, f) ensures FailOpenTrue(p, log + [word], f) {
      var at: nat :| at < |log| && Losses(p, log, f.losses, f.since, at);
      assert Losses(p, log + [word], f.losses, f.since, at);
    }
  }

  /** One more lost attempt. */
  lemma OneMoreLoss(p: Params, log: seq<nat>, losses: seq<Loss>, since: nat, at: nat, l: Loss)
    requires Losses(p, log, losses, since, at) && l.at == at && LossTrue(p, log, l)
    ensures Losses(p, log, losses + [l], since, l.found)
  {
    var longer := losses + [l];
    forall k | 0 <= k < |longer| ensures LossTrue(p, log, longer[k]) && Follows(longer, since, k) {
      assert k < |losses| ==> Follows(losses, since, k);
    }
  }

  lemma SpendHonest(p: Params, s: State, c: nat)
    requires Inv(p, s) && Honest(p, s) && Enabled(p, s, Attempt(c)) && s.word == s.cpus[c].seen
    requires RlSpend(s.cpus[c].seen, s.cpus[c].now, p.rate, p.burst).Next?
    ensures Honest(p, Apply(p, s, Attempt(c)))
  {
    var t := Apply(p, s, Attempt(c));
    LogGrows(p, s.log, t.word);
    forall d | 0 <= d < |t.cpus| ensures CpuHonest(p, t, d) && Answered(t, d) {
      assert CpuHonest(p, s, d) && Answered(s, d);
    }
  }

  lemma RefuseHonest(p: Params, s: State, c: nat)
    requires Inv(p, s) && Honest(p, s) && Enabled(p, s, Attempt(c))
    requires RlSpend(s.cpus[c].seen, s.cpus[c].now, p.rate, p.burst).Limited?
    ensures Honest(p, Apply(p, s, Attempt(c)))
  {
    var t, cpu := Apply(p, s, Attempt(c)), s.cpus[c];
    assert CpuValid(p, s, c) && CpuHonest(p, s, c);
    SpendExact(cpu.seen, cpu.now, p.rate, p.burst);
    assert t.refusals[..|s.refusals|] == s.refusals;
    forall d | 0 <= d < |t.cpus| ensures CpuHonest(p, t, d) && Answered(t, d) {
      assert CpuHonest(p, s, d) && Answered(s, d);
    }
  }

  lemma LoseHonest(p: Params, s: State, c: nat)
    requires Inv(p, s) && Honest(p, s) && Enabled(p, s, Attempt(c)) && s.word != s.cpus[c].seen
    requires RlSpend(s.cpus[c].seen, s.cpus[c].now, p.rate, p.burst).Next?
    ensures Honest(p, Apply(p, s, Attempt(c)))
  {
    var t, cpu := Apply(p, s, Attempt(c)), s.cpus[c];
    assert CpuValid(p, s, c) && CpuHonest(p, s, c);
    SwapMeansUntouched(p, s, c);
    SpendExact(cpu.seen, cpu.now, p.rate, p.burst);
    OneMoreLoss(p, s.log, cpu.losses, cpu.since, cpu.at, Loss(cpu.at, cpu.now, |s.log| - 1));
    forall d | 0 <= d < |t.cpus| ensures CpuHonest(p, t, d) && Answered(t, d) {
      assert CpuHonest(p, s, d) && Answered(s, d);
    }
  }

  lemma SampleHonest(p: Params, s: State, c: nat)
    requires Inv(p, s) && Honest(p, s) && Enabled(p, s, Sample(c))
    ensures Honest(p, Apply(p, s, Sample(c)))
  {
    var t, cpu := Apply(p, s, Sample(c)), s.cpus[c];
    assert CpuValid(p, s, c) && CpuHonest(p, s, c);
    if cpu.retry >= p.retries {
      assert FailOpenTrue(p, s.log, FailOpen(c, cpu.since, cpu.losses));
      assert t.failOpens[..|s.failOpens|] == s.failOpens;
    }
    forall d | 0 <= d < |t.cpus| ensures CpuHonest(p, t, d) && Answered(t, d) {
      assert CpuHonest(p, s, d) && Answered(s, d);
    }
  }

  /** Every step of every CPU keeps the answers true. */
  lemma StepHonest(p: Params, s: State, e: Event)
    requires Inv(p, s) && Honest(p, s) && Enabled(p, s, e)
    ensures Honest(p, Apply(p, s, e))
  {
    match e
    case Attempt(c) =>
      match RlSpend(s.cpus[c].seen, s.cpus[c].now, p.rate, p.burst) {
        case Limited => RefuseHonest(p, s, c);
        case Next(_) =>
          if s.word == s.cpus[c].seen {
            SpendHonest(p, s, c);
          } else {
            LoseHonest(p, s, c);
          }
      }
    case Sample(c) => SampleHonest(p, s, c);
    case _ =>
      var t := Apply(p, s, e);
      forall d | 0 <= d < |t.cpus| ensures CpuHonest(p, t, d) && Answered(t, d) {
        assert CpuHonest(p, s, d) && Answered(s, d);
      }
  }

  lemma {:induction false} ExecutionHonest(p: Params, run: seq<State>, i: nat)
    requires Execution(p, run) && i < |run|
    ensures Honest(p, run[i])
  {
    if i == 0 {
      assert forall c :: 0 <= c < |run[0].cpus| ==> CpuHonest(p, run[0], c) && Answered(run[0], c);
    } else {
      ExecutionHonest(p, run, i - 1);
      ExecutionInv(p, run, i - 1);
      assert StepOf(p, run, i - 1);
      var e :| Enabled(p, run[i - 1], e) && run[i] == Apply(p, run[i - 1], e);
      StepHonest(p, run[i - 1], e);
    }
  }

  /** A packet came to the CPU in step `a` and has been there up to state `i`. */
  ghost predicate Present(run: seq<State>, a: nat, i: nat, c: nat) {
    && a < i < |run| && c < |run[a].cpus| && run[a].cpus[c].Idle?
    && forall k :: a < k <= i ==> c < |run[k].cpus| && !run[k].cpus[c].Idle?
  }

  lemma {:induction false} ClockForward(p: Params, run: seq<State>, a: nat, i: nat)
    requires Execution(p, run) && a <= i < |run|
    ensures run[a].clock <= run[i].clock
  {
    if a < i {
      ClockForward(p, run, a, i - 1);
      assert StepOf(p, run, i - 1);
    }
  }

  /** A busy CPU knows when its packet came. */
  lemma {:induction false} BusySince(p: Params, run: seq<State>, i: nat, c: nat) returns (a: nat)
    requires Execution(p, run) && i < |run| && c < |run[i].cpus| && !run[i].cpus[c].Idle?
    ensures Present(run, a, i, c) && run[a].log != []
    ensures run[i].cpus[c].since == |run[a].log| - 1 && run[a].clock <= run[i].cpus[c].read
    decreases i
  {
    assert i > 0;
    ExecutionInv(p, run, i - 1);
    assert StepOf(p, run, i - 1);
    if run[i - 1].cpus[c].Idle? {
      a := i - 1;
    } else {
      a := BusySince(p, run, i - 1, c);
      ClockForward(p, run, a, i - 1);
    }
  }

  /** No packet is refused for nothing. If a step refuses one, it came in an earlier step `a`, some
      word that the bucket has held since then was read, and at some time since then there was not
      a whole token in it. */
  lemma RefusedOnlyWhenEmpty(p: Params, run: seq<State>, i: nat) returns (a: nat, at: nat, now: nat)
    requires Execution(p, run) && i + 1 < |run| && |run[i + 1].refusals| != |run[i].refusals|
    ensures |run[i + 1].refusals| == |run[i].refusals| + 1
    ensures Present(run, a, i, run[i + 1].refusals[|run[i].refusals|].cpu)
    ensures |run[a].log| <= at + 1 <= |run[i].log| && run[a].clock <= now <= run[i].clock
    ensures Stamp(run[i].log[at]) <= now && Available(run[i].log[at], now, p.rate, p.burst) < ONE_TOKEN
  {
    ExecutionInv(p, run, i);
    ExecutionHonest(p, run, i);
    ExecutionHonest(p, run, i + 1);
    assert StepOf(p, run, i);
    var e :| Enabled(p, run[i], e) && run[i + 1] == Apply(p, run[i], e);
    var r := run[i + 1].refusals[|run[i].refusals|];
    assert RefusalTrue(p, run[i + 1].log, r);
    assert CpuValid(p, run[i], r.cpu);
    a := BusySince(p, run, i, r.cpu);
    at, now := r.at, r.now;
  }

  /** A packet admitted without a token lost exactly the allowed number of swaps in a row. It read
      the word when it came, in step `a`; each attempt had a token to spend and lost to another
      spend in between, and each but the first was on the word the one before it had found. */
  lemma FailOpenLostEverySwap(p: Params, run: seq<State>, i: nat) returns (a: nat, at: nat)
    requires Execution(p, run) && i + 1 < |run| && |run[i + 1].failOpens| != |run[i].failOpens|
    ensures |run[i + 1].failOpens| == |run[i].failOpens| + 1
    ensures var f := run[i + 1].failOpens[|run[i].failOpens|];
            && Present(run, a, i, f.cpu) && |f.losses| == p.retries && f.since + 1 == |run[a].log|
            && at < |run[i].log| && Losses(p, run[i].log, f.losses, f.since, at)
  {
    ExecutionInv(p, run, i);
    ExecutionHonest(p, run, i);
    assert StepOf(p, run, i);
    var e :| Enabled(p, run[i], e) && run[i + 1] == Apply(p, run[i], e);
    at := FailOpenStep(p, run[i], e);
    a := BusySince(p, run, i, run[i + 1].failOpens[|run[i].failOpens|].cpu);
  }

  lemma FailOpenStep(p: Params, s: State, e: Event) returns (at: nat)
    requires Inv(p, s) && Honest(p, s) && Enabled(p, s, e) && |Apply(p, s, e).failOpens| != |s.failOpens|
    ensures |Apply(p, s, e).failOpens| == |s.failOpens| + 1
    ensures var f := Apply(p, s, e).failOpens[|s.failOpens|];
            && f.cpu < |s.cpus| && !s.cpus[f.cpu].Idle? && f.since == s.cpus[f.cpu].since
            && |f.losses| == p.retries && at < |s.log| && Losses(p, s.log, f.losses, f.since, at)
  {
    assert CpuValid(p, s, e.cpu) && CpuHonest(p, s, e.cpu);
    at := s.cpus[e.cpu].at;
  }

  /** Every packet is answered once: it spends, is refused, is admitted after lost swaps, or is
      still on its way. */
  lemma EveryPacketAnswered(p: Params, run: seq<State>, i: nat, c: nat)
    requires Execution(p, run) && i < |run| && c < |run[i].cpus|
    ensures |run[i].cpus| == |run[i].spent| == |run[i].exhausted| == |run[i].arrivals|
    ensures run[i].arrivals[c] == run[i].spent[c] + RefusalsOf(run[i].refusals, c) + FailOpensOf(run[i].failOpens, c) +
                                  if run[i].cpus[c].Idle? then 0 else 1
    ensures run[i].exhausted[c] == FailOpensOf(run[i].failOpens, c)
  {
    ExecutionHonest(p, run, i);
    assert Answered(run[i], c);
  }

  // ---- bounds ---------------------------------------------------------------------------

  /** The rate bound, for any number of CPUs and any interleaving. */
  lemma SpendsBounded(p: Params, run: seq<State>, i: nat)
    requires Execution(p, run) && i < |run|
    ensures run[i].log != []
    ensures var s, s0 := run[i], run[0];
            && Stamp(s0.word) <= Stamp(s.word)
            && ONE_TOKEN * Spends(s) + Tokens(s.word) <= Tokens(s0.word) + p.rate * (Stamp(s.word) - Stamp(s0.word))
  {
    ExecutionInv(p, run, i);
  }

  /** No attempt of any interleaving takes the resync branch. */
  lemma ResyncUnreachable(p: Params, run: seq<State>, i: nat, c: nat)
    requires Execution(p, run) && i < |run|
    requires c < |run[i].cpus| && run[i].cpus[c].Armed?
    ensures Stamp(run[i].cpus[c].seen) <= run[i].cpus[c].now
  {
    ExecutionInv(p, run, i);
    assert CpuValid(p, run[i], c);
  }

  /** The bucket never holds the same word twice, and its stamp never goes back. */
  lemma WordsNeverRecur(p: Params, run: seq<State>, i: nat, j: nat, k: nat)
    requires Execution(p, run) && i < |run|
    requires j < k < |run[i].log|
    ensures run[i].log[j] != run[i].log[k] && Stamp(run[i].log[j]) <= Stamp(run[i].log[k])
  {
    ExecutionInv(p, run, i);
    assert Before(run[i].log[j], run[i].log[k]);
  }

  /** What one CPU's exhausted admissions cost: that many retries each, all lost to spends of
      the other CPUs. */
  lemma ExhaustedPerCpu(p: Params, run: seq<State>, i: nat, c: nat)
    requires Execution(p, run) && i < |run| && c < |run[0].cpus|
    ensures run[i].log != [] && c < |run[i].exhausted| == |run[i].spent|
    ensures p.retries * run[i].exhausted[c] <= Spends(run[i]) - run[i].spent[c]
  {
    ExecutionInv(p, run, i);
    assert CpuValid(p, run[i], c);
  }

  lemma {:induction false} SumOfShares(retries: nat, exhausted: seq<nat>, spent: seq<nat>, total: nat)
    requires |exhausted| == |spent|
    requires forall c :: 0 <= c < |spent| ==> retries * exhausted[c] + spent[c] <= total
    ensures retries * Sum(exhausted) + Sum(spent) <= |spent| * total
  {
    if spent != [] {
      var n := |spent| - 1;
      SumOfShares(retries, exhausted[..n], spent[..n], total);
      Distribute(retries, Sum(exhausted[..n]), exhausted[n]);
      assert n * total + total == (n + 1) * total;
    }
  }

  /** Fail-open is amortised: every admission after exhausted retries is paid for by that many
      spends of other CPUs, in windows that do not overlap. */
  lemma ExhaustedAmortised(p: Params, run: seq<State>, i: nat)
    requires Execution(p, run) && i < |run| && run[0].cpus != []
    ensures run[i].log != []
    ensures p.retries * Sum(run[i].exhausted) <= (|run[0].cpus| - 1) * Spends(run[i])
  {
    ExecutionInv(p, run, i);
    var s := run[i];
    forall c | 0 <= c < |s.spent| ensures p.retries * s.exhausted[c] + s.spent[c] <= Spends(s) {
      ExhaustedPerCpu(p, run, i, c);
    }
    SumOfShares(p.retries, s.exhausted, s.spent, Spends(s));
    assert |s.spent| * Spends(s) - Spends(s) == (|s.spent| - 1) * Spends(s);
  }

  /** Everything admitted, spends and fail-open together, stays within a constant factor of
      the configured rate; the factor depends only on the CPU count and the retry limit. */
  lemma AdmissionsBounded(p: Params, run: seq<State>, i: nat)
    requires Execution(p, run) && i < |run| && run[0].cpus != []
    ensures run[i].log != []
    ensures var s, s0, n := run[i], run[0], |run[0].cpus|;
            && Stamp(s0.word) <= Stamp(s.word)
            && p.retries * (ONE_TOKEN * (Spends(s) + Sum(s.exhausted))) <=
               (p.retries + n - 1) * (Tokens(s0.word) + p.rate * (Stamp(s.word) - Stamp(s0.word)))
  {
    SpendsBounded(p, run, i);
    ExhaustedAmortised(p, run, i);
    var s, s0, n := run[i], run[0], |run[0].cpus|;
    var earned := Tokens(s0.word) + p.rate * (Stamp(s.word) - Stamp(s0.word));
    Shares(p.retries, n, Spends(s), Sum(s.exhausted), earned);
  }

  lemma Shares(retries: nat, n: nat, spends: nat, exhausted: nat, earned: nat)
    requires n >= 1 && retries * exhausted <= (n - 1) * spends && ONE_TOKEN * spends <= earned
    ensures retries * (ONE_TOKEN * (spends + exhausted)) <= (retries + n - 1) * earned
  {
    var k := retries + n - 1;
    assert retries * (spends + exhausted) == retries * spends + retries * exhausted;
    assert k * spends == retries * spends + (n - 1) * spends;
    assert retries * (ONE_TOKEN * (spends + exhausted)) == ONE_TOKEN * (retries * (spends + exhausted));
    assert k * (ONE_TOKEN * spends) == ONE_TOKEN * (k * spends);
    Scale(k, ONE_TOKEN * spends, earned);
  }

  lemma Scale(k: nat, a: int, b: int)
    requires a <= b
    ensures k * a <= k * b
  {
  }

  // ---- operator units (rl_scale.h) ------------------------------------------------------

  const TICKS_PER_SEC: nat := 953

  function ScaleRefill(tokensPerSec: nat): nat { (tokensPerSec * 256 / TICKS_PER_SEC) % TWO32 }

  function ScaleBurst(burstPackets: nat): nat { (burstPackets * 256) % TWO32 }

  /** The scaled values are the configured ones: the refill to within one unit per tick, the burst
      exactly. */
  lemma ScaledExactly(tokensPerSec: nat, burstPackets: nat)
    requires tokensPerSec < TWO32 && 1 <= burstPackets <= 0xff_ffff
    ensures TICKS_PER_SEC * ScaleRefill(tokensPerSec) <= tokensPerSec * 256 < TICKS_PER_SEC * (ScaleRefill(tokensPerSec) + 1)
    ensures ScaleBurst(burstPackets) == 256 * burstPackets
  {
  }

  /** In the operator's units: over any run on a bucket that started within its burst, the
      packets beyond the configured burst are at most the configured rate times the time. */
  lemma ConfiguredRate(tokensPerSec: nat, burstPackets: nat, p: Params, run: seq<State>, i: nat)
    requires tokensPerSec < TWO32 && 1 <= burstPackets <= 0xff_ffff
    requires p.rate == ScaleRefill(tokensPerSec) && p.burst == ScaleBurst(burstPackets)
    requires Execution(p, run) && i < |run| && Tokens(run[0].word) <= p.burst
    ensures run[i].log != []
    ensures var elapsed := Stamp(run[i].word) - Stamp(run[0].word);
            TICKS_PER_SEC * (Spends(run[i]) - burstPackets) <= tokensPerSec * elapsed
  {
    SpendsBounded(p, run, i);
    var elapsed, S := Stamp(run[i].word) - Stamp(run[0].word), Spends(run[i]);
    var scaled := tokensPerSec * 256;
    assert p.rate == scaled / TICKS_PER_SEC && TICKS_PER_SEC * p.rate <= scaled;
    assert p.burst == burstPackets * 256;
    assert 256 * (S - burstPackets) <= p.rate * elapsed;
    Scale(elapsed, TICKS_PER_SEC * p.rate, scaled);
    assert TICKS_PER_SEC * (p.rate * elapsed) == elapsed * (TICKS_PER_SEC * p.rate);
    assert elapsed * scaled == 256 * (tokensPerSec * elapsed);
  }
}
