/** The token bucket as a protocol: any number of consumers and one refiller run load and
    compare-and-swap steps against one shared counter, interleaved arbitrarily. Refill amounts are
    exact integers; times are in microseconds. */
module TokenBucket {
  import opened Options

  const U64_MAX := 0xFFFF_FFFF_FFFF_FFFF
  const MICROS := 1_000_000

  datatype Config = Config(capacity: nat, fillRate: nat) {
    predicate Valid() {
      capacity <= U64_MAX && fillRate <= U64_MAX
    }
  }

  /** Where a consumer is inside `try_consume`. */
  datatype Consumer =
    | Starting(tokens: nat)
    | Loaded(tokens: nat, current: nat)
    | Done(tokens: nat, ok: bool)

  /** Where the refiller is inside `refill`. */
  datatype Refiller =
    | Idle
    | ReadClock(now: nat)
    | Swapped(now: nat, prev: nat)
    | Adding(amount: nat)
    | AddLoaded(amount: nat, current: nat)

  /** The shared counters, the clock, everyone's position, and an account of all tokens: consumed,
      added to the counter, credited by refills, and thrown away at the capacity. */
  datatype State = State(available: nat, lastRefill: nat, clock: nat, consumers: map<nat, Consumer>,
                         refiller: Refiller, consumed: nat, added: nat, discarded: nat, credited: nat,
                         refills: nat)

  function Init(cfg: Config): State {
    State(cfg.capacity, 0, 0, map[], Idle, 0, 0, 0, 0, 0)
  }

  /** A weak exchange may fail although the value matches. */
  datatype Action =
    | Tick(clock: nat)
    | Call(id: nat, tokens: nat)
    | Load(id: nat)
    | Exchange(id: nat, spurious: bool)
    | RefillStart
    | RefillSwap
    | RefillCompute
    | RefillLoad
    | RefillExchange(spurious: bool)

  function SaturatingAdd(a: nat, b: nat): nat {
    if a + b > U64_MAX then U64_MAX else a + b
  }

  function Min(a: nat, b: nat): nat {
    if a < b then a else b
  }

  /** Tokens for the elapsed time, rounded down and saturated to 64 bits. */
  function ToAdd(cfg: Config, now: nat, prev: nat): nat {
    var elapsed := if now >= prev then now - prev else 0;
    Min(cfg.fillRate * elapsed / MICROS, U64_MAX)
  }

  predicate Enabled(s: State, a: Action) {
    match a
    case Tick(clock) => s.clock <= clock
    case Call(id, _) => id in s.consumers ==> s.consumers[id].Done?
    case Load(id) => id in s.consumers && s.consumers[id].Starting?
    case Exchange(id, _) => id in s.consumers && s.consumers[id].Loaded?
    case RefillStart => s.refiller.Idle?
    case RefillSwap => s.refiller.ReadClock?
    case RefillCompute => s.refiller.Swapped?
    case RefillLoad => s.refiller.Adding?
    case RefillExchange(_) => s.refiller.AddLoaded?
  }

  function Apply(cfg: Config, s: State, a: Action): State
    requires Enabled(s, a)
  {
    match a
    case Tick(clock) => s.(clock := clock)
    case Call(id, tokens) =>
      s.(consumers := s.consumers[id := if tokens > cfg.capacity then Done(tokens, false)
                                        else Starting(tokens)])
    case Load(id) => s.(consumers := s.consumers[id := Loaded(s.consumers[id].tokens, s.available)])
    case Exchange(id, spurious) =>
      var c := s.consumers[id];
      if c.current < c.tokens then s.(consumers := s.consumers[id := Done(c.tokens, false)])
      else if s.available == c.current && !spurious then
        s.(available := c.current - c.tokens, consumed := s.consumed + c.tokens,
           consumers := s.consumers[id := Done(c.tokens, true)])
      else s.(consumers := s.consumers[id := Loaded(c.tokens, s.available)])
    case RefillStart => s.(refiller := ReadClock(s.clock))
    case RefillSwap => s.(refiller := Swapped(s.refiller.now, s.lastRefill), lastRefill := s.refiller.now)
    case RefillCompute =>
      var amount := ToAdd(cfg, s.refiller.now, s.refiller.prev);
      s.(refiller := if amount == 0 then Idle else Adding(amount), credited := s.credited + amount,
         refills := s.refills + 1)
    case RefillLoad => s.(refiller := AddLoaded(s.refiller.amount, s.available))
    case RefillExchange(spurious) =>
      var r := s.refiller;
      var next := Min(SaturatingAdd(r.current, r.amount), cfg.capacity);
      if s.available == r.current && !spurious then
        s.(available := next, added := s.added + r.amount,
           discarded := s.discarded + (r.current + r.amount - next), refiller := Idle)
      else s.(refiller := AddLoaded(r.amount, s.available))
  }

  /** Tokens a refill has computed but not yet put into the counter. */
  function Pending(r: Refiller): nat {
    if r.Adding? || r.AddLoaded? then r.amount else 0
  }

  /** The time up to which refills have been credited. */
  function CreditedUntil(s: State): nat {
    if s.refiller.Swapped? then s.refiller.prev else s.lastRefill
  }

  ghost predicate Accounts(cfg: Config, s: State) {
    && s.consumed + s.available + s.discarded == cfg.capacity + s.added
    && s.available <= cfg.capacity
    && s.credited == s.added + Pending(s.refiller)
  }

  ghost predicate Clocks(s: State) {
    && s.lastRefill <= s.clock
    && (s.refiller.ReadClock? ==> s.lastRefill <= s.refiller.now <= s.clock)
    && (s.refiller.Swapped? ==> s.refiller.prev <= s.refiller.now == s.lastRefill)
  }

  /** Credited tokens never exceed rate times time. */
  ghost predicate Credit(cfg: Config, s: State) {
    s.credited * MICROS <= cfg.fillRate * CreditedUntil(s)
  }

  ghost predicate Calls(cfg: Config, s: State) {
    forall id <- s.consumers :: !s.consumers[id].Done? ==> s.consumers[id].tokens <= cfg.capacity
  }

  ghost predicate Inv(cfg: Config, s: State) {
    Accounts(cfg, s) && Clocks(s) && Credit(cfg, s) && Calls(cfg, s)
  }

  lemma RateTimesTime(rate: nat, prev: nat, now: nat)
    requires prev <= now
    ensures rate * now == rate * prev + rate * (now - prev)
    ensures rate * prev <= rate * now
  {
    assert rate * (now - prev) >= 0;
  }

  /** The product of rate and elapsed time of the refill in progress. */
  function Gain(cfg: Config, s: State): int
    requires s.refiller.Swapped?
  {
    cfg.fillRate * (s.refiller.now - s.refiller.prev)
  }

  /** A refill never credits more than rate times the time elapsed, and less than one token less, if and
      only if that amount fits 64 bits. */
  lemma ComputeExact(cfg: Config, s: State)
    requires s.refiller.Swapped? && Clocks(s)
    ensures var amount := Apply(cfg, s, RefillCompute).credited - s.credited;
            && amount * MICROS <= Gain(cfg, s)
            && (Gain(cfg, s) < (amount + 1) * MICROS <==> Gain(cfg, s) < (U64_MAX + 1) * MICROS)
  {
    var gain := Gain(cfg, s);
    RateTimesTime(cfg.fillRate, s.refiller.prev, s.refiller.now);
    assert gain / MICROS * MICROS <= gain < gain / MICROS * MICROS + MICROS;
  }

  lemma ComputeKeepsCredit(cfg: Config, s: State)
    requires s.refiller.Swapped? && Clocks(s) && Credit(cfg, s)
    ensures Credit(cfg, Apply(cfg, s, RefillCompute))
  {
    RateTimesTime(cfg.fillRate, s.refiller.prev, s.refiller.now);
    ComputeExact(cfg, s);
  }

  lemma StepKeepsInv(cfg: Config, s: State, a: Action)
    requires cfg.Valid() && Inv(cfg, s) && Enabled(s, a)
    ensures Inv(cfg, Apply(cfg, s, a))
  {
    if a.RefillCompute? {
      ComputeKeepsCredit(cfg, s);
    } else {
      var s' := Apply(cfg, s, a);
      assert CreditedUntil(s') == CreditedUntil(s) && s'.credited == s.credited;
    }
  }

  predicate IsRun(cfg: Config, states: seq<State>, actions: seq<Action>) {
    && |states| == |actions| + 1
    && states[0] == Init(cfg)
    && forall i :: 0 <= i < |actions| ==>
         Enabled(states[i], actions[i]) && states[i + 1] == Apply(cfg, states[i], actions[i])
  }

  lemma {:induction false} RunKeepsInv(cfg: Config, states: seq<State>, actions: seq<Action>, n: nat)
    requires cfg.Valid() && IsRun(cfg, states, actions) && n < |states|
    ensures Inv(cfg, states[n])
  {
    if n > 0 {
      RunKeepsInv(cfg, states, actions, n - 1);
      StepKeepsInv(cfg, states[n - 1], actions[n - 1]);
    }
  }

  // --- What calls are granted ---

  /** The call of this consumer has returned true in this step. */
  predicate Turned(s: State, s': State, id: nat) {
    && id in s'.consumers && s'.consumers[id].Done? && s'.consumers[id].ok
    && (id in s.consumers ==> s.consumers[id] != s'.consumers[id])
  }

  /** Tokens of the call that returned true in this step, if one did. */
  function GrantedIn(s: State, a: Action, s': State): nat {
    if (a.Call? || a.Load? || a.Exchange?) && Turned(s, s', a.id) then s'.consumers[a.id].tokens else 0
  }

  /** Tokens of all calls that returned true in the first n steps. */
  function Granted(states: seq<State>, actions: seq<Action>, n: nat): nat
    requires n <= |actions| && |states| == |actions| + 1
  {
    if n == 0 then 0
    else Granted(states, actions, n - 1) + GrantedIn(states[n - 1], actions[n - 1], states[n])
  }

  /** A call returns true only by an exchange of its own that finds the tokens and takes them away. */
  lemma GrantTakes(cfg: Config, states: seq<State>, actions: seq<Action>, id: nat, n: nat)
    requires cfg.Valid() && IsRun(cfg, states, actions) && n < |actions|
    requires Turned(states[n], states[n + 1], id)
    ensures actions[n] == Exchange(id, false)
    ensures var tokens := states[n + 1].consumers[id].tokens;
            tokens <= states[n].available && states[n + 1].available == states[n].available - tokens
  {
  }

  lemma {:induction false} GrantedIsConsumed(cfg: Config, states: seq<State>, actions: seq<Action>, n: nat)
    requires cfg.Valid() && IsRun(cfg, states, actions) && n < |states|
    ensures Granted(states, actions, n) == states[n].consumed
  {
    if n > 0 {
      GrantedIsConsumed(cfg, states, actions, n - 1);
      var s, a, s' := states[n - 1], actions[n - 1], states[n];
      assert s'.consumed == s.consumed + GrantedIn(s, a, s');
    }
  }

  /** At every moment of every interleaving no token is lost or invented: what the calls that returned true
      asked for, what is there and what was thrown away is the capacity and what refills have added. The
      counter respects the capacity, and grants are bounded by the capacity plus rate times time. */
  lemma TokenConservation(cfg: Config, states: seq<State>, actions: seq<Action>, n: nat)
    requires cfg.Valid() && IsRun(cfg, states, actions) && n < |states|
    ensures var s, granted := states[n], Granted(states, actions, n);
            && granted + s.available + s.discarded == cfg.capacity + s.added
            && s.available <= cfg.capacity
            && s.added + Pending(s.refiller) == s.credited
            && granted * 1_000_000 <= cfg.capacity * 1_000_000 + cfg.fillRate * s.clock
  {
    RunKeepsInv(cfg, states, actions, n);
    GrantedIsConsumed(cfg, states, actions, n);
    var s := states[n];
    RateTimesTime(cfg.fillRate, CreditedUntil(s), s.clock);
  }

  /** Tokens are thrown away only by a step that leaves the counter at the capacity, and then exactly those
      beyond it; no other step but a grant takes tokens from the counter. */
  lemma DiscardedAtCapacity(cfg: Config, states: seq<State>, actions: seq<Action>, n: nat)
    requires cfg.Valid() && IsRun(cfg, states, actions) && n < |actions|
    ensures var s, s' := states[n], states[n + 1];
            && s.discarded <= s'.discarded
            && (s.discarded < s'.discarded ==> s'.available == cfg.capacity)
            && s'.available + (s'.discarded - s.discarded) + GrantedIn(s, actions[n], s')
               == s.available + (s'.added - s.added)
  {
    RunKeepsInv(cfg, states, actions, n);
  }

  // --- Calls and refills by what was asked for and when ---

  /** What the latest call of a consumer asked for. */
  function LastAsked(actions: seq<Action>, n: nat, id: nat): Option<nat>
    requires n <= |actions|
  {
    if n == 0 then None
    else if actions[n - 1].Call? && actions[n - 1].id == id then Some(actions[n - 1].tokens)
    else LastAsked(actions, n - 1, id)
  }

  /** A call is about the tokens it asked for until it returns. */
  lemma {:induction false} CallKeepsTokens(cfg: Config, states: seq<State>, actions: seq<Action>, id: nat, n: nat)
    requires IsRun(cfg, states, actions) && n < |states|
    ensures id in states[n].consumers <==> LastAsked(actions, n, id).Some?
    ensures id in states[n].consumers ==> states[n].consumers[id].tokens == LastAsked(actions, n, id).value
  {
    if n > 0 {
      CallKeepsTokens(cfg, states, actions, id, n - 1);
    }
  }

  /** The time set by the latest tick. */
  function ClockAt(actions: seq<Action>, n: nat): nat
    requires n <= |actions|
  {
    if n == 0 then 0
    else if actions[n - 1].Tick? then actions[n - 1].clock else ClockAt(actions, n - 1)
  }

  /** The time at which the latest refill was started. */
  function LastStart(actions: seq<Action>, n: nat): nat
    requires n <= |actions|
  {
    if n == 0 then 0
    else if actions[n - 1].RefillStart? then ClockAt(actions, n - 1) else LastStart(actions, n - 1)
  }

  /** Refills cover the time up to the start of the latest one, as soon as that one has stored it. */
  lemma {:induction false} RefilledUntilStart(cfg: Config, states: seq<State>, actions: seq<Action>, n: nat)
    requires IsRun(cfg, states, actions) && n < |states|
    ensures var s := states[n];
            && s.clock == ClockAt(actions, n)
            && (if s.refiller.ReadClock? then s.refiller.now else s.lastRefill) == LastStart(actions, n)
            && (s.refiller.Swapped? ==> s.refiller.now == LastStart(actions, n))
  {
    if n > 0 {
      RefilledUntilStart(cfg, states, actions, n - 1);
    }
  }

  /** An exchange that does not fail of itself and finds the counter as it was read ends its loop; one that
      does not end its loop goes on with the counter as it is now. */
  lemma ExchangeDecides(cfg: Config, states: seq<State>, actions: seq<Action>, n: nat)
    requires cfg.Valid() && IsRun(cfg, states, actions) && n < |actions|
    ensures actions[n].Exchange? ==>
              var c, c' := states[n].consumers[actions[n].id], states[n + 1].consumers[actions[n].id];
              if c'.Done? then c'.ok <==> c.tokens <= c.current
              else c'.current == states[n].available && (actions[n].spurious || states[n].available != c.current)
    ensures actions[n].RefillLoad? ==> states[n + 1].refiller.current == states[n].available
    ensures actions[n].RefillExchange? ==>
              var r, r' := states[n].refiller, states[n + 1].refiller;
              if r'.Idle? then states[n + 1].available == Min(states[n].available + r.amount, cfg.capacity)
              else r'.AddLoaded? && r'.amount == r.amount && r'.current == states[n].available
                   && states[n + 1].available == states[n].available
                   && (actions[n].spurious || states[n].available != r.current)
  {
    RunKeepsInv(cfg, states, actions, n);
  }

  // --- How much a run credits ---

  /** A refill whose amount fits 64 bits. */
  ghost predicate Unsaturated(cfg: Config, s: State, a: Action) {
    a.RefillCompute? && s.refiller.Swapped? ==> Gain(cfg, s) < 0x1_0000_0000_0000_0000 * 1_000_000
  }

  /** What has been credited falls short of rate times time by no more than a token a refill. */
  ghost predicate Close(cfg: Config, s: State) {
    cfg.fillRate * CreditedUntil(s) <= (s.credited + s.refills) * MICROS
  }

  lemma StepKeepsClose(cfg: Config, s: State, a: Action)
    requires Enabled(s, a) && Clocks(s) && Close(cfg, s) && Unsaturated(cfg, s, a)
    ensures Close(cfg, Apply(cfg, s, a))
  {
    if a.RefillCompute? {
      RateTimesTime(cfg.fillRate, s.refiller.prev, s.refiller.now);
      ComputeExact(cfg, s);
    } else {
      var s' := Apply(cfg, s, a);
      assert CreditedUntil(s') == CreditedUntil(s) && s'.credited == s.credited && s'.refills == s.refills;
    }
  }

  lemma {:induction false} RunKeepsClose(cfg: Config, states: seq<State>, actions: seq<Action>, n: nat)
    requires cfg.Valid() && IsRun(cfg, states, actions) && n < |states|
    requires forall i :: 0 <= i < n ==> Unsaturated(cfg, states[i], actions[i])
    ensures Close(cfg, states[n])
  {
    if n > 0 {
      RunKeepsClose(cfg, states, actions, n - 1);
      RunKeepsInv(cfg, states, actions, n - 1);
      StepKeepsClose(cfg, states[n - 1], actions[n - 1]);
    }
  }

  /** Between refills, the tokens added never exceed rate times the time of the last refill; and if no
      single refill saturates, they lie within n tokens of it after n refills. */
  lemma RefillAccuracy(cfg: Config, states: seq<State>, actions: seq<Action>, n: nat)
    requires cfg.Valid() && IsRun(cfg, states, actions) && n < |states|
    requires states[n].refiller.Idle?
    ensures var s := states[n];
            && s.added * MICROS <= cfg.fillRate * s.lastRefill
            && ((forall i :: 0 <= i < n ==> Unsaturated(cfg, states[i], actions[i])) ==>
                  cfg.fillRate * s.lastRefill - s.refills * MICROS <= s.added * MICROS)
  {
    RunKeepsInv(cfg, states, actions, n);
    if forall i :: 0 <= i < n ==> Unsaturated(cfg, states[i], actions[i]) {
      RunKeepsClose(cfg, states, actions, n);
    }
  }

  /** The exact failing case: in every run a refill credits within one token of rate times the time it
      covers if and only if it does not saturate. */
  lemma SaturationExact(cfg: Config, states: seq<State>, actions: seq<Action>, n: nat)
    requires cfg.Valid() && IsRun(cfg, states, actions) && n < |actions| && actions[n].RefillCompute?
    ensures cfg.fillRate * (states[n].refiller.now - states[n].refiller.prev)
            < (states[n + 1].credited - states[n].credited + 1) * MICROS
       <==> Unsaturated(cfg, states[n], actions[n])
  {
    RunKeepsInv(cfg, states, actions, n);
    ComputeExact(cfg, states[n]);
  }

  /** A first refill late enough to saturate leaves the count of tokens short by more than one. */
  lemma SaturatedFallsShort(cfg: Config, late: nat) returns (states: seq<State>, actions: seq<Action>)
    requires cfg.Valid() && cfg.fillRate * late > (U64_MAX + 1) * MICROS
    ensures IsRun(cfg, states, actions) && !Close(cfg, states[|actions|])
    ensures states[|actions|].refills == 1
  {
    var s0 := Init(cfg);
    var s1 := s0.(clock := late);
    var s2 := s1.(refiller := ReadClock(late));
    var s3 := s2.(refiller := Swapped(late, 0), lastRefill := late);
    var s4 := Apply(cfg, s3, RefillCompute);
    states, actions := [s0, s1, s2, s3, s4], [Tick(late), RefillStart, RefillSwap, RefillCompute];
    ComputeExact(cfg, s3);
  }

  // --- Refusals ---

  /** From state m to state n the consumer is inside one call for `tokens`. */
  ghost predicate InCall(states: seq<State>, id: nat, tokens: nat, m: nat, n: nat)
    requires m <= n < |states|
  {
    forall j :: m <= j <= n ==>
      && id in states[j].consumers
      && !states[j].consumers[id].Done?
      && states[j].consumers[id].tokens == tokens
  }

  /** What a consumer holds as current was the counter at some moment of its call. */
  lemma {:induction false} CurrentWasRead(cfg: Config, states: seq<State>, actions: seq<Action>, id: nat,
                                          n: nat) returns (m: nat)
    requires IsRun(cfg, states, actions) && n < |states|
    requires id in states[n].consumers && states[n].consumers[id].Loaded?
    ensures m <= n && states[m].available == states[n].consumers[id].current
    ensures InCall(states, id, states[n].consumers[id].tokens, m, n)
  {
    var a := actions[n - 1];
    if a == Load(id) || (a.Exchange? && a.id == id) {
      m := n - 1;
    } else {
      assert id in states[n - 1].consumers && states[n - 1].consumers[id] == states[n].consumers[id];
      m := CurrentWasRead(cfg, states, actions, id, n - 1);
    }
  }

  /** A refused call was either larger than the capacity or met, at some moment while it ran, a counter
      below what it asked for. */
  lemma RefusalJustified(cfg: Config, states: seq<State>, actions: seq<Action>, id: nat, n: nat)
    requires IsRun(cfg, states, actions) && n < |actions|
    requires id in states[n + 1].consumers && states[n + 1].consumers[id].Done?
    requires !states[n + 1].consumers[id].ok
    requires id in states[n].consumers ==> states[n].consumers[id] != states[n + 1].consumers[id]
    ensures var tokens := states[n + 1].consumers[id].tokens;
            || tokens > cfg.capacity
            || exists m: nat :: m <= n && states[m].available < tokens && InCall(states, id, tokens, m, n)
  {
    if actions[n].Exchange? {
      var m := CurrentWasRead(cfg, states, actions, id, n);
    }
  }
}
