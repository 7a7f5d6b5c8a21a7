/** The token bucket that limits the rate of a stream. Times are nanoseconds and are given by the caller. */
module RateLimit {
  import opened Sequences

  const SECOND: nat := 1_000_000_000
  const MILLISECOND: nat := 1_000_000
  const MIN_CAPACITY := 1024

  datatype Bucket = Bucket(rate: int, capacity: int, tokens: int, lastRefill: int)

  /** A bucket holds one second worth of tokens, and 1024 at least. */
  function CapacityFor(rate: int): (c: int)
    ensures c >= MIN_CAPACITY && c >= rate
  {
    if rate < MIN_CAPACITY then MIN_CAPACITY else rate
  }

  ghost predicate Sized(b: Bucket) { b.capacity == CapacityFor(b.rate) && 0 <= b.tokens }
  ghost predicate Sound(b: Bucket) { Sized(b) && b.tokens <= b.capacity }

  /** The whole tokens that a time span is worth; none for a rate that is not positive. */
  function Earned(elapsed: int, rate: int): int {
    elapsed * rate / SECOND
  }

  /** Time shorter than a millisecond or worth less than one token is kept for the next refill. */
  function Refilled(b: Bucket, now: int): Bucket {
    var elapsed := now - b.lastRefill;
    if elapsed < MILLISECOND || Earned(elapsed, b.rate) <= 0 then b
    else b.(tokens := Min(b.tokens + Earned(elapsed, b.rate), b.capacity), lastRefill := now)
  }

  function Admits(b: Bucket, now: int, n: int): bool {
    n <= Refilled(b, now).tokens
  }

  class TokenBucket {
    var rate: int
    var capacity: int
    var tokens: int
    var lastRefill: int

    function View(): Bucket
      reads this
    {
      Bucket(rate, capacity, tokens, lastRefill)
    }

    constructor (bytesPerSecond: int, now: int)
      ensures View() == Bucket(bytesPerSecond, CapacityFor(bytesPerSecond), CapacityFor(bytesPerSecond), now)
      ensures Sound(View()) && (bytesPerSecond >= 0 ==> Fresh(View(), bytesPerSecond, now))
    {
      var c := bytesPerSecond;
      if c < 1024 {
        c := 1024;
      }
      rate, capacity, tokens, lastRefill := bytesPerSecond, c, c, now;
    }

    method Refill(now: int)
      modifies this
      ensures View() == Refilled(old(View()), now)
    {
      var elapsed := now - lastRefill;
      if elapsed < MILLISECOND {
        return;
      }
      var newTokens := Earned(elapsed, rate);
      if newTokens > 0 {
        tokens := tokens + newTokens;
        if tokens > capacity {
          tokens := capacity;
        }
        lastRefill := now;
      }
    }

    /** A negative request is admitted and adds tokens, which may go beyond the capacity. */
    method Allow(n: int, now: int) returns (ok: bool)
      requires Sized(View())
      modifies this
      ensures Sized(View()) && ok == Admits(old(View()), now, n)
      ensures View() == Step(old(View()), Request(n, now))
      ensures old(Sound(View())) ==> (Sound(View()) <==> Refilled(old(View()), now).tokens - capacity <= n)
    {
      RefillIsSound(View(), now);
      Refill(now);
      if n <= tokens {
        tokens := tokens - n;
        return true;
      }
      return false;
    }

    /** Does not refill first, so that the time since the last refill is paid at the new rate. */
    method SetRate(bytesPerSecond: int)
      requires Sized(View())
      modifies this
      ensures Sound(View()) && forall now :: View() == Step(old(View()), NewRate(bytesPerSecond, now))
    {
      rate := bytesPerSecond;
      capacity := bytesPerSecond;
      if capacity < 1024 {
        capacity := 1024;
      }
      if tokens > capacity {
        tokens := capacity;
      }
    }
  }

  // Runs.

  datatype Op = Request(n: int, now: int) | NewRate(rate: int, now: int)

  function Step(b: Bucket, op: Op): Bucket {
    match op
    case Request(n, now) =>
      var r := Refilled(b, now);
      if Admits(b, now, n) then r.(tokens := r.tokens - n) else r
    case NewRate(rate, _) =>
      var c := CapacityFor(rate);
      Bucket(rate, c, Min(b.tokens, c), b.lastRefill)
  }

  function Admitted(b: Bucket, op: Op): int {
    if op.Request? && Admits(b, op.now, op.n) then op.n else 0
  }

  function Run(b: Bucket, ops: seq<Op>): Bucket
    decreases |ops|
  {
    if ops == [] then b else Run(Step(b, ops[0]), ops[1..])
  }

  function TotalAdmitted(b: Bucket, ops: seq<Op>): int
    decreases |ops|
  {
    if ops == [] then 0 else Admitted(b, ops[0]) + TotalAdmitted(Step(b, ops[0]), ops[1..])
  }

  lemma EarnedAtMost(elapsed: int, rate: int, top: nat)
    requires elapsed >= 0 && rate <= top
    ensures Earned(elapsed, rate) * SECOND <= elapsed * top
  {
    assert elapsed * rate <= elapsed * top;
  }

  lemma RefillIsSound(b: Bucket, now: int)
    requires Sized(b)
    ensures Sized(Refilled(b, now)) && (Sound(b) ==> Sound(Refilled(b, now)))
  {
  }

  ghost predicate RatesAtMost(b: Bucket, ops: seq<Op>, top: nat)
    decreases |ops|
  {
    b.rate <= top && (ops != [] ==> RatesAtMost(Step(b, ops[0]), ops[1..], top))
  }

  /** One step keeps the account: what it admits and leaves over is covered by what it found and by the time it consumed. */
  lemma StepBound(b: Bucket, op: Op, top: nat)
    requires Sized(b) && b.rate <= top
    ensures Sized(Step(b, op)) && b.lastRefill <= Step(b, op).lastRefill
    ensures (Admitted(b, op) + Step(b, op).tokens) * SECOND <= b.tokens * SECOND + top * (Step(b, op).lastRefill - b.lastRefill)
  {
    if op.Request? {
      RefillIsSound(b, op.now);
      var elapsed := op.now - b.lastRefill;
      if elapsed >= MILLISECOND && Earned(elapsed, b.rate) > 0 {
        EarnedAtMost(elapsed, b.rate, top);
      }
    }
  }

  /** From any state on, a run admits at most the tokens it starts with plus the highest rate times the time that passes. */
  lemma {:induction false} RunBound(b: Bucket, ops: seq<Op>, top: nat)
    requires Sized(b) && RatesAtMost(b, ops, top)
    ensures Sized(Run(b, ops)) && b.lastRefill <= Run(b, ops).lastRefill
    ensures (TotalAdmitted(b, ops) + Run(b, ops).tokens) * SECOND <= b.tokens * SECOND + top * (Run(b, ops).lastRefill - b.lastRefill)
    decreases |ops|
  {
    if ops != [] {
      var next, last := Step(b, ops[0]), Run(b, ops);
      StepBound(b, ops[0], top);
      RunBound(next, ops[1..], top);
      assert top * (last.lastRefill - b.lastRefill) == top * (last.lastRefill - next.lastRefill) + top * (next.lastRefill - b.lastRefill);
    }
  }

  /** No request is negative. */
  ghost predicate Proper(ops: seq<Op>)
    decreases |ops|
  {
    ops != [] ==> (ops[0].Request? ==> ops[0].n >= 0) && Proper(ops[1..])
  }

  lemma {:induction false} StaysSound(b: Bucket, ops: seq<Op>)
    requires Sound(b) && Proper(ops)
    ensures Sound(Run(b, ops))
    decreases |ops|
  {
    if ops != [] {
      if ops[0].Request? {
        RefillIsSound(b, ops[0].now);
      }
      StaysSound(Step(b, ops[0]), ops[1..]);
    }
  }

  ghost predicate Until(ops: seq<Op>, end: int)
    decreases |ops|
  {
    ops != [] ==> ops[0].now <= end && Until(ops[1..], end)
  }

  lemma {:induction false} RefillsByThen(b: Bucket, ops: seq<Op>, end: int)
    requires Until(ops, end) && b.lastRefill <= end
    ensures Run(b, ops).lastRefill <= end
    decreases |ops|
  {
    if ops != [] {
      RefillsByThen(Step(b, ops[0]), ops[1..], end);
    }
  }

  ghost predicate FixedRate(ops: seq<Op>)
    decreases |ops|
  {
    ops != [] ==> ops[0].Request? && FixedRate(ops[1..])
  }

  lemma {:induction false} FixedIsAtMost(b: Bucket, ops: seq<Op>, top: nat)
    requires FixedRate(ops) && b.rate <= top
    ensures RatesAtMost(b, ops, top)
    decreases |ops|
  {
    if ops != [] {
      FixedIsAtMost(Step(b, ops[0]), ops[1..], top);
    }
  }

  /** What a new bucket is. */
  ghost predicate Fresh(b: Bucket, rate: nat, created: int) {
    b.rate == rate && b.capacity == b.tokens == CapacityFor(rate) && b.lastRefill == created
  }

  lemma SpanGrows(rate: nat, a: int, b: int)
    requires a <= b
    ensures rate * a <= rate * b
  {
  }

  /** At a fixed rate no run since creation admits more than the capacity plus the rate times the elapsed time. */
  lemma NeverTooMuch(b: Bucket, rate: nat, created: int, ops: seq<Op>, end: int)
    requires Fresh(b, rate, created) && FixedRate(ops) && Until(ops, end) && created <= end
    ensures TotalAdmitted(b, ops) * SECOND <= b.capacity * SECOND + rate * (end - created)
    ensures Proper(ops) ==> 0 <= Run(b, ops).tokens <= Run(b, ops).capacity
  {
    FixedIsAtMost(b, ops, rate);
    RunBound(b, ops, rate);
    RefillsByThen(b, ops, end);
    SpanGrows(rate, Run(b, ops).lastRefill - created, end - created);
    if Proper(ops) {
      StaysSound(b, ops);
    }
  }

  /** Waiting helps: once the time since the last refill is worth `n` tokens, `n` up to the capacity are admitted. */
  lemma WaitingHelps(b: Bucket, n: nat, now: int)
    requires Sound(b) && n <= b.capacity && now - b.lastRefill >= MILLISECOND
    requires (now - b.lastRefill) * b.rate >= n * SECOND
    ensures Admits(b, now, n)
  {
  }

  /** The capacity is what the rate earns in one second, and 1024 for a lower rate. */
  lemma CapacityIsASecond(rate: int)
    ensures rate >= MIN_CAPACITY ==> CapacityFor(rate) == Earned(SECOND, rate)
    ensures rate < MIN_CAPACITY ==> CapacityFor(rate) == MIN_CAPACITY
  {
  }

  // What is earned at least.

  /** The refill takes no token away for lack of room. */
  predicate Roomy(b: Bucket, now: int) {
    now - b.lastRefill >= MILLISECOND ==> b.tokens + Earned(now - b.lastRefill, b.rate) <= b.capacity
  }

  ghost predicate AllRoomy(b: Bucket, ops: seq<Op>)
    decreases |ops|
  {
    ops != [] ==> (ops[0].Request? ==> Roomy(b, ops[0].now)) && AllRoomy(Step(b, ops[0]), ops[1..])
  }

  /** A look that earns nothing, because it comes within a millisecond or within the time of one token, leaves the clock of the
      bucket and its tokens alone, and a request it refuses leaves it as it was. */
  lemma EarlyLooksAreFree(b: Bucket, n: int, now: int)
    requires now - b.lastRefill < MILLISECOND || (now - b.lastRefill) * b.rate < SECOND
    ensures Refilled(b, now) == b && (!Admits(b, now, n) ==> Step(b, Request(n, now)) == b)
  {
  }

  /** Where there is room, one request is paid at least half of the time it uses up: less than a token is cut off, and only where at
      least one is earned. And it leaves no more time unpaid than a millisecond or the time of one token. */
  lemma StepEarns(b: Bucket, n: int, now: int)
    requires b.rate >= 0 && Roomy(b, now)
    ensures var op := Request(n, now);
            var next := Step(b, op);
            && 2 * (Admitted(b, op) + next.tokens - b.tokens) * SECOND >= b.rate * (next.lastRefill - b.lastRefill)
            && (now - next.lastRefill < MILLISECOND || (now - next.lastRefill) * b.rate < SECOND)
  {
    var elapsed := now - b.lastRefill;
    if elapsed >= MILLISECOND && Earned(elapsed, b.rate) > 0 {
      HalfAtLeast(elapsed * b.rate);
    }
  }

  lemma HalfAtLeast(x: int)
    requires x / SECOND >= 1
    ensures 2 * (x / SECOND) * SECOND >= x
  {
  }

  /** However often it is asked, and whatever it refuses: a bucket with room admits and keeps, over what it had, at least half of what
      the rate is worth over the time it has accounted for. */
  lemma {:induction false} EarnsAtLeastHalf(b: Bucket, ops: seq<Op>)
    requires FixedRate(ops) && b.rate >= 0 && AllRoomy(b, ops)
    ensures 2 * (TotalAdmitted(b, ops) + Run(b, ops).tokens - b.tokens) * SECOND >= b.rate * (Run(b, ops).lastRefill - b.lastRefill)
    decreases |ops|
  {
    if ops != [] {
      var next, last := Step(b, ops[0]), Run(b, ops);
      StepEarns(b, ops[0].n, ops[0].now);
      EarnsAtLeastHalf(next, ops[1..]);
      SpanSplits(b.rate, last.lastRefill, next.lastRefill, b.lastRefill);
    }
  }

  lemma SpanSplits(rate: int, a: int, b: int, c: int)
    ensures rate * (a - c) == rate * (a - b) + rate * (b - c)
  {
  }

  /** And at its last request no more than a millisecond, or the time of one token, is left unaccounted for. */
  lemma {:induction false} AccountedFor(b: Bucket, ops: seq<Op>)
    requires FixedRate(ops) && b.rate >= 0 && AllRoomy(b, ops) && ops != []
    ensures var left := ops[|ops| - 1].now - Run(b, ops).lastRefill;
            left < MILLISECOND || left * b.rate < SECOND
    decreases |ops|
  {
    StepEarns(b, ops[0].n, ops[0].now);
    if |ops| > 1 {
      AccountedFor(Step(b, ops[0]), ops[1..]);
    } else {
      assert Run(b, ops) == Run(Step(b, ops[0]), []);
    }
  }

  // Rate changes.

  function Positive(rate: int): nat { if rate > 0 then rate else 0 }

  /** What the rates in force allow from `now` on, each for the time it is in force. */
  function Allowance(rate: int, now: int, ops: seq<Op>): int
    decreases |ops|
  {
    if ops == [] then 0
    else Positive(rate) * (ops[0].now - now) + Allowance(if ops[0].NewRate? then ops[0].rate else rate, ops[0].now, ops[1..])
  }

  /** The allowance of the time since the last refill, after an operation; `unpaid` is that before it, at `now`. */
  function Unpaid(b: Bucket, now: int, unpaid: int, op: Op): int {
    if op.Request? && Refilled(b, op.now) != b then 0 else unpaid + Positive(b.rate) * (op.now - now)
  }

  /** Time does not run backwards, and no rate is set at which the unpaid time is worth more than it was allowed: as for a
      rate that is not raised, or raised right after a refill. */
  ghost predicate Covered(b: Bucket, now: int, unpaid: int, ops: seq<Op>)
    decreases |ops|
  {
    ops != [] ==>
      && now <= ops[0].now
      && (ops[0].NewRate? ==> Positive(ops[0].rate) * (ops[0].now - b.lastRefill) <= Unpaid(b, now, unpaid, ops[0]))
      && Covered(Step(b, ops[0]), ops[0].now, Unpaid(b, now, unpaid, ops[0]), ops[1..])
  }

  /** A rate that is not raised is covered, and so is any rate right after a refill. */
  lemma CoveredIf(b: Bucket, now: int, unpaid: int, rate: int, later: int)
    requires b.lastRefill <= now <= later && Positive(b.rate) * (now - b.lastRefill) <= unpaid
    requires rate <= b.rate || b.lastRefill == later
    ensures Positive(rate) * (later - b.lastRefill) <= Unpaid(b, now, unpaid, NewRate(rate, later))
  {
    SpanLower(Positive(rate), Positive(b.rate), later - b.lastRefill);
    assert Positive(b.rate) * (later - b.lastRefill) == Positive(b.rate) * (now - b.lastRefill) + Positive(b.rate) * (later - now);
  }

  lemma SpanLower(low: nat, high: nat, span: nat)
    requires low <= high || span == 0
    ensures low * span <= high * span
  {
  }

  /** One step within the allowance. */
  lemma CoveredStep(b: Bucket, now: int, unpaid: int, op: Op)
    requires Sized(b) && b.lastRefill <= now <= op.now && Positive(b.rate) * (now - b.lastRefill) <= unpaid
    requires op.NewRate? ==> Positive(op.rate) * (op.now - b.lastRefill) <= Unpaid(b, now, unpaid, op)
    ensures var b', unpaid' := Step(b, op), Unpaid(b, now, unpaid, op);
            && Sized(b') && b'.lastRefill <= op.now && Positive(b'.rate) * (op.now - b'.lastRefill) <= unpaid'
            && (Admitted(b, op) + b'.tokens) * SECOND + unpaid' <= b.tokens * SECOND + unpaid + Positive(b.rate) * (op.now - now)
  {
    Distribute(Positive(b.rate), now - b.lastRefill, op.now - now);
    if op.Request? {
      RequestCovered(b, op.now - b.lastRefill, op.n, op.now, unpaid + Positive(b.rate) * (op.now - now));
    }
  }

  lemma Distribute(rate: nat, a: int, b: int)
    ensures rate * (a + b) == rate * a + rate * b
  {
  }

  lemma RequestCovered(b: Bucket, elapsed: nat, n: int, now: int, owed: int)
    requires Sized(b) && elapsed == now - b.lastRefill && Positive(b.rate) * elapsed <= owed
    ensures var b' := Step(b, Request(n, now));
            var owed' := if Refilled(b, now) != b then 0 else owed;
            && Sized(b') && b'.lastRefill <= now && Positive(b'.rate) * (now - b'.lastRefill) <= owed'
            && (Admitted(b, Request(n, now)) + b'.tokens) * SECOND + owed' <= b.tokens * SECOND + owed
  {
    RefillIsSound(b, now);
    EarnedAtMost(elapsed, b.rate, Positive(b.rate));
    SpanGrows(Positive(b.rate), 0, elapsed);
    RefillGains(b, now, owed);
  }

  /** A refill gains no more than is owed. */
  lemma RefillGains(b: Bucket, now: int, owed: int)
    requires Sized(b) && Earned(now - b.lastRefill, b.rate) * SECOND <= owed && owed >= 0
    ensures Refilled(b, now).tokens * SECOND <= b.tokens * SECOND + owed
    ensures Refilled(b, now) != b ==> Refilled(b, now).lastRefill == now
  {
  }

  /** When every rate change is covered, no run admits more than the tokens it starts with plus what the rates in force allow. */
  lemma {:induction false} WithinAllowance(b: Bucket, now: int, unpaid: int, ops: seq<Op>)
    requires Sized(b) && b.lastRefill <= now && Positive(b.rate) * (now - b.lastRefill) <= unpaid && Covered(b, now, unpaid, ops)
    ensures TotalAdmitted(b, ops) * SECOND <= b.tokens * SECOND + unpaid + Allowance(b.rate, now, ops)
    decreases |ops|
  {
    if ops == [] {
      SpanGrows(Positive(b.rate), 0, now - b.lastRefill);
    } else {
      var op := ops[0];
      CoveredStep(b, now, unpaid, op);
      WithinAllowance(Step(b, op), op.now, Unpaid(b, now, unpaid, op), ops[1..]);
    }
  }

  /** What the two rates allow from the last refill until `later`, when the rate changes at `now`. */
  function AllowedAcross(b: Bucket, rate: int, now: int, later: int): int {
    Positive(b.rate) * (now - b.lastRefill) + Positive(rate) * (later - now)
  }

  /** The first request after a rate change can exceed what is allowed exactly when the time since the last refill, paid
      at the new rate, earns more than the two rates allow, and the bucket has room for more than that. */
  lemma ExceedsExactly(b: Bucket, rate: int, now: int, later: int)
    requires Sound(b) && b.lastRefill <= now <= later
    ensures (exists n :: TotalAdmitted(b, [NewRate(rate, now), Request(n, later)]) * SECOND
                         > b.tokens * SECOND + AllowedAcross(b, rate, now, later)) <==>
            && later - b.lastRefill >= MILLISECOND
            && Earned(later - b.lastRefill, rate) * SECOND > AllowedAcross(b, rate, now, later)
            && (CapacityFor(rate) - b.tokens) * SECOND > AllowedAcross(b, rate, now, later)
  {
    var c := Step(b, NewRate(rate, now));
    var most := Refilled(c, later).tokens;
    forall n ensures TotalAdmitted(b, [NewRate(rate, now), Request(n, later)]) == if n <= most then n else 0 {
      TwoSteps(b, rate, now, n, later);
    }
    SpanGrows(Positive(b.rate), 0, now - b.lastRefill);
    SpanGrows(Positive(rate), 0, later - now);
    var allowed := b.tokens * SECOND + AllowedAcross(b, rate, now, later);
    assert (exists n :: TotalAdmitted(b, [NewRate(rate, now), Request(n, later)]) * SECOND > allowed) <==> most * SECOND > allowed by {
      if most * SECOND > allowed {
        assert TotalAdmitted(b, [NewRate(rate, now), Request(most, later)]) == most;
      }
    }
    MostIs(b, rate, now, later);
  }

  lemma TwoSteps(b: Bucket, rate: int, now: int, n: int, later: int)
    ensures var most := Refilled(Step(b, NewRate(rate, now)), later).tokens;
            TotalAdmitted(b, [NewRate(rate, now), Request(n, later)]) == if n <= most then n else 0
  {
    var ops := [NewRate(rate, now), Request(n, later)];
    var c := Step(b, ops[0]);
    assert ops[1..] == [Request(n, later)] && ops[1..][1..] == [];
    assert TotalAdmitted(c, ops[1..]) == Admitted(c, Request(n, later)) + TotalAdmitted(Step(c, Request(n, later)), []);
  }

  lemma MostIs(b: Bucket, rate: int, now: int, later: int)
    requires Sound(b) && b.lastRefill <= now <= later
    ensures var most := Refilled(Step(b, NewRate(rate, now)), later).tokens;
            var extra := AllowedAcross(b, rate, now, later);
            most * SECOND > b.tokens * SECOND + extra <==>
              && later - b.lastRefill >= MILLISECOND
              && Earned(later - b.lastRefill, rate) * SECOND > extra && (CapacityFor(rate) - b.tokens) * SECOND > extra
  {
    var extra := AllowedAcross(b, rate, now, later);
    SpanGrows(Positive(b.rate), 0, now - b.lastRefill);
    SpanGrows(Positive(rate), 0, later - now);
    assert extra >= 0;
    var earned := Earned(later - b.lastRefill, rate);
    var c := Step(b, NewRate(rate, now));
    if earned > 0 && later - b.lastRefill >= MILLISECOND {
      assert Refilled(c, later).tokens == Min(c.tokens + earned, c.capacity);
    }
  }

  /** So any raise with unpaid time of up to a second and an empty bucket lets too much through: a request one second after
      the last refill gets a whole second at the new rate. */
  lemma RaiseOverpays(b: Bucket, rate: nat, now: int)
    requires Sound(b) && b.tokens == 0 && 0 <= b.rate < rate && b.lastRefill < now <= b.lastRefill + SECOND
    ensures var later := b.lastRefill + SECOND;
            TotalAdmitted(b, [NewRate(rate, now), Request(rate, later)]) * SECOND > AllowedAcross(b, rate, now, later)
  {
    var later := b.lastRefill + SECOND;
    WholeSecond(rate);
    Distribute(rate, now - b.lastRefill, later - now);
    StrictlyLess(b.rate, rate, now - b.lastRefill);
    TwoSteps(b, rate, now, rate, later);
    var c := Step(b, NewRate(rate, now));
    assert later - c.lastRefill == SECOND && c.rate == rate && c.tokens == 0;
    assert Refilled(c, later).tokens == rate;
  }

  lemma WholeSecond(rate: nat)
    ensures Earned(SECOND, rate) == rate
  {
  }

  lemma StrictlyLess(a: nat, b: nat, span: nat)
    requires a < b && span > 0
    ensures a * span < b * span
  {
  }
}
