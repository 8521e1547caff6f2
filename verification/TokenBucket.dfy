/**
 The per-host token bucket of internal/cloud/ratelimit.go, over real numbers.

 One turn of the waiting loop holds the bucket's lock, reads the clock, and either takes a token or says how long
 to sleep. Turns of any number of callers interleave; under the lock the clock readings never decrease.
 */
module TokenBucket {

  /** How many tokens are left, and when they were counted. */
  datatype Bucket = Bucket(tokens: real, last: real)

  datatype Limit = Limit(rate: real, burst: real)

  ghost predicate ValidLimit(l: Limit) {
    l.rate > 0.0 && l.burst >= 1.0
  }

  ghost predicate Filled(l: Limit, b: Bucket) {
    0.0 <= b.tokens <= l.burst
  }

  function Min(a: real, b: real): real {
    if a > b then b else a
  }

  /** The tokens that flow in while time passes. */
  function Inflow(l: Limit, passed: real): real {
    passed * l.rate
  }

  function Refilled(l: Limit, b: Bucket, now: real): Bucket {
    Bucket(Min(b.tokens + Inflow(l, now - b.last), l.burst), now)
  }

  predicate Grants(l: Limit, b: Bucket, now: real) {
    Refilled(l, b, now).tokens >= 1.0
  }

  /** The bucket after a turn at time `now`. */
  function Turn(l: Limit, b: Bucket, now: real): Bucket {
    var full := Refilled(l, b, now);
    if Grants(l, b, now) then full.(tokens := full.tokens - 1.0) else full
  }

  /** How long the caller of a turn without a token sleeps. */
  function Need(l: Limit, b: Bucket): real
    requires l.rate > 0.0
  {
    (1.0 - b.tokens) / l.rate
  }

  // ----- any run of turns

  ghost predicate Ordered(times: seq<real>) {
    forall i, j :: 0 <= i < j < |times| ==> times[i] <= times[j]
  }

  /** The bucket after the first `n` turns of a run that starts from a full bucket. */
  function After(l: Limit, start: real, times: seq<real>, n: nat): Bucket
    requires n <= |times|
  {
    if n == 0 then Bucket(l.burst, start) else Turn(l, After(l, start, times, n - 1), times[n - 1])
  }

  predicate GrantedAt(l: Limit, start: real, times: seq<real>, i: nat)
    requires i < |times|
  {
    Grants(l, After(l, start, times, i), times[i])
  }

  /** The tokens granted by the turns from `i` up to `j`. */
  function Granted(l: Limit, start: real, times: seq<real>, i: nat, j: nat): nat
    requires i <= j <= |times|
    decreases j - i
  {
    if i == j then 0
    else Granted(l, start, times, i, j - 1) + if GrantedAt(l, start, times, j - 1) then 1 else 0
  }

  ghost predicate IsRun(l: Limit, start: real, times: seq<real>) {
    ValidLimit(l) && Ordered(times) && (times != [] ==> start <= times[0])
  }

  lemma InflowSum(l: Limit, a: real, b: real)
    ensures Inflow(l, a) + Inflow(l, b) == Inflow(l, a + b)
  {
  }

  lemma InflowGrows(l: Limit, a: real, b: real)
    requires l.rate > 0.0
    ensures a <= b <==> Inflow(l, a) <= Inflow(l, b)
    ensures Inflow(l, 0.0) == 0.0
  {
    if a > b { assert (a - b) * l.rate > 0.0; } else { assert (b - a) * l.rate >= 0.0; }
  }

  lemma TurnFilled(l: Limit, b: Bucket, now: real)
    requires ValidLimit(l) && Filled(l, b) && b.last <= now
    ensures Filled(l, Turn(l, b, now)) && Turn(l, b, now).last == now
  {
    InflowGrows(l, 0.0, now - b.last);
  }

  /** In every run the tokens stay between zero and the burst. */
  lemma {:induction false} AlwaysFilled(l: Limit, start: real, times: seq<real>, n: nat)
    requires IsRun(l, start, times) && n <= |times|
    ensures Filled(l, After(l, start, times, n))
    ensures After(l, start, times, n).last == if n == 0 then start else times[n - 1]
  {
    if n > 0 {
      AlwaysFilled(l, start, times, n - 1);
      TurnFilled(l, After(l, start, times, n - 1), times[n - 1]);
    }
  }

  lemma TurnPaidFor(l: Limit, b: Bucket, now: real)
    ensures
      Turn(l, b, now).tokens + (if Grants(l, b, now) then 1.0 else 0.0) ==
      Min(b.tokens + Inflow(l, now - b.last), l.burst)
  {
  }

  lemma InflowIs(l: Limit, passed: real)
    ensures Inflow(l, passed) == l.rate * passed
  {
  }

  lemma {:induction false} PaidFor(l: Limit, start: real, times: seq<real>, i: nat, j: nat)
    requires IsRun(l, start, times) && i < j <= |times|
    ensures
      After(l, start, times, j).tokens + Granted(l, start, times, i, j) as real <=
      l.burst + Inflow(l, times[j - 1] - times[i])
    decreases j - i
  {
    AlwaysFilled(l, start, times, j - 1);
    var b, now := After(l, start, times, j - 1), times[j - 1];
    TurnPaidFor(l, b, now);
    InflowGrows(l, 0.0, 0.0);
    if i + 1 == j {
      assert Granted(l, start, times, i, i) == 0;
      assert times[j - 1] - times[i] == 0.0;
    } else {
      PaidFor(l, start, times, i, j - 1);
      InflowSum(l, times[j - 2] - times[i], now - times[j - 2]);
      assert times[j - 2] - times[i] + (now - times[j - 2]) == now - times[i];
    }
  }

  /** Tokens left plus tokens granted never exceed what was there at first and has flowed in since. */
  lemma GrantsPaidFor(l: Limit, start: real, times: seq<real>, i: nat, j: nat, passed: real)
    requires IsRun(l, start, times) && i < j <= |times| && passed == times[j - 1] - times[i]
    ensures
      After(l, start, times, j).tokens + Granted(l, start, times, i, j) as real <= l.burst + l.rate * passed
  {
    PaidFor(l, start, times, i, j);
    InflowIs(l, passed);
  }

  lemma WindowPaidFor(l: Limit, start: real, times: seq<real>, i: nat, j: nat, open: real, span: real)
    requires IsRun(l, start, times) && i <= j <= |times| && span >= 0.0
    requires forall k :: i <= k < j ==> open <= times[k] <= open + span
    ensures Granted(l, start, times, i, j) as real <= l.burst + Inflow(l, span)
  {
    InflowGrows(l, 0.0, span);
    if i < j {
      PaidFor(l, start, times, i, j);
      AlwaysFilled(l, start, times, j);
      InflowGrows(l, times[j - 1] - times[i], span);
    }
  }

  /** The turns of any window of length `span` are granted at most burst + rate * span tokens. */
  lemma WindowBound(l: Limit, start: real, times: seq<real>, i: nat, j: nat, open: real, span: real)
    requires IsRun(l, start, times) && i <= j <= |times| && span >= 0.0
    requires forall k :: i <= k < j ==> open <= times[k] <= open + span
    ensures Granted(l, start, times, i, j) as real <= l.burst + l.rate * span
  {
    WindowPaidFor(l, start, times, i, j, open, span);
    InflowIs(l, span);
  }

  /** The bound is reached: a full bucket grants its whole burst at once. */
  lemma {:induction false} BurstAtOnce(n: nat, rate: real, start: real, times: seq<real>, k: nat)
    requires n >= 1 && rate > 0.0 && |times| == n && (forall i :: 0 <= i < n ==> times[i] == start) && k <= n
    ensures
      var l := Limit(rate, n as real);
      After(l, start, times, k) == Bucket((n - k) as real, start) && Granted(l, start, times, 0, k) == k
  {
    var l := Limit(rate, n as real);
    if k > 0 {
      BurstAtOnce(n, rate, start, times, k - 1);
      InflowGrows(l, 0.0, 0.0);
      assert start - start == 0.0;
      assert Refilled(l, After(l, start, times, k - 1), start).tokens == (n - k + 1) as real;
    }
  }

  /** After a turn without a token, a turn with no other in between gets one exactly when it comes `Need` later. */
  lemma NeedExact(l: Limit, b: Bucket, now: real, later: real)
    requires ValidLimit(l) && Filled(l, b) && b.last <= now <= later && !Grants(l, b, now)
    ensures Grants(l, Turn(l, b, now), later) <==> later >= now + Need(l, Turn(l, b, now))
    ensures Need(l, Turn(l, b, now)) > 0.0
  {
    var c := Turn(l, b, now);
    var need := Need(l, c);
    assert Inflow(l, need) == 1.0 - c.tokens;
    InflowGrows(l, need, later - now);
    InflowGrows(l, need, 0.0);
  }

  // ----- the limiter

  /** internal/cloud/ratelimit.go: limiter, with the buckets of the hosts seen so far. */
  class Limiter {
    const rate: real
    const burst: real
    var hosts: map<string, Bucket>

    constructor (perSecond: real, burst: int)
      ensures rate == perSecond && this.burst == (if burst < 1 then 1 else burst) as real && hosts == map[]
      ensures Valid()
    {
      rate := perSecond;
      this.burst := (if burst < 1 then 1 else burst) as real;
      hosts := map[];
    }

    ghost predicate Valid()
      reads this
    {
      burst >= 1.0 && (rate > 0.0 ==> forall h :: h in hosts ==> Filled(Limit(rate, burst), hosts[h]))
    }

    ghost function BucketOf(host: string, now: real): Bucket
      reads this
    {
      if host in hosts then hosts[host] else Bucket(burst, now)
    }

    /** One turn for a host: a token, or how long to sleep. Without a rate every turn gets one and nothing is kept. */
    method TryTake(host: string, now: real) returns (granted: bool, need: real)
      requires Valid() && (host in hosts ==> hosts[host].last <= now)
      modifies this
      ensures Valid()
      ensures rate <= 0.0 ==> granted && hosts == old(hosts)
      ensures
        rate > 0.0 ==>
          var l, b := Limit(rate, burst), old(BucketOf(host, now));
          granted == Grants(l, b, now) && hosts == old(hosts)[host := Turn(l, b, now)] &&
          (!granted ==> need == Need(l, hosts[host]) && need > 0.0)
    {
      if rate <= 0.0 { return true, 0.0; }
      var b := if host in hosts then hosts[host] else Bucket(burst, now);
      ghost var l, was := Limit(rate, burst), b;
      TurnFilled(l, was, now);
      b := b.(tokens := b.tokens + Inflow(Limit(rate, burst), now - b.last));
      if b.tokens > burst { b := b.(tokens := burst); }
      b := b.(last := now);
      if b.tokens >= 1.0 {
        hosts := hosts[host := b.(tokens := b.tokens - 1.0)];
        return true, 0.0;
      }
      NeedExact(l, was, now, now);
      hosts := hosts[host := b];
      granted, need := false, (1.0 - b.tokens) / rate;
    }

    /** A caller that sleeps exactly as long as it was told, with nobody else taking tokens, waits at most once. */
    method WaitAlone(host: string, start: real) returns (when: real)
      requires Valid() && rate > 0.0 && (host in hosts ==> hosts[host].last <= start)
      modifies this
      ensures Valid() && start <= when
      ensures
        var l, b := Limit(rate, burst), old(BucketOf(host, start));
        if Grants(l, b, start) then when == start
        else when == start + Need(l, Turn(l, b, start)) && Grants(l, Turn(l, b, start), when)
    {
      when := start;
      var granted, need := TryTake(host, when);
      if !granted {
        NeedExact(Limit(rate, burst), old(BucketOf(host, start)), start, start + need);
        when := when + need;
        granted, need := TryTake(host, when);
        assert granted;
      }
    }
  }
}
