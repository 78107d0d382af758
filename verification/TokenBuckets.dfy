/**
  Token buckets: how many bytes may be read or written now, refilled once a tick
  (common/libevent/bufferevent_ratelim.c and common/libevent/ratelim-internal.h).
  size_t and ssize_t have 64 bits, unsigned and int have 32.
  */
module TokenBuckets {
  import opened Sequences

  const SSIZE_MAX: int := 0x7fff_ffff_ffff_ffff
  const SIZE_RANGE: int := 0x1_0000_0000_0000_0000
  const TICK_RANGE: int := 0x1_0000_0000
  const INT_MAX: int := 0x7fff_ffff

  type Ssize = i: int | -SSIZE_MAX - 1 <= i <= SSIZE_MAX
  type Tick = t: int | 0 <= t < TICK_RANGE

  // Conversions to size_t and ssize_t.
  function AsSize(i: int): (r: nat)
    ensures 0 <= i < SIZE_RANGE ==> r == i
    ensures -SIZE_RANGE <= i < 0 ==> r == i + SIZE_RANGE
    ensures r < SIZE_RANGE
  {
    i % SIZE_RANGE
  }

  function AsSsize(i: int): (r: Ssize)
    ensures -SSIZE_MAX - 1 <= i <= SSIZE_MAX ==> r == i
  {
    var m := i % SIZE_RANGE;
    if m <= SSIZE_MAX then m else m - SIZE_RANGE
  }

  // One direction of a struct ev_token_bucket_cfg.
  datatype Rate = Rate(rate: nat, maximum: nat) {
    // What ev_token_bucket_cfg_new makes sure of.
    predicate Proper() {
      1 <= rate <= maximum <= SSIZE_MAX
    }
  }

  // One direction of a struct ev_token_bucket.
  datatype Bucket = Bucket(limit: Ssize, lastUpdated: Tick)

  // The ticks from one to another, on a counter that wraps around.
  function TicksSince(last: Tick, current: Tick): (n: Tick)
    ensures (last + n) % TICK_RANGE == current
  {
    (current - last) % TICK_RANGE
  }

  // What n ticks bring.
  function Gain(rate: nat, n: nat): (g: nat)
    ensures rate >= 1 && n >= 1 ==> g >= 1
    ensures n == 0 ==> g == 0
  {
    n * rate
  }

  lemma GainMonotone(rate: nat, m: nat, n: nat)
    requires m <= n
    ensures Gain(rate, m) <= Gain(rate, n)
  {
    assert (n - m) * rate >= 0;
    GainAdds(rate, m, n - m);
  }

  lemma GainAdds(rate: nat, m: nat, n: nat)
    ensures Gain(rate, m + n) == Gain(rate, m) + Gain(rate, n)
  {
  }

  // The new limit after n ticks, computed without overflow.
  function Refilled(limit: Ssize, r: Rate, n: nat): Ssize
    requires r.Proper() && 1 <= n <= INT_MAX
  {
    if AsSize(r.maximum - limit) / n < r.rate then r.maximum else AsSsize(limit + AsSize(Gain(r.rate, n)))
  }

  lemma QuotientBelow(d: nat, n: nat, rate: nat)
    requires n > 0
    ensures d / n < rate <==> d < Gain(rate, n)
  {
    var q := d / n;
    assert d == n * q + d % n && d % n < n;
    assert Gain(q, n) == n * q && Gain(q + 1, n) == n * q + n;
    if q < rate {
      RateMonotone(q + 1, rate, n);
    } else {
      RateMonotone(rate, q, n);
    }
  }

  lemma RateMonotone(a: nat, b: nat, n: nat)
    requires a <= b
    ensures Gain(a, n) <= Gain(b, n)
  {
    assert n * (b - a) >= 0;
    assert n * b == n * a + n * (b - a);
  }

  // The computation that avoids overflow gives the limit that is meant, except for a limit above
  // the maximum (which a refund can leave behind): that one is only clipped if the refill would
  // carry it around the whole range.
  lemma RefilledIsMin(limit: Ssize, r: Rate, n: nat)
    requires r.Proper() && 1 <= n <= INT_MAX
    ensures Refilled(limit, r, n) == Min(r.maximum, limit + Gain(r.rate, n))
            <==> limit <= r.maximum || Gain(r.rate, n) >= SIZE_RANGE - (limit - r.maximum)
  {
    QuotientBelow(AsSize(r.maximum - limit), n, r.rate);
    AddedIsMin(limit, r.maximum, Gain(r.rate, n));
  }

  lemma AddedIsMin(limit: Ssize, maximum: nat, t: nat)
    requires maximum <= SSIZE_MAX && t >= 1
    ensures (if AsSize(maximum - limit) < t then maximum else AsSsize(limit + AsSize(t))) == Min(maximum, limit + t)
            <==> limit <= maximum || t >= SIZE_RANGE - (limit - maximum)
  {
    if limit > maximum && t < SIZE_RANGE - (limit - maximum) {
      AboveStays(limit, maximum, t);
    }
  }

  lemma AboveStays(limit: Ssize, maximum: nat, t: nat)
    requires maximum <= SSIZE_MAX && limit > maximum && 0 < t < SIZE_RANGE - (limit - maximum)
    ensures AsSsize(limit + t) != maximum
  {
    var sum := limit + t;
    assert 0 < sum < SIZE_RANGE + maximum;
    if sum < SIZE_RANGE {
      assert sum % SIZE_RANGE == sum;
    } else {
      assert sum % SIZE_RANGE == sum - SIZE_RANGE;
    }
  }

  // A limit above zero is refilled to one above zero, unless it is above the maximum and the sum
  // wraps around to a negative number.
  lemma RefilledStaysPositive(limit: Ssize, r: Rate, n: nat)
    requires r.Proper() && 1 <= n <= INT_MAX && limit > 0
    ensures Refilled(limit, r, n) > 0
            <==> limit <= r.maximum || Gain(r.rate, n) > SIZE_RANGE - (limit - r.maximum)
                 || limit + Gain(r.rate, n) <= SSIZE_MAX || limit + Gain(r.rate, n) > SIZE_RANGE
  {
    QuotientBelow(AsSize(r.maximum - limit), n, r.rate);
    AddedPositive(limit, r.maximum, Gain(r.rate, n));
  }

  lemma AddedPositive(limit: Ssize, maximum: nat, t: nat)
    requires 1 <= maximum <= SSIZE_MAX && t >= 1 && limit > 0
    ensures (if AsSize(maximum - limit) < t then maximum else AsSsize(limit + AsSize(t))) > 0
            <==> limit <= maximum || t > SIZE_RANGE - (limit - maximum)
                 || limit + t <= SSIZE_MAX || limit + t > SIZE_RANGE
  {
    var d, sum := AsSize(maximum - limit), limit + t;
    if d >= t && limit > maximum {
      assert AsSize(t) == t && sum <= SIZE_RANGE + maximum;
      if sum < SIZE_RANGE {
        assert sum % SIZE_RANGE == sum;
      } else {
        assert sum % SIZE_RANGE == sum - SIZE_RANGE;
      }
    }
  }

  // A bucket that a refund left one byte above its maximum, refilled to less than nothing.
  lemma RefundWraps()
    ensures var r := Rate(0x2_0000_0000, 0x2_0000_0000);
            r.Proper() && Refilled(r.maximum + 1, r, 0x4000_0000) < 0
  {
    var r := Rate(0x2_0000_0000, 0x2_0000_0000);
    assert Gain(r.rate, 0x4000_0000) == SSIZE_MAX + 1;
    RefilledStaysPositive(r.maximum + 1, r, 0x4000_0000);
    assert (r.maximum + 1 + SSIZE_MAX + 1) % SIZE_RANGE == r.maximum + 1 + SSIZE_MAX + 1;
  }

  // ev_token_bucket_update_, for one direction. Nothing happens if no tick has passed or time went
  // back.
  function Updated(b: Bucket, r: Rate, current: Tick): Bucket
    requires r.Proper()
  {
    var n := TicksSince(b.lastUpdated, current);
    if n == 0 || n > INT_MAX then b else Bucket(Refilled(b.limit, r, n), current)
  }

  // A limit that is not above the maximum stays so.
  lemma UpdatedIs(b: Bucket, r: Rate, current: Tick)
    requires r.Proper() && b.limit <= r.maximum
    ensures var n := TicksSince(b.lastUpdated, current);
            Updated(b, r, current) ==
              if n <= INT_MAX then Bucket(Min(r.maximum, b.limit + Gain(r.rate, n)), current) else b
  {
    var n := TicksSince(b.lastUpdated, current);
    if 0 < n <= INT_MAX {
      RefilledIsMin(b.limit, r, n);
    }
  }

  lemma TicksAdd(a: Tick, b: Tick, c: Tick)
    requires TicksSince(a, b) + TicksSince(b, c) < TICK_RANGE
    ensures TicksSince(a, c) == TicksSince(a, b) + TicksSince(b, c)
  {
  }

  // Refilling in two steps is refilling once.
  lemma TwoSteps(b: Bucket, r: Rate, first: Tick, second: Tick)
    requires r.Proper() && b.limit <= r.maximum
    requires TicksSince(b.lastUpdated, first) + TicksSince(first, second) <= INT_MAX
    ensures Updated(Updated(b, r, first), r, second) == Updated(b, r, second)
  {
    hide Refilled, Updated, Gain;
    var m, n := TicksSince(b.lastUpdated, first), TicksSince(first, second);
    TicksAdd(b.lastUpdated, first, second);
    UpdatedIs(b, r, first);
    UpdatedIs(Updated(b, r, first), r, second);
    UpdatedIs(b, r, second);
    GainAdds(r.rate, m, n);
  }

  // An update at each of the ticks.
  function UpdatedAll(b: Bucket, r: Rate, ticks: seq<Tick>): Bucket
    requires r.Proper()
    decreases |ticks|
  {
    if ticks == [] then b else UpdatedAll(Updated(b, r, ticks[0]), r, ticks[1..])
  }

  function Elapsed(last: Tick, ticks: seq<Tick>): nat
    decreases |ticks|
  {
    if ticks == [] then 0 else TicksSince(last, ticks[0]) + Elapsed(ticks[0], ticks[1..])
  }

  // How often a bucket is looked at does not matter: any number of updates is one update.
  lemma {:induction false} UpdatesCollapse(b: Bucket, r: Rate, ticks: seq<Tick>)
    requires r.Proper() && b.limit <= r.maximum && ticks != []
    requires Elapsed(b.lastUpdated, ticks) <= INT_MAX
    decreases |ticks|
    ensures UpdatedAll(b, r, ticks) == Updated(b, r, ticks[|ticks| - 1])
  {
    var b' := Updated(b, r, ticks[0]);
    UpdatedIs(b, r, ticks[0]);
    hide Refilled, Updated, Gain;
    if |ticks| > 1 {
      var last := ticks[|ticks| - 1];
      assert ticks[1..][|ticks| - 2] == last;
      UpdatesCollapse(b', r, ticks[1..]);
      ElapsedIs(ticks[0], ticks[1..]);
      TwoSteps(b, r, ticks[0], last);
    } else {
      assert ticks[1..] == [];
    }
  }

  lemma {:induction false} ElapsedIs(last: Tick, ticks: seq<Tick>)
    requires ticks != [] && Elapsed(last, ticks) < TICK_RANGE
    decreases |ticks|
    ensures Elapsed(last, ticks) == TicksSince(last, ticks[|ticks| - 1])
  {
    if |ticks| > 1 {
      assert ticks[1..][|ticks| - 2] == ticks[|ticks| - 1];
      ElapsedIs(ticks[0], ticks[1..]);
      TicksAdd(last, ticks[0], ticks[|ticks| - 1]);
    } else {
      assert ticks[1..] == [];
    }
  }

  // ev_token_bucket_get_tick_.
  function GetTick(sec: nat, usec: nat, msecPerTick: nat): Tick
    requires msecPerTick > 0
  {
    ((sec * 1000 + usec / 1000) % SIZE_RANGE / msecPerTick) % TICK_RANGE
  }

  // The clock in milliseconds.
  function Millis(sec: nat, usec: nat): nat {
    sec * 1000 + usec / 1000
  }

  // Changing the length of a tick keeps last_updated, which counts ticks of the old length. Of a bucket
  // that was last updated at one time and is updated at another one, with ticks of a new length in
  // between, the two tick numbers decide; while no clock wraps around these are two quotients that a
  // caller can compare.
  lemma ReconfiguredRefills(b: Bucket, r: Rate, sec0: nat, usec0: nat, len0: nat, sec: nat, usec: nat, len: nat)
    requires r.Proper() && len0 > 0 && len > 0 && b.lastUpdated == GetTick(sec0, usec0, len0)
    ensures Updated(b, r, GetTick(sec, usec, len)) != b
            <==> 1 <= TicksSince(GetTick(sec0, usec0, len0), GetTick(sec, usec, len)) <= INT_MAX
    ensures Millis(sec0, usec0) / len0 < TICK_RANGE && Millis(sec, usec) / len < TICK_RANGE
            && Millis(sec0, usec0) < SIZE_RANGE && Millis(sec, usec) < SIZE_RANGE ==>
              var was, now := Millis(sec0, usec0) / len0, Millis(sec, usec) / len;
              (Updated(b, r, GetTick(sec, usec, len)) != b <==> 1 <= now - was <= INT_MAX || was - now > INT_MAX + 1)
  {
    hide Updated, TicksSince, GetTick, Millis;
    RefillsBetween(b, r, GetTick(sec, usec, len));
    if Millis(sec0, usec0) / len0 < TICK_RANGE && Millis(sec, usec) / len < TICK_RANGE
       && Millis(sec0, usec0) < SIZE_RANGE && Millis(sec, usec) < SIZE_RANGE {
      TickIs(sec0, usec0, len0);
      TickIs(sec, usec, len);
      TicksBetween(Millis(sec0, usec0) / len0, Millis(sec, usec) / len);
    }
  }

  // An update changes a bucket exactly if a number of ticks that is not too large has passed.
  lemma RefillsBetween(b: Bucket, r: Rate, current: Tick)
    requires r.Proper()
    ensures Updated(b, r, current) != b <==> 1 <= TicksSince(b.lastUpdated, current) <= INT_MAX
  {
    hide Refilled;
  }

  lemma TicksBetween(was: Tick, now: Tick)
    ensures 1 <= TicksSince(was, now) <= INT_MAX <==> 1 <= now - was <= INT_MAX || was - now > INT_MAX + 1
  {
  }

  lemma TickIs(sec: nat, usec: nat, len: nat)
    requires len > 0 && Millis(sec, usec) < SIZE_RANGE && Millis(sec, usec) / len < TICK_RANGE
    ensures GetTick(sec, usec, len) == Millis(sec, usec) / len
  {
  }

  // With longer ticks than before no update refills the bucket until the clock has reached the end of as
  // many new ticks as there were old ones.
  lemma StallsUntil(millis0: nat, len0: nat, millis: nat, len: nat)
    requires len0 > 0 && len > 0
    ensures millis / len <= millis0 / len0 <==> millis < Gain(millis0 / len0 + 1, len)
  {
    QuotientBelow(millis, len, millis0 / len0 + 1);
  }

  // A change from seconds to a thousand seconds at second 1700000000: no update refills the bucket for
  // the next thousand million seconds.
  lemma ReconfigureStalls(b: Bucket, r: Rate, sec: nat)
    requires r.Proper() && b.lastUpdated == GetTick(1_700_000_000, 0, 1000)
    requires 1_700_000_000 <= sec < 2_700_000_000
    ensures Updated(b, r, GetTick(sec, 0, 1_000_000)) == b
  {
    ReconfiguredRefills(b, r, 1_700_000_000, 0, 1000, sec, 0, 1_000_000);
    assert Millis(1_700_000_000, 0) / 1000 == 1_700_000_000;
    assert Millis(sec, 0) / 1_000_000 == sec / 1000 <= 2_700_000;
    hide Updated;
  }

  // What happens to a bucket: time passes, or bytes are transferred after an update.
  datatype Use = Wait(ticks: nat) | Transfer(bytes: nat)

  // The clock in ticks since the beginning of time; updatedAt is when the bucket was last updated.
  datatype Meter = Meter(clock: nat, bucket: Bucket, updatedAt: nat, sent: nat) {
    predicate Consistent(r: Rate) {
      updatedAt <= clock && bucket.lastUpdated == updatedAt % TICK_RANGE && bucket.limit <= r.maximum
    }
  }

  function TickOf(clock: nat): Tick {
    clock % TICK_RANGE
  }

  // bufferevent_get_rlim_max_ without a group.
  function Allowance(limit: Ssize): nat {
    if limit < 0 then 0 else limit
  }

  // The bucket after the update that comes before a transfer.
  function Refreshed(m: Meter, r: Rate): Meter
    requires r.Proper()
  {
    var b := Updated(m.bucket, r, TickOf(m.clock));
    m.(bucket := b, updatedAt := if b == m.bucket then m.updatedAt else m.clock)
  }

  function Used(m: Meter, r: Rate, u: Use): Meter
    requires r.Proper()
  {
    match u
    case Wait(ticks) => m.(clock := m.clock + ticks)
    case Transfer(bytes) =>
      var n := Refreshed(m, r);
      if bytes <= Allowance(n.bucket.limit) then
        n.(bucket := Bucket(n.bucket.limit - bytes, n.bucket.lastUpdated), sent := n.sent + bytes)
      else n
  }

  function UsedAll(m: Meter, r: Rate, us: seq<Use>): Meter
    requires r.Proper()
  {
    if us == [] then m else Used(UsedAll(m, r, us[..|us| - 1]), r, us[|us| - 1])
  }

  // An update adds no more than the rate for the ticks that really passed, however often the tick
  // counter wrapped around.
  lemma RefreshedBound(m: Meter, r: Rate)
    requires r.Proper() && m.Consistent(r)
    ensures var n := Refreshed(m, r);
            && n.Consistent(r) && n.clock == m.clock && n.sent == m.sent
            && m.bucket.limit <= n.bucket.limit && m.updatedAt <= n.updatedAt
            && n.bucket.limit - m.bucket.limit <= Gain(r.rate, n.updatedAt - m.updatedAt)
  {
    hide Updated, Gain;
    var n := TicksSince(m.bucket.lastUpdated, TickOf(m.clock));
    UpdatedIs(m.bucket, r, TickOf(m.clock));
    TicksBound(m.updatedAt, m.clock);
    GainMonotone(r.rate, n, m.clock - m.updatedAt);
  }

  lemma TicksBound(from: nat, to: nat)
    requires from <= to
    ensures TicksSince(TickOf(from), TickOf(to)) <= to - from
  {
  }

  // At some time of the window up to now an update of the untouched bucket had no effect.
  ghost predicate AtRest(start: Meter, now: nat) {
    exists c :: start.clock <= c <= now && !Refills(start.bucket.lastUpdated, TickOf(c))
  }

  predicate Refills(last: Tick, current: Tick) {
    0 < TicksSince(last, current) <= INT_MAX
  }

  // From then on at least as much time passes as a later update counts.
  lemma RestCounts(last: Tick, c: nat, now: nat)
    requires c <= now && !Refills(last, TickOf(c)) && Refills(last, TickOf(now))
    ensures TicksSince(last, TickOf(now)) <= now - c
  {
    TicksBound(c, now);
  }

  // In any run, what was sent is paid by what the bucket can hold and the rate since the start; a bucket
  // that was not updated since then still has what was not sent.
  ghost predicate Paid(start: Meter, r: Rate, m: Meter) {
    && m.Consistent(r) && start.clock <= m.clock && start.sent <= m.sent
    && (m.bucket.limit >= 0 || m.sent == start.sent)
    && if m.updatedAt >= start.clock && m.updatedAt > start.updatedAt then
         m.bucket.limit + (m.sent - start.sent) <= r.maximum + Gain(r.rate, m.updatedAt - start.clock)
       else
         && m.updatedAt == start.updatedAt && m.bucket.lastUpdated == start.bucket.lastUpdated
         && m.bucket.limit + (m.sent - start.sent) == start.bucket.limit
         && (m.sent > start.sent ==> AtRest(start, m.clock))
  }

  // The update before a transfer.
  lemma PaidRefreshed(start: Meter, r: Rate, m: Meter)
    requires r.Proper() && start.Consistent(r) && Paid(start, r, m)
    ensures Paid(start, r, Refreshed(m, r))
    ensures var n := Refreshed(m, r);
            n.clock == m.clock && n.sent == m.sent && n.bucket.limit >= m.bucket.limit
            && (n.updatedAt == start.updatedAt ==> AtRest(start, n.clock))
  {
    RefreshedBound(m, r);
    RefreshedIs(m, r);
    hide Gain, Refreshed, TicksSince;
    var n := Refreshed(m, r);
    if Refills(m.bucket.lastUpdated, TickOf(m.clock)) {
      if m.updatedAt > start.updatedAt {
        GainAdds(r.rate, m.updatedAt - start.clock, n.updatedAt - m.updatedAt);
      } else if m.sent > start.sent {
        var c :| start.clock <= c <= m.clock && !Refills(start.bucket.lastUpdated, TickOf(c));
        RestCounts(start.bucket.lastUpdated, c, m.clock);
        GainMonotone(r.rate, TicksSince(m.bucket.lastUpdated, TickOf(m.clock)), m.clock - start.clock);
      }
    }
  }

  lemma RefreshedIs(m: Meter, r: Rate)
    requires r.Proper() && m.Consistent(r)
    ensures var n, t := Refreshed(m, r), TicksSince(m.bucket.lastUpdated, TickOf(m.clock));
            if Refills(m.bucket.lastUpdated, TickOf(m.clock)) then
              && n.updatedAt == m.clock > m.updatedAt
              && n.bucket.limit <= m.bucket.limit + Gain(r.rate, t) && n.bucket.limit <= r.maximum
            else n == m
  {
    UpdatedIs(m.bucket, r, TickOf(m.clock));
    hide Gain;
  }

  lemma PaidStep(start: Meter, r: Rate, m: Meter, u: Use)
    requires r.Proper() && start.Consistent(r) && Paid(start, r, m)
    ensures Paid(start, r, Used(m, r, u))
  {
    hide Gain, Refreshed;
    match u
    case Wait(ticks) =>
      if m.sent > start.sent && m.updatedAt <= start.updatedAt {
        var c :| start.clock <= c <= m.clock && !Refills(start.bucket.lastUpdated, TickOf(c));
        assert c <= m.clock + ticks;
      }
    case Transfer(_) =>
      PaidRefreshed(start, r, m);
  }

  lemma {:induction false} PaidAll(start: Meter, r: Rate, us: seq<Use>)
    requires r.Proper() && start.Consistent(r)
    ensures Paid(start, r, UsedAll(start, r, us))
  {
    hide Used, Gain;
    if us != [] {
      PaidAll(start, r, us[..|us| - 1]);
      PaidStep(start, r, UsedAll(start, r, us[..|us| - 1]), us[|us| - 1]);
    }
  }

  // In any window of n ticks, wherever it begins, no more than maximum + n * rate bytes are transferred.
  lemma WindowBound(start: Meter, r: Rate, us: seq<Use>)
    requires r.Proper() && start.Consistent(r)
    ensures var end := UsedAll(start, r, us);
            && start.clock <= end.clock
            && end.sent - start.sent <= r.maximum + r.rate * (end.clock - start.clock)
  {
    hide UsedAll;
    PaidAll(start, r, us);
    var end := UsedAll(start, r, us);
    if end.updatedAt >= start.clock {
      GainMonotone(r.rate, end.updatedAt - start.clock, end.clock - start.clock);
    }
    assert Gain(r.rate, end.clock - start.clock) == r.rate * (end.clock - start.clock);
    assert Gain(r.rate, end.clock - start.clock) >= 0;
    hide Gain;
  }

  // struct ev_token_bucket_cfg.
  datatype Cfg = Cfg(read: Rate, write: Rate) {
    predicate Proper() {
      read.Proper() && write.Proper()
    }
  }

  // struct ev_token_bucket.
  class TokenBucket {
    var readLimit: Ssize
    var writeLimit: Ssize
    var lastUpdated: Tick

    function Read(): Bucket
      reads this
    {
      Bucket(readLimit, lastUpdated)
    }

    function Write(): Bucket
      reads this
    {
      Bucket(writeLimit, lastUpdated)
    }

    ghost predicate Within(cfg: Cfg)
      reads this
    {
      readLimit <= cfg.read.maximum && writeLimit <= cfg.write.maximum
    }

    // ev_token_bucket_init_ for a new bucket.
    constructor (cfg: Cfg, currentTick: Tick)
      requires cfg.Proper()
      ensures readLimit == cfg.read.rate && writeLimit == cfg.write.rate && lastUpdated == currentTick
      ensures Within(cfg)
    {
      readLimit, writeLimit, lastUpdated := cfg.read.rate, cfg.write.rate, currentTick;
    }

    // A bucket of a struct that calloc has made.
    constructor Zero()
      ensures readLimit == writeLimit == 0 && lastUpdated == 0
    {
      readLimit, writeLimit, lastUpdated := 0, 0, 0;
    }

    // ev_token_bucket_init_ with or without reinitialize.
    method Init(cfg: Cfg, currentTick: Tick, reinitialize: bool)
      requires cfg.Proper()
      modifies this
      ensures if reinitialize then
                && readLimit == Min(old(readLimit), cfg.read.maximum)
                && writeLimit == Min(old(writeLimit), cfg.write.maximum) && lastUpdated == old(lastUpdated)
              else readLimit == cfg.read.rate && writeLimit == cfg.write.rate && lastUpdated == currentTick
      ensures Within(cfg)
    {
      if reinitialize {
        if readLimit > cfg.read.maximum {
          readLimit := cfg.read.maximum;
        }
        if writeLimit > cfg.write.maximum {
          writeLimit := cfg.write.maximum;
        }
      } else {
        readLimit, writeLimit, lastUpdated := cfg.read.rate, cfg.write.rate, currentTick;
      }
    }

    // ev_token_bucket_update_.
    method Update(cfg: Cfg, currentTick: Tick) returns (r: int)
      requires cfg.Proper()
      modifies this
      ensures Read() == Updated(old(Read()), cfg.read, currentTick)
      ensures Write() == Updated(old(Write()), cfg.write, currentTick)
      ensures r == if 0 < TicksSince(old(lastUpdated), currentTick) <= INT_MAX then 1 else 0
      ensures old(Within(cfg)) ==> Within(cfg) && readLimit >= old(readLimit) && writeLimit >= old(writeLimit)
    {
      var nTicks := TicksSince(lastUpdated, currentTick);
      UpdatedGrows(Read(), cfg.read, currentTick);
      UpdatedGrows(Write(), cfg.write, currentTick);
      if nTicks == 0 || nTicks > INT_MAX {
        return 0;
      }
      readLimit := Refilled(readLimit, cfg.read, nTicks);
      writeLimit := Refilled(writeLimit, cfg.write, nTicks);
      lastUpdated := currentTick;
      return 1;
    }
  }

  lemma UpdatedGrows(b: Bucket, r: Rate, current: Tick)
    requires r.Proper()
    ensures b.limit <= r.maximum ==> b.limit <= Updated(b, r, current).limit <= r.maximum
  {
    if b.limit <= r.maximum {
      UpdatedIs(b, r, current);
      hide Updated, Gain;
    }
  }
}
