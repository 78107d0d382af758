/**
  Suspending and resuming a bufferevent, and the rate limit of a single one
  (common/libevent/bufferevent.c and common/libevent/bufferevent_ratelim.c). Every method runs with
  the lock of the bufferevent held.
  */
module RateLimit {
  import opened Options
  import opened Sequences
  import opened TokenBuckets

  // The BEV_SUSPEND flags.
  datatype Reason = Wm | Bw | BwGroup | Lookup | FiltRead

  // What a bufferevent sees of its group, if it is in one, when a transfer is about to start: whether the
  // direction is suspended, what is in the bucket, how many members there are, and the least share of one.
  datatype GroupView = NoGroup | Group(suspended: bool, limit: Ssize, members: nat, minShare: Ssize) {
    // A group with a member has at least one.
    predicate Proper() {
      Group? ==> 0 < members <= INT_MAX
    }

    // What a member may transfer at most. C's division drops the remainder.
    function Share(): (n: Ssize)
      requires Group? && Proper()
    {
      var each: int := if limit >= 0 then Quotient(limit, members) else 0 - Quotient(0 - limit as int, members);
      if each < minShare then minShare else each
    }
  }

  function Quotient(n: nat, k: nat): (q: nat)
    requires k > 0
    ensures q <= n && Times(k, q) <= n < Times(k, q + 1)
  {
    var q := n / k;
    TimesMore(k, q);
    assert Times(k, q) == k * q && n == k * q + n % k;
    q
  }

  function Times(k: nat, q: nat): nat {
    k * q
  }

  lemma TimesMore(k: nat, q: nat)
    requires k > 0
    ensures Times(k, q + 1) == Times(k, q) + k && q <= Times(k, q)
  {
  }

  // Above the least share, the shares of all members together are no more than what is there.
  lemma SharesFit(group: GroupView)
    requires group.Group? && group.Proper() && group.limit >= 0 && group.Share() > group.minShare
    ensures group.members * group.Share() <= group.limit < group.members * (group.Share() + 1)
  {
    var n: int := group.Share();
    assert Times(group.members, n) == group.members * n && Times(group.members, n + 1) == group.members * (n + 1);
  }

  class Bufferevent {
    var enabledRead: bool
    var enabledWrite: bool
    // Whether the backend reads and writes.
    var reading: bool
    var writing: bool
    var readSuspended: set<Reason>
    var writeSuspended: set<Reason>
    // rate_limiting: null until a rate limit is first set.
    var limit: TokenBucket?
    var cfg: Option<Cfg>
    // refill_bucket_event is pending, or its callback has been started and waits for the lock.
    var timer: bool
    var firing: bool

    // The backend works exactly in the directions that are enabled and not suspended.
    ghost predicate BackendRight()
      reads this
    {
      && (reading <==> enabledRead && readSuspended == {})
      && (writing <==> enabledWrite && writeSuspended == {})
    }

    // A direction without bandwidth will be looked at again.
    ghost predicate Awaited()
      reads this
    {
      Bw in readSuspended || Bw in writeSuspended ==> cfg.Some? && (timer || firing)
    }

    ghost predicate Valid()
      reads this
    {
      && BackendRight() && Awaited()
      && (if cfg.Some? then limit != null && cfg.value.Proper() else !timer)
    }

    // A direction with an exhausted bucket is suspended.
    ghost predicate Charged()
      reads this, limit
    {
      cfg.Some? && limit != null ==>
        && limit.Within(cfg.value)
        && (limit.readLimit <= 0 ==> Bw in readSuspended)
        && (limit.writeLimit <= 0 ==> Bw in writeSuspended)
    }

    constructor ()
      ensures Valid() && Charged() && cfg == None && limit == null && !timer
      ensures !enabledRead && !enabledWrite && readSuspended == writeSuspended == {}
    {
      enabledRead, enabledWrite, reading, writing := false, false, false, false;
      readSuspended, writeSuspended := {}, {};
      limit, cfg, timer, firing := null, None, false, false;
    }

    // bufferevent_suspend_read_.
    method SuspendRead(what: Reason)
      requires BackendRight()
      modifies this`readSuspended, this`reading
      ensures BackendRight() && readSuspended == old(readSuspended) + {what}
    {
      if readSuspended == {} {
        reading := false;
      }
      readSuspended := readSuspended + {what};
    }

    // bufferevent_unsuspend_read_.
    method UnsuspendRead(what: Reason)
      requires BackendRight()
      modifies this`readSuspended, this`reading
      ensures BackendRight() && readSuspended == old(readSuspended) - {what}
    {
      readSuspended := readSuspended - {what};
      if readSuspended == {} && enabledRead {
        reading := true;
      }
    }

    // bufferevent_suspend_write_.
    method SuspendWrite(what: Reason)
      requires BackendRight()
      modifies this`writeSuspended, this`writing
      ensures BackendRight() && writeSuspended == old(writeSuspended) + {what}
    {
      if writeSuspended == {} {
        writing := false;
      }
      writeSuspended := writeSuspended + {what};
    }

    // bufferevent_unsuspend_write_.
    method UnsuspendWrite(what: Reason)
      requires BackendRight()
      modifies this`writeSuspended, this`writing
      ensures BackendRight() && writeSuspended == old(writeSuspended) - {what}
    {
      writeSuspended := writeSuspended - {what};
      if writeSuspended == {} && enabledWrite {
        writing := true;
      }
    }

    // bufferevent_enable.
    method Enable(read: bool, write: bool)
      requires BackendRight()
      modifies this`enabledRead, this`enabledWrite, this`reading, this`writing
      ensures BackendRight()
      ensures enabledRead == (old(enabledRead) || read) && enabledWrite == (old(enabledWrite) || write)
    {
      var implRead := read && readSuspended == {};
      var implWrite := write && writeSuspended == {};
      enabledRead, enabledWrite := enabledRead || read, enabledWrite || write;
      reading, writing := reading || implRead, writing || implWrite;
    }

    // bufferevent_disable.
    method Disable(read: bool, write: bool)
      requires BackendRight()
      modifies this`enabledRead, this`enabledWrite, this`reading, this`writing
      ensures BackendRight()
      ensures enabledRead == (old(enabledRead) && !read) && enabledWrite == (old(enabledWrite) && !write)
    {
      enabledRead, enabledWrite := enabledRead && !read, enabledWrite && !write;
      reading, writing := reading && !read, writing && !write;
    }

    // event_add on the refill event.
    method StartTimer()
      modifies this`timer
      ensures timer
    {
      timer := true;
    }

    // event_del on the refill event: a callback that waits for the lock may come all the same.
    method StopTimer()
      modifies this`timer, this`firing
      ensures !timer && (firing ==> old(firing))
    {
      timer := false;
      if * {
        firing := false;
      }
    }

    // The refill event goes off.
    method Fire()
      requires Valid() && timer
      modifies this`timer, this`firing
      ensures Valid() && firing && !timer
    {
      timer, firing := false, true;
    }

    // The part of bufferevent_add_to_rate_limit_group that makes room for rate limits.
    method JoinGroup()
      requires Valid()
      modifies this`limit
      ensures Valid() && limit != null && (old(Charged()) ==> Charged())
      ensures if old(limit) != null then limit == old(limit)
              else fresh(limit) && limit.Read() == limit.Write() == Bucket(0, 0)
    {
      if limit == null {
        limit := new TokenBucket.Zero();
      }
    }

    // bufferevent_get_rlim_max_ for reading, where maxSingle is max_single_read: without any rate limit that
    // much, and else the least of what the bucket holds (or that much, if there is no configuration) and the
    // share of the group, which is nothing if it is suspended. Never less than nothing.
    method GetReadMax(maxSingle: Ssize, currentTick: Tick, group: GroupView) returns (n: int)
      requires Valid() && group.Proper() && (group.Group? ==> limit != null)
      modifies this`readSuspended, this`reading, limit
      ensures Valid() && (old(Charged()) ==> Charged())
      ensures limit == null ==> n == maxSingle && readSuspended == old(readSuspended)
      ensures limit != null ==>
                var own := if cfg.Some? then limit.readLimit else maxSingle;
                n == if own <= 0 then 0
                     else match group
                          case NoGroup => own
                          case Group(suspended, _, _, _) => if suspended || group.Share() <= 0 then 0 else Min(own, group.Share())
      ensures readSuspended == old(readSuspended) + if group.Group? && group.suspended then {BwGroup} else {}
      ensures cfg.Some? ==> limit.Read() == Updated(old(limit.Read()), cfg.value.read, currentTick)
      ensures cfg.Some? ==> limit.Write() == Updated(old(limit.Write()), cfg.value.write, currentTick)
      ensures cfg.None? && limit != null ==> limit.Read() == old(limit.Read()) && limit.Write() == old(limit.Write())
    {
      var max := maxSingle;
      if limit == null {
        return max;
      }
      if cfg.Some? {
        var r := limit.Update(cfg.value, currentTick);
        max := limit.readLimit;
      }
      if group.Group? {
        var share := 0;
        if group.suspended {
          SuspendRead(BwGroup);
        } else {
          share := group.Share();
        }
        if max > share {
          max := share;
        }
      }
      n := if max < 0 then 0 else max;
    }

    // The same for writing, where maxSingle is max_single_write.
    method GetWriteMax(maxSingle: Ssize, currentTick: Tick, group: GroupView) returns (n: int)
      requires Valid() && group.Proper() && (group.Group? ==> limit != null)
      modifies this`writeSuspended, this`writing, limit
      ensures Valid() && (old(Charged()) ==> Charged())
      ensures limit == null ==> n == maxSingle && writeSuspended == old(writeSuspended)
      ensures limit != null ==>
                var own := if cfg.Some? then limit.writeLimit else maxSingle;
                n == if own <= 0 then 0
                     else match group
                          case NoGroup => own
                          case Group(suspended, _, _, _) => if suspended || group.Share() <= 0 then 0 else Min(own, group.Share())
      ensures writeSuspended == old(writeSuspended) + if group.Group? && group.suspended then {BwGroup} else {}
      ensures cfg.Some? ==> limit.Read() == Updated(old(limit.Read()), cfg.value.read, currentTick)
      ensures cfg.Some? ==> limit.Write() == Updated(old(limit.Write()), cfg.value.write, currentTick)
      ensures cfg.None? && limit != null ==> limit.Read() == old(limit.Read()) && limit.Write() == old(limit.Write())
    {
      var max := maxSingle;
      if limit == null {
        return max;
      }
      if cfg.Some? {
        var r := limit.Update(cfg.value, currentTick);
        max := limit.writeLimit;
      }
      if group.Group? {
        var share := 0;
        if group.suspended {
          SuspendWrite(BwGroup);
        } else {
          share := group.Share();
        }
        if max > share {
          max := share;
        }
      }
      n := if max < 0 then 0 else max;
    }

    // The single-bufferevent part of bufferevent_decrement_read_buckets_.
    method DecrementReadBuckets(bytes: int)
      requires Valid() && (cfg.Some? ==> -SSIZE_MAX - 1 <= limit.readLimit - bytes <= SSIZE_MAX)
      modifies this`readSuspended, this`reading, this`timer, this`firing, limit
      ensures Valid()
      ensures cfg.None? ==> readSuspended == old(readSuspended) && timer == old(timer)
      ensures cfg.Some? ==>
                && limit.Read() == old(limit.Read()).(limit := old(limit.readLimit) - bytes)
                && limit.Write() == old(limit.Write())
                && readSuspended == if limit.readLimit <= 0 then old(readSuspended) + {Bw} else old(readSuspended) - {Bw}
      ensures cfg.Some? ==>
                timer == if limit.readLimit <= 0 then true
                         else old(timer) && (Bw !in old(readSuspended) || Bw in writeSuspended)
      ensures old(Charged()) && (cfg.Some? ==> limit.readLimit <= cfg.value.read.maximum) ==> Charged()
    {
      if limit != null && cfg.Some? {
        limit.readLimit := limit.readLimit - bytes;
        if limit.readLimit <= 0 {
          SuspendRead(Bw);
          StartTimer();
        } else if Bw in readSuspended {
          if Bw !in writeSuspended {
            StopTimer();
          }
          UnsuspendRead(Bw);
        }
      }
    }

    // The single-bufferevent part of bufferevent_decrement_write_buckets_.
    method DecrementWriteBuckets(bytes: int)
      requires Valid() && (cfg.Some? ==> -SSIZE_MAX - 1 <= limit.writeLimit - bytes <= SSIZE_MAX)
      modifies this`writeSuspended, this`writing, this`timer, this`firing, limit
      ensures Valid()
      ensures cfg.None? ==> writeSuspended == old(writeSuspended) && timer == old(timer)
      ensures cfg.Some? ==>
                && limit.Write() == old(limit.Write()).(limit := old(limit.writeLimit) - bytes)
                && limit.Read() == old(limit.Read())
                && writeSuspended == if limit.writeLimit <= 0 then old(writeSuspended) + {Bw}
                                     else old(writeSuspended) - {Bw}
      ensures cfg.Some? ==>
                timer == if limit.writeLimit <= 0 then true
                         else old(timer) && (Bw !in old(writeSuspended) || Bw in readSuspended)
      ensures old(Charged()) && (cfg.Some? ==> limit.writeLimit <= cfg.value.write.maximum) ==> Charged()
    {
      if limit != null && cfg.Some? {
        limit.writeLimit := limit.writeLimit - bytes;
        if limit.writeLimit <= 0 {
          SuspendWrite(Bw);
          StartTimer();
        } else if Bw in writeSuspended {
          if Bw !in readSuspended {
            StopTimer();
          }
          UnsuspendWrite(Bw);
        }
      }
    }

    // bufferevent_decrement_read_limit: acts only when the limit crosses zero.
    method DecrementReadLimit(decr: int)
      requires Valid() && cfg.Some? && -SSIZE_MAX - 1 <= limit.readLimit - decr <= SSIZE_MAX
      modifies this`readSuspended, this`reading, this`timer, this`firing, limit
      ensures Valid()
      ensures limit.Read() == old(limit.Read()).(limit := old(limit.readLimit) - decr)
      ensures limit.Write() == old(limit.Write())
      ensures readSuspended == if old(limit.readLimit) > 0 && limit.readLimit <= 0 then old(readSuspended) + {Bw}
                               else if old(limit.readLimit) <= 0 && limit.readLimit > 0 then old(readSuspended) - {Bw}
                               else old(readSuspended)
      ensures timer == if old(limit.readLimit) > 0 && limit.readLimit <= 0 then true
                       else if old(limit.readLimit) <= 0 && limit.readLimit > 0 then old(timer) && Bw in writeSuspended
                       else old(timer)
      ensures old(Charged()) && limit.readLimit <= cfg.value.read.maximum ==> Charged()
    {
      var oldLimit := limit.readLimit;
      limit.readLimit := limit.readLimit - decr;
      if oldLimit > 0 && limit.readLimit <= 0 {
        SuspendRead(Bw);
        StartTimer();
      } else if oldLimit <= 0 && limit.readLimit > 0 {
        if Bw !in writeSuspended {
          StopTimer();
        }
        UnsuspendRead(Bw);
      }
    }

    // bufferevent_decrement_write_limit.
    method DecrementWriteLimit(decr: int)
      requires Valid() && cfg.Some? && -SSIZE_MAX - 1 <= limit.writeLimit - decr <= SSIZE_MAX
      modifies this`writeSuspended, this`writing, this`timer, this`firing, limit
      ensures Valid()
      ensures limit.Write() == old(limit.Write()).(limit := old(limit.writeLimit) - decr)
      ensures limit.Read() == old(limit.Read())
      ensures writeSuspended == if old(limit.writeLimit) > 0 && limit.writeLimit <= 0 then old(writeSuspended) + {Bw}
                                else if old(limit.writeLimit) <= 0 && limit.writeLimit > 0
                                then old(writeSuspended) - {Bw} else old(writeSuspended)
      ensures timer == if old(limit.writeLimit) > 0 && limit.writeLimit <= 0 then true
                       else if old(limit.writeLimit) <= 0 && limit.writeLimit > 0 then old(timer) && Bw in readSuspended
                       else old(timer)
      ensures old(Charged()) && limit.writeLimit <= cfg.value.write.maximum ==> Charged()
    {
      var oldLimit := limit.writeLimit;
      limit.writeLimit := limit.writeLimit - decr;
      if oldLimit > 0 && limit.writeLimit <= 0 {
        SuspendWrite(Bw);
        StartTimer();
      } else if oldLimit <= 0 && limit.writeLimit > 0 {
        if Bw !in readSuspended {
          StopTimer();
        }
        UnsuspendWrite(Bw);
      }
    }

    // bev_refill_callback_: refills the buckets, resumes what has bandwidth again, and waits for
    // the next tick if something has not.
    method RefillCallback(currentTick: Tick)
      requires Valid() && firing
      modifies this`readSuspended, this`reading, this`writeSuspended, this`writing
      modifies this`timer, this`firing, limit
      ensures Valid() && !firing
      ensures old(Charged()) ==> Charged()
      ensures cfg.Some? ==>
                && limit.Read() == Updated(old(limit.Read()), cfg.value.read, currentTick)
                && limit.Write() == Updated(old(limit.Write()), cfg.value.write, currentTick)
                && readSuspended == old(readSuspended) - (if limit.readLimit > 0 then {Bw} else {})
                && writeSuspended == old(writeSuspended) - (if limit.writeLimit > 0 then {Bw} else {})
                && timer == (old(timer) || Bw in readSuspended || Bw in writeSuspended)
      ensures cfg.None? ==>
                && readSuspended == old(readSuspended) && writeSuspended == old(writeSuspended) && timer == old(timer)
                && (limit != null ==> limit.Read() == old(limit.Read()) && limit.Write() == old(limit.Write()))
    {
      firing := false;
      if limit == null || cfg.None? {
        return;
      }
      var r := limit.Update(cfg.value, currentTick);
      var again := false;
      if Bw in readSuspended {
        if limit.readLimit > 0 {
          UnsuspendRead(Bw);
        } else {
          again := true;
        }
      }
      if Bw in writeSuspended {
        if limit.writeLimit > 0 {
          UnsuspendWrite(Bw);
        } else {
          again := true;
        }
      }
      if again {
        StartTimer();
      }
    }

    // bufferevent_set_rate_limit. A first configuration gives one tick's worth, and another one clips the limits
    // that are there; same says that an equal one is the very object that is in use, for which nothing is done.
    method SetRateLimit(newCfg: Option<Cfg>, same: bool, currentTick: Tick)
      requires Valid() && (newCfg.Some? ==> newCfg.value.Proper())
      modifies this`readSuspended, this`reading, this`writeSuspended, this`writing
      modifies this`timer, this`firing, this`limit, this`cfg, limit
      ensures Valid() && cfg == newCfg && (old(Charged()) ==> Charged())
      ensures limit == old(limit) || (old(limit) == null && fresh(limit))
      ensures newCfg.None? ==>
                && readSuspended == old(readSuspended) - {Bw} && writeSuspended == old(writeSuspended) - {Bw}
                && !timer && limit == old(limit)
                && (limit != null ==> limit.Read() == old(limit.Read()) && limit.Write() == old(limit.Write()))
      ensures newCfg.Some? ==>
                limit != null
                && if same && newCfg == old(cfg) then
                     && timer == old(timer) && readSuspended == old(readSuspended) && writeSuspended == old(writeSuspended)
                     && limit.Read() == old(limit.Read()) && limit.Write() == old(limit.Write())
                   else
                     && (if old(cfg).Some? then
                           && limit.readLimit == Min(old(limit.readLimit), newCfg.value.read.maximum)
                           && limit.writeLimit == Min(old(limit.writeLimit), newCfg.value.write.maximum)
                           && limit.lastUpdated == old(limit.lastUpdated)
                         else
                           && limit.readLimit == newCfg.value.read.rate && limit.writeLimit == newCfg.value.write.rate
                           && limit.lastUpdated == currentTick)
                     && timer == (limit.readLimit <= 0 || limit.writeLimit <= 0)
                     && readSuspended == (if limit.readLimit <= 0 then old(readSuspended) + {Bw} else old(readSuspended) - {Bw})
                     && writeSuspended == if limit.writeLimit <= 0 then old(writeSuspended) + {Bw} else old(writeSuspended) - {Bw}
      ensures newCfg.Some? && newCfg != old(cfg) ==> Charged()
    {
      if newCfg.None? {
        if limit != null {
          cfg := None;
          UnsuspendRead(Bw);
          UnsuspendWrite(Bw);
          StopTimer();
        }
        return;
      }
      if limit != null && same && cfg == newCfg {
        return;
      }
      var reinit := cfg.Some?;
      cfg := newCfg;
      if limit == null {
        limit := new TokenBucket(newCfg.value, currentTick);
      } else {
        limit.Init(newCfg.value, currentTick, reinit);
      }
      if reinit {
        StopTimer();
      }
      var suspended := ApplyLimits();
      if suspended {
        StartTimer();
      }
    }

    // The part of bufferevent_set_rate_limit that suspends or resumes each direction.
    method ApplyLimits() returns (suspended: bool)
      requires BackendRight() && limit != null
      modifies this`readSuspended, this`reading, this`writeSuspended, this`writing
      ensures BackendRight() && suspended == (limit.readLimit <= 0 || limit.writeLimit <= 0)
      ensures readSuspended == old(readSuspended) - {Bw} + (if limit.readLimit > 0 then {} else {Bw})
      ensures writeSuspended == old(writeSuspended) - {Bw} + (if limit.writeLimit > 0 then {} else {Bw})
    {
      suspended := false;
      if limit.readLimit > 0 {
        UnsuspendRead(Bw);
      } else {
        SuspendRead(Bw);
        suspended := true;
      }
      if limit.writeLimit > 0 {
        UnsuspendWrite(Bw);
      } else {
        SuspendWrite(Bw);
        suspended := true;
      }
    }
  }

  // One call, or one expiry of the refill timer.
  datatype Call =
    | CallSetRateLimit(cfg: Option<Cfg>, same: bool, tick: Tick)
    | CallEnable(read: bool, write: bool)
    | CallDisable(read: bool, write: bool)
    | CallSuspend(onRead: bool, what: Reason)
    | CallUnsuspend(onRead: bool, what: Reason)
    | CallJoinGroup
    | CallGetMax(onRead: bool, maxSingle: Ssize, tick: Tick, group: GroupView)
    | CallDecrementBuckets(onRead: bool, bytes: int)
    | CallDecrementLimit(onRead: bool, bytes: int)
    | TimerFires
    | TimerCallback(tick: Tick)

  // Only the rate limiter suspends for bandwidth, and configurations are proper.
  predicate Sensible(c: Call) {
    match c
    case CallSetRateLimit(cfg, _, _) => cfg.Some? ==> cfg.value.Proper()
    case CallSuspend(_, what) => what != Bw
    case CallUnsuspend(_, what) => what != Bw
    case _ => true
  }

  // The buckets can take a charge or refund: it neither leaves the range of a limit nor lifts it
  // above the maximum (see RefundWraps).
  predicate Fits(b: Bufferevent, onRead: bool, bytes: int)
    requires b.Valid()
    reads b, b.limit
  {
    b.cfg.Some? ==>
      var limit := if onRead then b.limit.readLimit else b.limit.writeLimit;
      var maximum := if onRead then b.cfg.value.read.maximum else b.cfg.value.write.maximum;
      -SSIZE_MAX - 1 <= limit - bytes <= maximum
  }

  // What a bufferevent looks like from outside: the buckets are there once a rate limit or a group was set.
  datatype View = View(enabledRead: bool, enabledWrite: bool, readSuspended: set<Reason>, writeSuspended: set<Reason>,
                       cfg: Option<Cfg>, buckets: Option<(Bucket, Bucket)>, timer: bool)

  ghost function Seen(b: Bufferevent): View
    reads b, b.limit
  {
    View(b.enabledRead, b.enabledWrite, b.readSuspended, b.writeSuspended, b.cfg,
         if b.limit == null then None else Some((b.limit.Read(), b.limit.Write())), b.timer)
  }

  // The reasons with or without the one for bandwidth, for a bucket that was charged or refilled.
  function WithBw(why: set<Reason>, limit: int): set<Reason> {
    if limit <= 0 then why + {Bw} else why - {Bw}
  }

  // A first configuration gives one tick's worth; another one takes away what is above its maximum.
  function Configured(v: View, cfg: Cfg, tick: Tick): View
    requires cfg.Proper()
  {
    var (r, w) := match (v.cfg, v.buckets)
                  case (Some(_), Some((r, w))) =>
                    (r.(limit := Min(r.limit, cfg.read.maximum)), w.(limit := Min(w.limit, cfg.write.maximum)))
                  case _ => (Bucket(cfg.read.rate, tick), Bucket(cfg.write.rate, tick));
    v.(cfg := Some(cfg), buckets := Some((r, w)), timer := r.limit <= 0 || w.limit <= 0,
       readSuspended := WithBw(v.readSuspended, r.limit), writeSuspended := WithBw(v.writeSuspended, w.limit))
  }

  // Both buckets after an update.
  function Refreshed(v: View, tick: Tick): View
    requires v.cfg.Some? ==> v.cfg.value.Proper()
  {
    match (v.cfg, v.buckets)
    case (Some(c), Some((r, w))) => v.(buckets := Some((Updated(r, c.read, tick), Updated(w, c.write, tick))))
    case _ => v
  }

  // The first bucket of a pair of directions is charged: suspended if it is exhausted, and resumed if not. The
  // refill is not waited for any more if nothing needs it.
  function Charged(why: set<Reason>, other: set<Reason>, limit: int, timer: bool): (set<Reason>, bool) {
    (WithBw(why, limit), limit <= 0 || (timer && (Bw !in why || Bw in other)))
  }

  predicate InRange(limit: int, bytes: int, maximum: int) {
    -SSIZE_MAX - 1 <= limit - bytes <= maximum
  }

  // Bytes were transferred; crossing says that only a limit that crosses zero is acted on.
  function SpentReading(v: View, bytes: int, crossing: bool): View
    requires v.cfg.Some? ==> v.cfg.value.Proper()
  {
    match (v.cfg, v.buckets)
    case (Some(c), Some((r, w))) =>
      if !InRange(r.limit, bytes, c.read.maximum) then v
      else
        var limit: Ssize := r.limit - bytes;
        var (why, timer) := Charged(v.readSuspended, v.writeSuspended, limit, v.timer);
        var v' := v.(buckets := Some((r.(limit := limit), w)));
        if crossing && (r.limit > 0 <==> limit > 0) then v' else v'.(readSuspended := why, timer := timer)
    case _ => v
  }

  function SpentWriting(v: View, bytes: int, crossing: bool): View
    requires v.cfg.Some? ==> v.cfg.value.Proper()
  {
    match (v.cfg, v.buckets)
    case (Some(c), Some((r, w))) =>
      if !InRange(w.limit, bytes, c.write.maximum) then v
      else
        var limit: Ssize := w.limit - bytes;
        var (why, timer) := Charged(v.writeSuspended, v.readSuspended, limit, v.timer);
        var v' := v.(buckets := Some((r, w.(limit := limit))));
        if crossing && (w.limit > 0 <==> limit > 0) then v' else v'.(writeSuspended := why, timer := timer)
    case _ => v
  }

  // The refill callback: what can be spent again is resumed, and the timer runs for what cannot.
  function CalledBack(v: View, tick: Tick): View
    requires v.cfg.Some? ==> v.cfg.value.Proper()
  {
    var n := Refreshed(v, tick);
    match (n.cfg, n.buckets)
    case (Some(_), Some((r, w))) =>
      var rs := if r.limit > 0 then n.readSuspended - {Bw} else n.readSuspended;
      var ws := if w.limit > 0 then n.writeSuspended - {Bw} else n.writeSuspended;
      n.(readSuspended := rs, writeSuspended := ws, timer := n.timer || Bw in rs || Bw in ws)
    case _ => v
  }

  // What a call does to all that. taken says that a callback was waiting.
  function Applied(c: Call, taken: bool, v: View): (r: View)
    requires Sensible(c) && (v.cfg.Some? ==> v.cfg.value.Proper())
    ensures r.cfg.Some? ==> r.cfg.value.Proper()
  {
    match c
    case CallSetRateLimit(cfg, same, tick) =>
      if cfg.None? then
        v.(cfg := None, timer := false, readSuspended := v.readSuspended - {Bw}, writeSuspended := v.writeSuspended - {Bw})
      else if same && v.cfg == cfg then v
      else Configured(v, cfg.value, tick)
    case CallJoinGroup => if v.buckets.None? then v.(buckets := Some((Bucket(0, 0), Bucket(0, 0)))) else v
    case CallEnable(read, write) => v.(enabledRead := v.enabledRead || read, enabledWrite := v.enabledWrite || write)
    case CallDisable(read, write) => v.(enabledRead := v.enabledRead && !read, enabledWrite := v.enabledWrite && !write)
    case CallSuspend(onRead, what) =>
      if onRead then v.(readSuspended := v.readSuspended + {what}) else v.(writeSuspended := v.writeSuspended + {what})
    case CallUnsuspend(onRead, what) =>
      if onRead then v.(readSuspended := v.readSuspended - {what}) else v.(writeSuspended := v.writeSuspended - {what})
    case CallGetMax(onRead, _, tick, group) =>
      if !group.Proper() || (group.Group? && v.buckets.None?) then v
      else
        var n := Refreshed(v, tick);
        if !(group.Group? && group.suspended) then n
        else if onRead then n.(readSuspended := n.readSuspended + {BwGroup})
        else n.(writeSuspended := n.writeSuspended + {BwGroup})
    case CallDecrementBuckets(onRead, bytes) => if onRead then SpentReading(v, bytes, false) else SpentWriting(v, bytes, false)
    case CallDecrementLimit(onRead, bytes) => if onRead then SpentReading(v, bytes, true) else SpentWriting(v, bytes, true)
    case TimerFires => v.(timer := false)
    case TimerCallback(tick) => if taken then CalledBack(v, tick) else v
  }

  method Apply(b: Bufferevent, c: Call) returns (taken: bool)
    requires b.Valid() && b.Charged() && Sensible(c)
    modifies b, b.limit
    ensures b.Valid() && b.Charged() && taken == old(b.firing)
    ensures Seen(b) == Applied(c, taken, old(Seen(b)))
    ensures b.limit == old(b.limit) || fresh(b.limit)
  {
    hide Updated, Configured, SpentReading, SpentWriting, Refreshed, CalledBack, Bufferevent.Charged;
    taken := b.firing;
    match c
    case CallSetRateLimit(cfg, same, tick) => ApplyConfiguration(b, cfg, same, tick);
    case CallJoinGroup => ApplyJoin(b);
    case CallEnable(read, write) => ApplyEnabling(b, read, write, true);
    case CallDisable(read, write) => ApplyEnabling(b, read, write, false);
    case CallSuspend(onRead, what) => ApplySuspension(b, onRead, what, true);
    case CallUnsuspend(onRead, what) => ApplySuspension(b, onRead, what, false);
    case CallGetMax(onRead, maxSingle, tick, group) => ApplyMax(b, onRead, maxSingle, tick, group);
    case CallDecrementBuckets(onRead, bytes) => ApplyDecrement(b, onRead, bytes, false);
    case CallDecrementLimit(onRead, bytes) => ApplyDecrement(b, onRead, bytes, true);
    case TimerFires => ApplyTimer(b);
    case TimerCallback(tick) => ApplyCallback(b, tick);
  }

  method ApplyConfiguration(b: Bufferevent, cfg: Option<Cfg>, same: bool, tick: Tick)
    requires b.Valid() && b.Charged() && (cfg.Some? ==> cfg.value.Proper())
    modifies b, b.limit
    ensures b.Valid() && b.Charged() && (b.limit == old(b.limit) || fresh(b.limit))
    ensures Seen(b) == Applied(CallSetRateLimit(cfg, same, tick), false, old(Seen(b)))
  {
    b.SetRateLimit(cfg, same, tick);
  }

  method ApplyJoin(b: Bufferevent)
    requires b.Valid() && b.Charged()
    modifies b, b.limit
    ensures b.Valid() && b.Charged() && (b.limit == old(b.limit) || fresh(b.limit))
    ensures Seen(b) == Applied(CallJoinGroup, false, old(Seen(b)))
  {
    b.JoinGroup();
  }

  method ApplyEnabling(b: Bufferevent, read: bool, write: bool, on: bool)
    requires b.Valid() && b.Charged()
    modifies b
    ensures b.Valid() && b.Charged() && b.limit == old(b.limit)
    ensures Seen(b) == Applied(if on then CallEnable(read, write) else CallDisable(read, write), false, old(Seen(b)))
  {
    if on {
      b.Enable(read, write);
    } else {
      b.Disable(read, write);
    }
  }

  method ApplySuspension(b: Bufferevent, onRead: bool, what: Reason, on: bool)
    requires b.Valid() && b.Charged() && what != Bw
    modifies b
    ensures b.Valid() && b.Charged() && b.limit == old(b.limit)
    ensures Seen(b) == Applied(if on then CallSuspend(onRead, what) else CallUnsuspend(onRead, what), false, old(Seen(b)))
  {
    if on {
      if onRead {
        b.SuspendRead(what);
      } else {
        b.SuspendWrite(what);
      }
    } else {
      if onRead {
        b.UnsuspendRead(what);
      } else {
        b.UnsuspendWrite(what);
      }
    }
  }

  method ApplyMax(b: Bufferevent, onRead: bool, maxSingle: Ssize, tick: Tick, group: GroupView)
    requires b.Valid() && b.Charged()
    modifies b, b.limit
    ensures b.Valid() && b.Charged() && b.limit == old(b.limit)
    ensures Seen(b) == Applied(CallGetMax(onRead, maxSingle, tick, group), false, old(Seen(b)))
  {
    hide Updated;
    if group.Proper() && (group.Group? ==> b.limit != null) {
      if onRead {
        var n := b.GetReadMax(maxSingle, tick, group);
      } else {
        var n := b.GetWriteMax(maxSingle, tick, group);
      }
    }
  }

  // The four ways to charge a bucket.
  method ApplyDecrement(b: Bufferevent, onRead: bool, bytes: int, crossing: bool)
    requires b.Valid() && b.Charged()
    modifies b, b.limit
    ensures b.Valid() && b.Charged() && b.limit == old(b.limit)
    ensures var c := if crossing then CallDecrementLimit(onRead, bytes) else CallDecrementBuckets(onRead, bytes);
            Seen(b) == Applied(c, false, old(Seen(b)))
  {
    if onRead {
      DecrementReading(b, bytes, crossing);
    } else {
      DecrementWriting(b, bytes, crossing);
    }
  }

  method DecrementReading(b: Bufferevent, bytes: int, crossing: bool)
    requires b.Valid() && b.Charged()
    modifies b, b.limit
    ensures b.Valid() && b.Charged() && b.limit == old(b.limit)
    ensures Seen(b) == SpentReading(old(Seen(b)), bytes, crossing)
  {
    if b.cfg.Some? && Fits(b, true, bytes) {
      if crossing {
        b.DecrementReadLimit(bytes);
      } else {
        b.DecrementReadBuckets(bytes);
      }
    }
  }

  method DecrementWriting(b: Bufferevent, bytes: int, crossing: bool)
    requires b.Valid() && b.Charged()
    modifies b, b.limit
    ensures b.Valid() && b.Charged() && b.limit == old(b.limit)
    ensures Seen(b) == SpentWriting(old(Seen(b)), bytes, crossing)
  {
    if b.cfg.Some? && Fits(b, false, bytes) {
      if crossing {
        b.DecrementWriteLimit(bytes);
      } else {
        b.DecrementWriteBuckets(bytes);
      }
    }
  }

  method ApplyTimer(b: Bufferevent)
    requires b.Valid() && b.Charged()
    modifies b
    ensures b.Valid() && b.Charged() && b.limit == old(b.limit)
    ensures Seen(b) == Applied(TimerFires, false, old(Seen(b)))
  {
    if b.timer {
      b.Fire();
    }
  }

  method ApplyCallback(b: Bufferevent, tick: Tick)
    requires b.Valid() && b.Charged()
    modifies b, b.limit
    ensures b.Valid() && b.Charged() && b.limit == old(b.limit)
    ensures Seen(b) == Applied(TimerCallback(tick), old(b.firing), old(Seen(b)))
  {
    hide Updated;
    if b.firing {
      b.RefillCallback(tick);
    }
  }

  // Calls one after the other.
  function Replay(cs: seq<Call>, taken: seq<bool>, v: View): (r: View)
    requires |taken| == |cs| && (forall c <- cs :: Sensible(c)) && (v.cfg.Some? ==> v.cfg.value.Proper())
    ensures r.cfg.Some? ==> r.cfg.value.Proper()
  {
    if cs == [] then v
    else
      assert cs[|cs| - 1] in cs && forall c <- cs[..|cs| - 1] :: c in cs;
      Applied(cs[|cs| - 1], taken[|cs| - 1], Replay(cs[..|cs| - 1], taken[..|cs| - 1], v))
  }

  lemma ReplayMore(cs: seq<Call>, i: nat, taken: seq<bool>, t: bool)
    requires i < |cs| && |taken| == i && forall c <- cs :: Sensible(c)
    ensures Replay(cs[..i + 1], taken + [t], UNLIMITED) == Applied(cs[i], t, Replay(cs[..i], taken, UNLIMITED))
  {
    hide Applied;
    assert cs[..i + 1][..i] == cs[..i] && (taken + [t])[..i] == taken;
  }

  const UNLIMITED: View := View(false, false, {}, {}, None, None, false)

  // Over every run: the backend works exactly where it is enabled and not suspended, an exhausted
  // bucket suspends its direction, what waits for bandwidth waits for the refill timer, and what can be seen is
  // what the calls make of it.
  method Run(cs: seq<Call>) returns (b: Bufferevent, taken: seq<bool>)
    requires forall c <- cs :: Sensible(c)
    ensures b.Valid() && b.Charged()
    ensures |taken| == |cs| && Seen(b) == Replay(cs, taken, UNLIMITED)
  {
    b := new Bufferevent();
    taken := [];
    for i := 0 to |cs|
      invariant b.Valid() && b.Charged() && fresh(b) && (b.limit != null ==> fresh(b.limit))
      invariant |taken| == i && Seen(b) == Replay(cs[..i], taken, UNLIMITED)
    {
      var t := Apply(b, cs[i]);
      ReplayMore(cs, i, taken, t);
      taken := taken + [t];
    }
    assert cs[..|cs|] == cs;
  }
}
