/**
  Rate-limit groups shared by threads (common/libevent/bufferevent_ratelim.c): the lock of a group
  nests inside the locks of its members, so whoever suspends or resumes the members can only try
  their locks. Reading and writing are alike; this is one direction.
  */
module GroupProtocol {
  import opened Options

  // A bufferevent: who holds its lock, its group, and whether BEV_SUSPEND_BW_GROUP is set.
  datatype Bev = Bev(owner: Option<nat>, group: Option<nat>, bit: bool, dead: bool)

  // A struct bufferevent_rate_limit_group.
  datatype Group = Group(owner: Option<nat>, suspended: bool, pending: bool, limit: int, minShare: nat,
                         members: seq<nat>)

  // What a thread does with a bufferevent whose lock it takes. Charge is the group part of
  // bufferevent_decrement_read_buckets_, Check that of bufferevent_get_rlim_max_; start is the
  // random place where a loop over the members begins.
  datatype Op = Join(g: nat) | Leave | Destroy | Check | Charge(bytes: int, start: nat)

  // Where a thread is.
  datatype Pc =
    | Idle
    // It holds the lock of b, and is about to take that of a group.
    | Has(b: nat, op: Op)
    // It put b into group g, and is about to suspend b if it saw the group suspended.
    | Joined(b: nat, g: nat, saw: bool)
    // It took b out of its group, and is about to resume it; then it may join another group.
    | Left(b: nat, next: Option<nat>)
    // It holds the lock of group g, and perhaps that of one member, in a loop over the members.
    | Sweep(g: nat, held: Option<nat>, suspending: bool, todo: seq<nat>, again: bool)
  {
    // The bufferevent whose lock is held.
    function HeldLock(): Option<nat> {
      match this
      case Idle => None
      case Has(b, _) => Some(b)
      case Joined(b, _, _) => Some(b)
      case Left(b, _) => Some(b)
      case Sweep(_, held, _, _, _) => held
    }
  }

  datatype State = State(bevs: seq<Bev>, groups: seq<Group>, threads: seq<Pc>)

  // Lock takes the lock of a bufferevent; Go is the part under the lock of a group; Work is what
  // comes next. Decrement is bufferevent_rate_limit_group_decrement_read, Refill
  // bev_group_refill_callback_ with the limit after the refill, and SetMinShare
  // bufferevent_rate_limit_group_set_min_share, which takes no lock.
  datatype Action =
    | Lock(b: nat, op: Op)
    | Go
    | Work
    | Decrement(g: nat, bytes: int, start: nat)
    | Refill(g: nat, limit: int, start: nat)
    | SetMinShare(g: nat, share: nat)

  function SetBev(s: State, b: nat, bev: Bev): State
    requires b < |s.bevs|
  {
    s.(bevs := s.bevs[b := bev])
  }

  function SetGroup(s: State, g: nat, group: Group): State
    requires g < |s.groups|
  {
    s.(groups := s.groups[g := group])
  }

  function SetPc(s: State, t: nat, pc: Pc): State
    requires t < |s.threads|
  {
    s.(threads := s.threads[t := pc])
  }

  // The members from a random place on, and then those before it.
  function Rotated(members: seq<nat>, start: nat): seq<nat> {
    var k := if members == [] then 0 else start % |members|;
    members[k..] + members[..k]
  }

  function AllBut(members: seq<nat>, b: nat): (r: seq<nat>)
    ensures forall c :: c in r <==> c in members && c != b
  {
    if members == [] then []
    else if members[0] == b then AllBut(members[1..], b)
    else [members[0]] + AllBut(members[1..], b)
  }

  // The beginnings of bev_group_suspend_reading_ and bev_group_unsuspend_reading_, for a thread
  // that may hold the lock of one member.
  function StartSuspend(s: State, t: nat, g: nat, limit: int, held: Option<nat>): State
    requires t < |s.threads| && g < |s.groups|
  {
    var group := s.groups[g];
    SetPc(SetGroup(s, g, group.(owner := Some(t), limit := limit, suspended := true, pending := false)),
          t, Sweep(g, held, true, group.members, false))
  }

  function StartUnsuspend(s: State, t: nat, g: nat, limit: int, held: Option<nat>, start: nat): State
    requires t < |s.threads| && g < |s.groups|
  {
    var group := s.groups[g];
    SetPc(SetGroup(s, g, group.(owner := Some(t), limit := limit, suspended := false)),
          t, Sweep(g, held, false, Rotated(group.members, start), false))
  }

  function Unlock(s: State, t: nat, b: nat, bev: Bev): State
    requires t < |s.threads| && b < |s.bevs|
  {
    SetPc(SetBev(s, b, bev.(owner := None)), t, Idle)
  }

  // Take b out of its group g.
  function TakeOut(s: State, t: nat, b: nat, g: nat, bev: Bev, pc: Pc): State
    requires t < |s.threads| && b < |s.bevs| && g < |s.groups|
  {
    var group := s.groups[g];
    SetPc(SetGroup(SetBev(s, b, bev), g, group.(members := AllBut(group.members, b))), t, pc)
  }

  // The part of an operation under the lock of a group; a thread that must wait stays where it is.
  function Proceed(s: State, t: nat, b: nat, op: Op): State
    requires t < |s.threads| && b < |s.bevs|
  {
    var bev := s.bevs[b];
    match (op, bev.group)
    case (Join(g), None) =>
      if g >= |s.groups| || s.groups[g].owner.Some? then s
      else
        var group := s.groups[g];
        SetPc(SetGroup(SetBev(s, b, bev.(group := Some(g))), g, group.(members := [b] + group.members)),
              t, Joined(b, g, group.suspended))
    case (Join(g), Some(h)) =>
      if g == h then Unlock(s, t, b, bev)
      else if h >= |s.groups| || s.groups[h].owner.Some? then s
      else TakeOut(s, t, b, h, bev.(group := None), Left(b, Some(g)))
    case (Leave, None) => SetPc(s, t, Left(b, None))
    case (Leave, Some(h)) =>
      if h >= |s.groups| || s.groups[h].owner.Some? then s
      else TakeOut(s, t, b, h, bev.(group := None), Left(b, None))
    case (Destroy, None) => Unlock(s, t, b, bev.(dead := true))
    case (Destroy, Some(h)) =>
      if h >= |s.groups| || s.groups[h].owner.Some? then s
      else TakeOut(s, t, b, h, bev.(group := None, dead := true, owner := None), Idle)
    case (Check, None) => Unlock(s, t, b, bev)
    case (Check, Some(h)) =>
      if h >= |s.groups| || s.groups[h].owner.Some? then s
      else Unlock(s, t, b, if s.groups[h].suspended then bev.(bit := true) else bev)
    case (Charge(_, _), None) => Unlock(s, t, b, bev)
    case (Charge(bytes, start), Some(h)) =>
      if h >= |s.groups| || s.groups[h].owner.Some? then s
      else
        var limit := s.groups[h].limit - bytes;
        if limit <= 0 then StartSuspend(s, t, h, limit, Some(b))
        else if s.groups[h].suspended then StartUnsuspend(s, t, h, limit, Some(b), start)
        else Unlock(SetGroup(s, h, s.groups[h].(limit := limit)), t, b, bev)
  }

  // One member of a loop: its lock is tried, which succeeds if nobody or this thread holds it. After
  // the last member the locks are released.
  function Swept(s: State, t: nat, pc: Pc): State
    requires t < |s.threads| && pc.Sweep? && pc.g < |s.groups|
  {
    if pc.todo != [] then
      var b := pc.todo[0];
      var next := pc.(todo := pc.todo[1..]);
      if b < |s.bevs| && (s.bevs[b].owner == None || s.bevs[b].owner == Some(t)) then
        SetPc(SetBev(s, b, s.bevs[b].(bit := pc.suspending)), t, next)
      else
        SetPc(s, t, if pc.suspending then next else next.(again := true))
    else
      var group := s.groups[pc.g].(owner := None);
      var r := SetGroup(s, pc.g, if pc.suspending then group else group.(pending := pc.again));
      if pc.held.Some? && pc.held.value < |s.bevs| then Unlock(r, t, pc.held.value, s.bevs[pc.held.value])
      else SetPc(r, t, Idle)
  }

  // One step of thread t. An action that cannot be taken changes nothing.
  function Next(s: State, t: nat, a: Action): State
    requires t < |s.threads|
  {
    match (a, s.threads[t])
    case (Lock(b, op), Idle) =>
      if b < |s.bevs| && s.bevs[b].owner == None && !s.bevs[b].dead then
        SetPc(SetBev(s, b, s.bevs[b].(owner := Some(t))), t, Has(b, op))
      else s
    case (Go, Has(b, op)) => if b < |s.bevs| then Proceed(s, t, b, op) else s
    case (Work, Joined(b, g, saw)) =>
      if b < |s.bevs| then Unlock(s, t, b, if saw then s.bevs[b].(bit := true) else s.bevs[b]) else s
    case (Work, Left(b, next)) =>
      if b >= |s.bevs| then s
      else if next.None? then Unlock(s, t, b, s.bevs[b].(bit := false))
      else SetPc(SetBev(s, b, s.bevs[b].(bit := false)), t, Has(b, Join(next.value)))
    case (Work, Sweep(g, _, _, _, _)) => if g < |s.groups| then Swept(s, t, s.threads[t]) else s
    case (Decrement(g, bytes, start), Idle) =>
      if g >= |s.groups| || s.groups[g].owner.Some? then s
      else
        var was, limit := s.groups[g].limit, s.groups[g].limit - bytes;
        if was > 0 && limit <= 0 then StartSuspend(s, t, g, limit, None)
        else if was <= 0 && limit > 0 then StartUnsuspend(s, t, g, limit, None, start)
        else SetGroup(s, g, s.groups[g].(limit := limit))
    case (Refill(g, limit, start), Idle) =>
      if g >= |s.groups| || s.groups[g].owner.Some? || limit < s.groups[g].limit then s
      else if s.groups[g].pending || (s.groups[g].suspended && limit >= s.groups[g].minShare) then
        StartUnsuspend(s, t, g, limit, None, start)
      else SetGroup(s, g, s.groups[g].(limit := limit))
    case (SetMinShare(g, share), Idle) =>
      if g < |s.groups| then SetGroup(s, g, s.groups[g].(minShare := share)) else s
    case _ => s
  }

  // The thread that resumes the members of group g, if there is one.
  predicate Resuming(s: State, g: nat)
    requires g < |s.groups|
  {
    match s.groups[g].owner
    case Some(t) => t < |s.threads| && s.threads[t].Sweep? && !s.threads[t].suspending
    case None => false
  }

  // Why a member of group g may be, or soon be, suspended: the group is, or someone is or will be
  // there to resume it.
  predicate Covered(s: State, g: nat, b: nat)
    requires g < |s.groups|
  {
    if Resuming(s, g) then
      var pc := s.threads[s.groups[g].owner.value];
      pc.again || b in pc.todo
    else s.groups[g].suspended || s.groups[g].pending
  }

  // The thread that holds the lock of b is about to suspend it.
  predicate AboutToSuspend(s: State, b: nat)
    requires b < |s.bevs|
  {
    match s.bevs[b].owner
    case Some(t) => t < |s.threads| && s.threads[t].Joined? && s.threads[t].b == b && s.threads[t].saw
    case None => false
  }

  predicate Resumes(s: State, b: nat)
    requires b < |s.bevs|
  {
    match s.bevs[b].owner
    case Some(t) => t < |s.threads| && s.threads[t].Left? && s.threads[t].b == b
    case None => false
  }

  predicate BevOk(s: State, b: nat)
    requires b < |s.bevs|
  {
    var bev := s.bevs[b];
    && (bev.owner.Some? ==> bev.owner.value < |s.threads| && s.threads[bev.owner.value].HeldLock() == Some(b) && !bev.dead)
    && match bev.group
       case None => bev.bit ==> bev.dead || Resumes(s, b)
       case Some(g) =>
         && g < |s.groups| && b in s.groups[g].members && !bev.dead
         && (bev.bit || AboutToSuspend(s, b) ==> Covered(s, g, b))
  }

  predicate ThreadOk(s: State, t: nat)
    requires t < |s.threads|
  {
    var pc := s.threads[t];
    && (pc.HeldLock().Some? ==> pc.HeldLock().value < |s.bevs| && s.bevs[pc.HeldLock().value].owner == Some(t))
    && match pc
       case Joined(b, g, _) => s.bevs[b].group == Some(g)
       case Left(b, _) => s.bevs[b].group == None
       case Sweep(g, _, suspending, todo, _) =>
         && g < |s.groups| && s.groups[g].owner == Some(t)
         && (if suspending then s.groups[g].suspended && !s.groups[g].pending else !s.groups[g].suspended)
         && forall b <- todo :: b in s.groups[g].members
       case _ => true
  }

  predicate GroupOk(s: State, g: nat)
    requires g < |s.groups|
  {
    var group := s.groups[g];
    && (group.owner.Some? ==>
          && group.owner.value < |s.threads|
          && s.threads[group.owner.value].Sweep? && s.threads[group.owner.value].g == g)
    && (group.pending ==> !group.suspended)
    && forall b <- group.members :: b < |s.bevs| && s.bevs[b].group == Some(g)
  }

  ghost predicate Inv(s: State) {
    && (forall b :: 0 <= b < |s.bevs| ==> BevOk(s, b))
    && (forall t :: 0 <= t < |s.threads| ==> ThreadOk(s, t))
    && (forall g :: 0 <= g < |s.groups| ==> GroupOk(s, g))
  }

  lemma LockKeeps(s: State, t: nat, b: nat, op: Op)
    requires Inv(s) && t < |s.threads| && s.threads[t].Idle?
    ensures Inv(Next(s, t, Lock(b, op)))
  {
    var r := Next(s, t, Lock(b, op));
    forall c | 0 <= c < |r.bevs|
      ensures BevOk(r, c)
    {
      assert BevOk(s, c);
    }
    forall u | 0 <= u < |r.threads|
      ensures ThreadOk(r, u)
    {
      assert ThreadOk(s, u);
    }
    forall g | 0 <= g < |r.groups|
      ensures GroupOk(r, g)
    {
      assert GroupOk(s, g);
    }
  }

  lemma JoinKeeps(s: State, t: nat, b: nat, g: nat)
    requires Inv(s) && t < |s.threads| && b < |s.bevs| && s.threads[t] == Has(b, Join(g)) && s.bevs[b].group == None
    ensures Inv(Next(s, t, Go))
  {
    var r := Next(s, t, Go);
    assert BevOk(s, b) && ThreadOk(s, t);
    forall c | 0 <= c < |r.bevs|
      ensures BevOk(r, c)
    {
      assert BevOk(s, c);
    }
    forall u | 0 <= u < |r.threads|
      ensures ThreadOk(r, u)
    {
      assert ThreadOk(s, u);
    }
    forall h | 0 <= h < |r.groups|
      ensures GroupOk(r, h)
    {
      assert GroupOk(s, h);
    }
  }

  // Out of the group without waiting for the resuming part.
  lemma TakeOutKeeps(s: State, t: nat, b: nat, g: nat, bev: Bev, pc: Pc)
    requires Inv(s) && t < |s.threads| && b < |s.bevs| && g < |s.groups|
    requires s.threads[t].Has? && s.threads[t].b == b && s.bevs[b].group == Some(g) && s.groups[g].owner == None
    requires bev.group == None && bev.bit == s.bevs[b].bit
    requires if pc == Idle then bev.dead && bev.owner == None
             else pc.Left? && pc.b == b && bev.owner == Some(t) && !bev.dead
    ensures Inv(TakeOut(s, t, b, g, bev, pc))
  {
    var r := TakeOut(s, t, b, g, bev, pc);
    assert BevOk(s, b) && ThreadOk(s, t);
    forall c | 0 <= c < |r.bevs|
      ensures BevOk(r, c)
    {
      assert BevOk(s, c);
    }
    forall u | 0 <= u < |r.threads|
      ensures ThreadOk(r, u)
    {
      assert ThreadOk(s, u);
    }
    forall h | 0 <= h < |r.groups|
      ensures GroupOk(r, h)
    {
      assert GroupOk(s, h);
    }
  }

  // Letting go of a bufferevent, perhaps after setting or clearing its bit.
  lemma UnlockKeeps(s: State, t: nat, b: nat, bev: Bev)
    requires Inv(s) && t < |s.threads| && b < |s.bevs|
    requires s.threads[t].HeldLock() == Some(b) && !s.threads[t].Sweep?
    requires bev.group == s.bevs[b].group
    requires match bev.group
             case None => bev.bit ==> bev.dead
             case Some(g) => !bev.dead && (bev.bit ==> g < |s.groups| && Covered(s, g, b))
    ensures Inv(Unlock(s, t, b, bev))
  {
    var r := Unlock(s, t, b, bev);
    assert BevOk(s, b) && ThreadOk(s, t);
    forall c | 0 <= c < |r.bevs|
      ensures BevOk(r, c)
    {
      assert BevOk(s, c);
    }
    forall u | 0 <= u < |r.threads|
      ensures ThreadOk(r, u)
    {
      assert ThreadOk(s, u);
    }
    forall h | 0 <= h < |r.groups|
      ensures GroupOk(r, h)
    {
      assert GroupOk(s, h);
    }
  }

  lemma LimitKeeps(s: State, g: nat, limit: int)
    requires Inv(s) && g < |s.groups|
    ensures Inv(SetGroup(s, g, s.groups[g].(limit := limit)))
  {
    var r := SetGroup(s, g, s.groups[g].(limit := limit));
    forall c | 0 <= c < |r.bevs|
      ensures BevOk(r, c)
    {
      assert BevOk(s, c);
    }
    forall u | 0 <= u < |r.threads|
      ensures ThreadOk(r, u)
    {
      assert ThreadOk(s, u);
    }
    forall h | 0 <= h < |r.groups|
      ensures GroupOk(r, h)
    {
      assert GroupOk(s, h);
    }
  }

  lemma StartSuspendKeeps(s: State, t: nat, g: nat, limit: int, held: Option<nat>)
    requires Inv(s) && t < |s.threads| && g < |s.groups| && s.groups[g].owner == None
    requires s.threads[t].HeldLock() == held && (s.threads[t].Idle? || s.threads[t].Has?)
    ensures Inv(StartSuspend(s, t, g, limit, held))
  {
    var r := StartSuspend(s, t, g, limit, held);
    assert ThreadOk(s, t) && GroupOk(s, g);
    forall c | 0 <= c < |r.bevs|
      ensures BevOk(r, c)
    {
      assert BevOk(s, c);
    }
    forall u | 0 <= u < |r.threads|
      ensures ThreadOk(r, u)
    {
      assert ThreadOk(s, u);
    }
    forall h | 0 <= h < |r.groups|
      ensures GroupOk(r, h)
    {
      assert GroupOk(s, h);
    }
  }

  lemma RotatedSame(members: seq<nat>, start: nat)
    ensures forall b :: b in Rotated(members, start) <==> b in members
  {
    var k := if members == [] then 0 else start % |members|;
    assert members == members[..k] + members[k..];
  }

  lemma StartUnsuspendKeeps(s: State, t: nat, g: nat, limit: int, held: Option<nat>, start: nat)
    requires Inv(s) && t < |s.threads| && g < |s.groups| && s.groups[g].owner == None
    requires s.threads[t].HeldLock() == held && (s.threads[t].Idle? || s.threads[t].Has?)
    ensures Inv(StartUnsuspend(s, t, g, limit, held, start))
  {
    var r := StartUnsuspend(s, t, g, limit, held, start);
    assert ThreadOk(s, t) && GroupOk(s, g);
    RotatedSame(s.groups[g].members, start);
    hide Rotated;
    forall c | 0 <= c < |r.bevs|
      ensures BevOk(r, c)
    {
      assert BevOk(s, c);
      if s.bevs[c].group.Some? {
        assert GroupOk(s, s.bevs[c].group.value);
      }
    }
    forall u | 0 <= u < |r.threads|
      ensures ThreadOk(r, u)
    {
      assert ThreadOk(s, u);
    }
    forall h | 0 <= h < |r.groups|
      ensures GroupOk(r, h)
    {
      assert GroupOk(s, h);
    }
  }

  // One member of a loop. A member whose lock is busy is why another attempt is noted.
  lemma TryOther(s: State, t: nat, c: nat)
    requires Inv(s) && t < |s.threads| && s.threads[t].Sweep? && s.threads[t].todo != []
    requires c < |s.bevs| && c != s.threads[t].todo[0]
    ensures s.threads[t].g < |s.groups|
    ensures c < |Swept(s, t, s.threads[t]).bevs| && BevOk(Swept(s, t, s.threads[t]), c)
  {
    assert ThreadOk(s, t) && BevOk(s, c);
    var pc := s.threads[t];
    var r := Swept(s, t, pc);
    assert r.bevs[c] == s.bevs[c] && r.groups == s.groups;
    assert c in pc.todo ==> c in pc.todo[1..];
    if s.bevs[c].group.Some? {
      var g := s.bevs[c].group.value;
      assert GroupOk(s, g);
      assert Covered(s, g, c) ==> Covered(r, g, c);
    }
  }

  lemma TryFirst(s: State, t: nat)
    requires Inv(s) && t < |s.threads| && s.threads[t].Sweep? && s.threads[t].todo != []
    ensures s.threads[t].g < |s.groups|
    ensures var c := s.threads[t].todo[0]; c < |s.bevs| && BevOk(Swept(s, t, s.threads[t]), c)
  {
    assert ThreadOk(s, t);
    var pc := s.threads[t];
    assert GroupOk(s, pc.g) && pc.todo[0] in s.groups[pc.g].members;
    assert BevOk(s, pc.todo[0]);
  }

  lemma TryBev(s: State, t: nat, c: nat)
    requires Inv(s) && t < |s.threads| && s.threads[t].Sweep? && s.threads[t].todo != []
    requires c < |s.bevs|
    ensures s.threads[t].g < |s.groups|
    ensures c < |Swept(s, t, s.threads[t]).bevs| && BevOk(Swept(s, t, s.threads[t]), c)
  {
    if c == s.threads[t].todo[0] {
      TryFirst(s, t);
    } else {
      TryOther(s, t, c);
    }
  }

  lemma TryThread(s: State, t: nat, u: nat)
    requires Inv(s) && t < |s.threads| && s.threads[t].Sweep? && s.threads[t].todo != []
    requires u < |s.threads|
    ensures s.threads[t].g < |s.groups|
    ensures u < |Swept(s, t, s.threads[t]).threads| && ThreadOk(Swept(s, t, s.threads[t]), u)
  {
    assert ThreadOk(s, t);
    var pc := s.threads[t];
    assert GroupOk(s, pc.g) && pc.todo[0] in s.groups[pc.g].members;
    assert BevOk(s, pc.todo[0]);
    assert forall c :: c in pc.todo ==> c == pc.todo[0] || c in pc.todo[1..];
    assert ThreadOk(s, u);
  }

  lemma TryGroup(s: State, t: nat, h: nat)
    requires Inv(s) && t < |s.threads| && s.threads[t].Sweep? && s.threads[t].todo != []
    requires h < |s.groups|
    ensures s.threads[t].g < |s.groups|
    ensures h < |Swept(s, t, s.threads[t]).groups| && GroupOk(Swept(s, t, s.threads[t]), h)
  {
    assert ThreadOk(s, t);
    var pc := s.threads[t];
    assert GroupOk(s, pc.g) && pc.todo[0] in s.groups[pc.g].members;
    assert BevOk(s, pc.todo[0]);
    assert forall c :: c in pc.todo ==> c == pc.todo[0] || c in pc.todo[1..];
    assert GroupOk(s, h);
  }

  // The end of a loop.
  lemma EndBev(s: State, t: nat, c: nat)
    requires Inv(s) && t < |s.threads| && s.threads[t].Sweep? && s.threads[t].todo == []
    requires c < |s.bevs|
    ensures s.threads[t].g < |s.groups|
    ensures c < |Swept(s, t, s.threads[t]).bevs| && BevOk(Swept(s, t, s.threads[t]), c)
  {
    assert ThreadOk(s, t);
    var pc := s.threads[t];
    assert GroupOk(s, pc.g);
    assert BevOk(s, c);
    if s.bevs[c].group.Some? {
      assert GroupOk(s, s.bevs[c].group.value);
    }
  }

  lemma EndThread(s: State, t: nat, u: nat)
    requires Inv(s) && t < |s.threads| && s.threads[t].Sweep? && s.threads[t].todo == []
    requires u < |s.threads|
    ensures s.threads[t].g < |s.groups|
    ensures u < |Swept(s, t, s.threads[t]).threads| && ThreadOk(Swept(s, t, s.threads[t]), u)
  {
    assert ThreadOk(s, t);
    var pc := s.threads[t];
    assert GroupOk(s, pc.g);
    assert ThreadOk(s, u);
  }

  lemma EndGroup(s: State, t: nat, h: nat)
    requires Inv(s) && t < |s.threads| && s.threads[t].Sweep? && s.threads[t].todo == []
    requires h < |s.groups|
    ensures s.threads[t].g < |s.groups|
    ensures h < |Swept(s, t, s.threads[t]).groups| && GroupOk(Swept(s, t, s.threads[t]), h)
  {
    assert ThreadOk(s, t);
    var pc := s.threads[t];
    assert GroupOk(s, pc.g);
    assert GroupOk(s, h);
  }

  lemma SweepKeeps(s: State, t: nat)
    requires Inv(s) && t < |s.threads| && s.threads[t].Sweep?
    ensures s.threads[t].g < |s.groups| && Inv(Swept(s, t, s.threads[t]))
  {
    assert ThreadOk(s, t);
    var r := Swept(s, t, s.threads[t]);
    assert |r.bevs| == |s.bevs| && |r.threads| == |s.threads| && |r.groups| == |s.groups|;
    hide BevOk, ThreadOk, GroupOk, Swept;
    forall c | 0 <= c < |r.bevs|
      ensures BevOk(r, c)
    {
      if s.threads[t].todo != [] { TryBev(s, t, c); } else { EndBev(s, t, c); }
    }
    forall u | 0 <= u < |r.threads|
      ensures ThreadOk(r, u)
    {
      if s.threads[t].todo != [] { TryThread(s, t, u); } else { EndThread(s, t, u); }
    }
    forall h | 0 <= h < |r.groups|
      ensures GroupOk(r, h)
    {
      if s.threads[t].todo != [] { TryGroup(s, t, h); } else { EndGroup(s, t, h); }
    }
  }

  // A thread goes on with a bufferevent that is in no group.
  lemma NonMemberKeeps(s: State, t: nat, b: nat, bev: Bev, pc: Pc)
    requires Inv(s) && t < |s.threads| && b < |s.bevs| && s.bevs[b].group == bev.group == None
    requires s.threads[t].HeldLock() == Some(b) && !s.threads[t].Sweep? && !bev.dead && bev.owner == Some(t)
    requires (pc.Left? || pc.Has?) && pc.b == b && (bev.bit ==> pc.Left?)
    ensures Inv(SetPc(SetBev(s, b, bev), t, pc))
  {
    var r := SetPc(SetBev(s, b, bev), t, pc);
    assert BevOk(s, b) && ThreadOk(s, t);
    forall c | 0 <= c < |r.bevs|
      ensures BevOk(r, c)
    {
      assert BevOk(s, c);
    }
    forall u | 0 <= u < |r.threads|
      ensures ThreadOk(r, u)
    {
      assert ThreadOk(s, u);
    }
    forall h | 0 <= h < |r.groups|
      ensures GroupOk(r, h)
    {
      assert GroupOk(s, h);
    }
  }

  // The part of an operation under the lock of a group.
  lemma GoKeeps(s: State, t: nat)
    requires Inv(s) && t < |s.threads| && s.threads[t].Has?
    ensures Inv(Next(s, t, Go))
  {
    assert ThreadOk(s, t);
    var b, op := s.threads[t].b, s.threads[t].op;
    assert BevOk(s, b);
    var bev := s.bevs[b];
    if bev.group.Some? && s.groups[bev.group.value].owner == None {
      GoMember(s, t, b, bev.group.value, op);
    } else {
      hide Inv;
      match op
      case Join(g) =>
        if bev.group == None {
          JoinKeeps(s, t, b, g);
        } else if bev.group == Some(g) {
          UnlockKeeps(s, t, b, bev);
        }
      case Leave =>
        if bev.group == None {
          NonMemberKeeps(s, t, b, bev, Left(b, None));
          assert s.bevs[b := bev] == s.bevs;
        }
      case Destroy =>
        if bev.group == None {
          UnlockKeeps(s, t, b, bev.(dead := true));
        }
      case Check =>
        if bev.group == None {
          UnlockKeeps(s, t, b, bev);
        }
      case Charge(_, _) =>
        if bev.group == None {
          UnlockKeeps(s, t, b, bev);
        }
    }
  }

  // An operation on a member of a group whose lock is free.
  lemma GoMember(s: State, t: nat, b: nat, h: nat, op: Op)
    requires Inv(s) && t < |s.threads| && b < |s.bevs| && h < |s.groups|
    requires s.threads[t] == Has(b, op) && s.bevs[b].group == Some(h) && s.groups[h].owner == None
    ensures Inv(Proceed(s, t, b, op))
  {
    assert ThreadOk(s, t) && BevOk(s, b) && GroupOk(s, h);
    var bev := s.bevs[b];
    hide Inv, BevOk, ThreadOk, GroupOk;
    match op
    case Join(g) =>
      if g == h {
        UnlockKeeps(s, t, b, bev);
      } else {
        TakeOutKeeps(s, t, b, h, bev.(group := None), Left(b, Some(g)));
      }
    case Leave => TakeOutKeeps(s, t, b, h, bev.(group := None), Left(b, None));
    case Destroy => TakeOutKeeps(s, t, b, h, bev.(group := None, dead := true, owner := None), Idle);
    case Check => UnlockKeeps(s, t, b, if s.groups[h].suspended then bev.(bit := true) else bev);
    case Charge(bytes, start) =>
      var limit := s.groups[h].limit - bytes;
      if limit <= 0 {
        StartSuspendKeeps(s, t, h, limit, Some(b));
      } else if s.groups[h].suspended {
        StartUnsuspendKeeps(s, t, h, limit, Some(b), start);
      } else {
        LimitKeeps(s, h, limit);
        UnlockKeeps(SetGroup(s, h, s.groups[h].(limit := limit)), t, b, bev);
      }
  }

  // After the lock of the group is released.
  lemma WorkKeeps(s: State, t: nat)
    requires Inv(s) && t < |s.threads|
    ensures Inv(Next(s, t, Work))
  {
    var pc := s.threads[t];
    assert ThreadOk(s, t);
    if pc.Joined? || pc.Left? {
      assert BevOk(s, pc.b);
    }
    hide Inv, BevOk, ThreadOk, GroupOk, Swept;
    match pc
    case Idle =>
    case Has(_, _) =>
    case Joined(b, g, saw) => UnlockKeeps(s, t, b, if saw then s.bevs[b].(bit := true) else s.bevs[b]);
    case Left(b, next) =>
      if next.None? {
        UnlockKeeps(s, t, b, s.bevs[b].(bit := false));
      } else {
        NonMemberKeeps(s, t, b, s.bevs[b].(bit := false), Has(b, Join(next.value)));
      }
    case Sweep(_, _, _, _, _) => SweepKeeps(s, t);
  }

  lemma DecrementKeeps(s: State, t: nat, g: nat, bytes: int, start: nat)
    requires Inv(s) && t < |s.threads|
    ensures Inv(Next(s, t, Decrement(g, bytes, start)))
  {
    if g < |s.groups| && s.groups[g].owner == None && s.threads[t].Idle? {
      assert GroupOk(s, g);
      hide Inv, BevOk, ThreadOk;
      var was, limit := s.groups[g].limit, s.groups[g].limit - bytes;
      if was > 0 && limit <= 0 {
        StartSuspendKeeps(s, t, g, limit, None);
      } else if was <= 0 && limit > 0 {
        StartUnsuspendKeeps(s, t, g, limit, None, start);
      } else {
        LimitKeeps(s, g, limit);
      }
    }
  }

  lemma RefillKeeps(s: State, t: nat, g: nat, limit: int, start: nat)
    requires Inv(s) && t < |s.threads|
    ensures Inv(Next(s, t, Refill(g, limit, start)))
  {
    if g < |s.groups| && s.groups[g].owner == None && s.threads[t].Idle? && limit >= s.groups[g].limit {
      assert GroupOk(s, g);
      hide Inv, BevOk, ThreadOk;
      if s.groups[g].pending || (s.groups[g].suspended && limit >= s.groups[g].minShare) {
        StartUnsuspendKeeps(s, t, g, limit, None, start);
      } else {
        LimitKeeps(s, g, limit);
      }
    }
  }

  lemma SetMinShareKeeps(s: State, t: nat, g: nat, share: nat)
    requires Inv(s) && t < |s.threads|
    ensures Inv(Next(s, t, SetMinShare(g, share)))
  {
    if g < |s.groups| && s.threads[t].Idle? {
      var r := SetGroup(s, g, s.groups[g].(minShare := share));
      forall c | 0 <= c < |r.bevs|
        ensures BevOk(r, c)
      {
        assert BevOk(s, c);
      }
      forall u | 0 <= u < |r.threads|
        ensures ThreadOk(r, u)
      {
        assert ThreadOk(s, u);
      }
      forall h | 0 <= h < |r.groups|
        ensures GroupOk(r, h)
      {
        assert GroupOk(s, h);
      }
    }
  }

  // Every step of every thread keeps the invariant.
  lemma NextKeeps(s: State, t: nat, a: Action)
    requires Inv(s) && t < |s.threads|
    ensures Inv(Next(s, t, a)) && |Next(s, t, a).threads| == |s.threads|
  {
    hide Inv;
    match a
    case Lock(b, op) =>
      if s.threads[t].Idle? {
        LockKeeps(s, t, b, op);
      }
    case Go =>
      if s.threads[t].Has? {
        GoKeeps(s, t);
      }
    case Work => WorkKeeps(s, t);
    case Decrement(g, bytes, start) => DecrementKeeps(s, t, g, bytes, start);
    case Refill(g, limit, start) => RefillKeeps(s, t, g, limit, start);
    case SetMinShare(g, share) => SetMinShareKeeps(s, t, g, share);
  }

  // Any interleaving of the threads.
  function Run(s: State, steps: seq<(nat, Action)>): State {
    if steps == [] then s
    else
      var before := Run(s, steps[..|steps| - 1]);
      var (t, a) := steps[|steps| - 1];
      if t < |before.threads| then Next(before, t, a) else before
  }

  // Nobody in a group, no lock held, no group exhausted.
  predicate Initial(s: State) {
    && (forall b <- s.bevs :: b == Bev(None, None, false, false))
    && (forall g <- s.groups ::
          g.owner == None && !g.suspended && !g.pending && g.limit > 0 && g.members == [])
    && (forall pc <- s.threads :: pc == Idle)
  }

  lemma InitialOk(s: State)
    requires Initial(s)
    ensures Inv(s)
  {
    forall b | 0 <= b < |s.bevs|
      ensures BevOk(s, b)
    {
      assert s.bevs[b] in s.bevs;
    }
    forall t | 0 <= t < |s.threads|
      ensures ThreadOk(s, t)
    {
      assert s.threads[t] in s.threads;
    }
    forall g | 0 <= g < |s.groups|
      ensures GroupOk(s, g)
    {
      assert s.groups[g] in s.groups;
    }
  }

  lemma {:induction false} RunKeeps(s: State, steps: seq<(nat, Action)>)
    requires Initial(s)
    ensures Inv(Run(s, steps))
  {
    InitialOk(s);
    if steps != [] {
      RunKeeps(s, steps[..|steps| - 1]);
      var before := Run(s, steps[..|steps| - 1]);
      var (t, a) := steps[|steps| - 1];
      if t < |before.threads| {
        hide Inv, Next;
        NextKeeps(before, t, a);
      }
    }
  }

  // A group with nothing to spend is suspended.
  predicate Solvent(s: State, g: nat)
    requires g < |s.groups|
  {
    s.groups[g].limit <= 0 ==> s.groups[g].suspended
  }

  // The minimum share of the group is not set to nothing.
  predicate Shares(a: Action, g: nat) {
    a.SetMinShare? && a.g == g ==> a.share > 0
  }

  predicate AllShare(steps: seq<(nat, Action)>, g: nat) {
    forall i :: 0 <= i < |steps| ==> Shares(steps[i].1, g)
  }

  // The part under a lock, and the steps of a loop.
  lemma GoSolvent(s: State, t: nat, g: nat)
    requires t < |s.threads| && g < |s.groups| && s.groups[g].minShare > 0 && Solvent(s, g)
    ensures var r := Next(s, t, Go); g < |r.groups| && r.groups[g].minShare > 0 && Solvent(r, g)
  {
    hide Rotated, AllBut;
  }

  lemma WorkSolvent(s: State, t: nat, g: nat)
    requires t < |s.threads| && g < |s.groups| && s.groups[g].minShare > 0 && Solvent(s, g)
    ensures var r := Next(s, t, Work); g < |r.groups| && r.groups[g].minShare > 0 && Solvent(r, g)
  {
  }

  // A refill resumes a group at its minimum share, so that a positive one keeps it from being resumed with
  // nothing.
  lemma NextSolvent(s: State, t: nat, a: Action, g: nat)
    requires Inv(s) && t < |s.threads| && g < |s.groups| && s.groups[g].minShare > 0 && Solvent(s, g) && Shares(a, g)
    ensures var r := Next(s, t, a); g < |r.groups| && r.groups[g].minShare > 0 && Solvent(r, g)
  {
    assert GroupOk(s, g);
    hide Inv, BevOk, ThreadOk, GroupOk, Rotated, Proceed, Swept;
    match a
    case Go => GoSolvent(s, t, g);
    case Work => WorkSolvent(s, t, g);
    case _ =>
  }

  lemma {:induction false} RunSolvent(s: State, steps: seq<(nat, Action)>, g: nat)
    requires Initial(s) && g < |s.groups| && s.groups[g].minShare > 0 && AllShare(steps, g)
    ensures var r := Run(s, steps); g < |r.groups| && r.groups[g].minShare > 0 && Solvent(r, g)
  {
    if steps == [] {
      assert s.groups[g] in s.groups;
    } else {
      var front := steps[..|steps| - 1];
      var (t, a) := steps[|steps| - 1];
      RunSolvent(s, front, g);
      RunKeeps(s, front);
      var before := Run(s, front);
      if t < |before.threads| {
        hide Inv, Next, Solvent;
        NextSolvent(before, t, a, g);
      }
    }
  }

  // In every interleaving: if a group is not suspended, nobody is busy resuming it and no further
  // attempt is due, then none of its members is suspended by it or about to be. A further attempt
  // is due only if the group is not suspended, and an exhausted group is suspended if its minimum share
  // was never nothing.
  lemma NobodyForgotten(s: State, steps: seq<(nat, Action)>, g: nat)
    requires Initial(s)
    ensures var r := Run(s, steps);
            g < |r.groups| ==>
              && (r.groups[g].owner == None && !r.groups[g].suspended && !r.groups[g].pending ==>
                    forall b :: 0 <= b < |r.bevs| && r.bevs[b].group == Some(g) ==>
                      !r.bevs[b].bit && !AboutToSuspend(r, b))
              && (r.groups[g].pending ==> !r.groups[g].suspended)
              && (g < |s.groups| && s.groups[g].minShare > 0 && AllShare(steps, g) ==> Solvent(r, g))
  {
    RunKeeps(s, steps);
    var r := Run(s, steps);
    if g < |s.groups| && s.groups[g].minShare > 0 && AllShare(steps, g) {
      RunSolvent(s, steps, g);
    }
    if g < |r.groups| {
      assert GroupOk(r, g);
      forall b | 0 <= b < |r.bevs| && r.bevs[b].group == Some(g)
        && r.groups[g].owner == None && !r.groups[g].suspended && !r.groups[g].pending
        ensures !r.bevs[b].bit && !AboutToSuspend(r, b)
      {
        assert BevOk(r, b);
      }
    }
  }

  // A bufferevent outside all groups that nobody works on is not suspended for a group.
  lemma NonMembersRun(s: State, steps: seq<(nat, Action)>, b: nat)
    requires Initial(s)
    ensures var r := Run(s, steps);
            b < |r.bevs| && r.bevs[b].group == None && r.bevs[b].owner == None && !r.bevs[b].dead ==> !r.bevs[b].bit
  {
    RunKeeps(s, steps);
    var r := Run(s, steps);
    if b < |r.bevs| {
      assert BevOk(r, b);
    }
  }

  // A group of an initial state is solvent in all its runs, as long as nobody sets its minimum share,
  // exactly if the share is positive: with a share of nothing a refill resumes it with nothing to spend.
  lemma SolventIffShare(s: State, g: nat)
    requires Initial(s) && g < |s.groups| && |s.threads| > 0
    ensures s.groups[g].minShare > 0
            <==> forall steps: seq<(nat, Action)> :: AllShare(steps, g) ==>
                   g < |Run(s, steps).groups| && Solvent(Run(s, steps), g)
  {
    if s.groups[g].minShare > 0 {
      forall steps: seq<(nat, Action)> | AllShare(steps, g)
        ensures g < |Run(s, steps).groups| && Solvent(Run(s, steps), g)
      {
        RunSolvent(s, steps, g);
      }
    } else {
      NoShareResumesEmpty(s, g);
      assert AllShare(EmptyingRun(s, g), g);
    }
  }

  // Spending all that a group has, and a refill that brings nothing.
  function EmptyingRun(s: State, g: nat): seq<(nat, Action)>
    requires g < |s.groups|
  {
    [(0, Decrement(g, s.groups[g].limit, 0)), (0, Work), (0, Refill(g, 0, 0))]
  }

  lemma NoShareResumesEmpty(s: State, g: nat)
    requires Initial(s) && g < |s.groups| && |s.threads| > 0 && s.groups[g].minShare == 0
    ensures var r := Run(s, EmptyingRun(s, g));
            g < |r.groups| && r.groups[g].limit == 0 && !r.groups[g].suspended
  {
    hide Next, Run;
    assert s.groups[g] in s.groups && s.threads[0] in s.threads;
    var a := Next(s, 0, Decrement(g, s.groups[g].limit, 0));
    Emptied(s, g);
    EmptiedEnds(a, g);
    var b := Next(a, 0, Work);
    ResumedEmpty(b, g);
    RunNone(s);
    RunStep(s, [], 0, Decrement(g, s.groups[g].limit, 0));
    var one := [] + [(0, Decrement(g, s.groups[g].limit, 0))];
    RunStep(s, one, 0, Work);
    RunStep(s, one + [(0, Work)], 0, Refill(g, 0, 0));
    assert one + [(0, Work)] + [(0, Refill(g, 0, 0))] == EmptyingRun(s, g);
  }

  lemma RunNone(s: State)
    ensures Run(s, []) == s
  {
  }

  lemma RunStep(s: State, steps: seq<(nat, Action)>, t: nat, a: Action)
    requires t < |Run(s, steps).threads|
    ensures Run(s, steps + [(t, a)]) == Next(Run(s, steps), t, a)
  {
    hide Next;
    assert (steps + [(t, a)])[..|steps|] == steps;
  }

  lemma Emptied(s: State, g: nat)
    requires g < |s.groups| && |s.threads| > 0 && s.threads[0] == Idle && s.groups[g].owner == None
    requires s.groups[g].limit > 0 && s.groups[g].members == []
    ensures var a := Next(s, 0, Decrement(g, s.groups[g].limit, 0));
            && |a.groups| == |s.groups| && |a.threads| == |s.threads| && a.threads[0] == Sweep(g, None, true, [], false)
            && a.groups[g].limit == 0 && a.groups[g].suspended && a.groups[g].minShare == s.groups[g].minShare
  {
  }

  lemma EmptiedEnds(a: State, g: nat)
    requires g < |a.groups| && |a.threads| > 0 && a.threads[0] == Sweep(g, None, true, [], false)
    ensures var b := Next(a, 0, Work);
            && b.threads == a.threads[0 := Idle] && b.groups == a.groups[g := a.groups[g].(owner := None)]
  {
  }

  lemma ResumedEmpty(b: State, g: nat)
    requires g < |b.groups| && |b.threads| > 0 && b.threads[0] == Idle && b.groups[g].owner == None
    requires b.groups[g].limit == 0 && b.groups[g].suspended && b.groups[g].minShare == 0
    ensures var r := Next(b, 0, Refill(g, 0, 0)); g < |r.groups| && r.groups[g].limit == 0 && !r.groups[g].suspended
  {
  }
}
