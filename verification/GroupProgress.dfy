/**
  What the threads of a rate-limit group get done (common/libevent/bufferevent_ratelim.c): a thread that
  suspends or resumes the members while nobody else holds their locks reaches all of them.
  */
module GroupProgress {
  import opened Options
  import opened GroupProtocol

  // n steps of one thread in a row.
  function Repeated(t: nat, n: nat): (steps: seq<(nat, Action)>)
    ensures |steps| == n
  {
    seq(n, _ => (t, Work))
  }

  function Works(s: State, t: nat, n: nat): State
    requires t < |s.threads|
    decreases n
  {
    if n == 0 then s
    else
      var next := Next(s, t, Work);
      if t < |next.threads| then Works(next, t, n - 1) else next
  }

  lemma {:induction false} RunWorks(s: State, steps: seq<(nat, Action)>, t: nat, n: nat)
    requires Initial(s) && t < |Run(s, steps).threads|
    ensures Run(s, steps + Repeated(t, n)) == Works(Run(s, steps), t, n)
    decreases n
  {
    hide Next, Run, Inv, Initial;
    if n == 0 {
      assert steps + Repeated(t, 0) == steps;
    } else {
      RunStep(s, steps, t, Work);
      RunKeeps(s, steps);
      NextKeeps(Run(s, steps), t, Work);
      RunWorks(s, steps + [(t, Work)], t, n - 1);
      assert steps + [(t, Work)] + Repeated(t, n - 1) == steps + Repeated(t, n);
    }
  }

  // Nobody else holds the lock of a member that a loop has still to reach.
  predicate Undisturbed(s: State, t: nat)
    requires t < |s.threads|
  {
    && s.threads[t].Sweep?
    && forall b <- s.threads[t].todo :: b < |s.bevs| && (s.bevs[b].owner == None || s.bevs[b].owner == Some(t))
  }

  // Some bufferevents are suspended, or resumed.
  function Marked(bevs: seq<Bev>, todo: seq<nat>, bit: bool): (r: seq<Bev>)
    ensures |r| == |bevs| && forall b :: 0 <= b < |r| ==> r[b] == if b in todo then bevs[b].(bit := bit) else bevs[b]
  {
    seq(|bevs|, b requires 0 <= b < |bevs| => if b in todo then bevs[b].(bit := bit) else bevs[b])
  }

  // A thread is through with a loop: the group is unlocked, and so is the member that it held.
  function Through(s: State, t: nat): (r: State)
    requires t < |s.threads| && s.threads[t].Sweep? && s.threads[t].g < |s.groups|
    requires s.threads[t].held.Some? ==> s.threads[t].held.value < |s.bevs|
  {
    var pc := s.threads[t];
    var group := s.groups[pc.g].(owner := None);
    var bevs := Marked(s.bevs, pc.todo, pc.suspending);
    State(if pc.held.Some? then bevs[pc.held.value := bevs[pc.held.value].(owner := None)] else bevs,
          s.groups[pc.g := if pc.suspending then group else group.(pending := pc.again)],
          s.threads[t := Idle])
  }

  lemma SweepStep(s: State, t: nat)
    requires Inv(s) && t < |s.threads| && Undisturbed(s, t) && s.threads[t].todo != []
    ensures var pc, r := s.threads[t], Next(s, t, Work);
            && pc.todo[0] < |s.bevs| && pc.g < |s.groups|
            && r == State(s.bevs[pc.todo[0] := s.bevs[pc.todo[0]].(bit := pc.suspending)], s.groups,
                          s.threads[t := pc.(todo := pc.todo[1..])])
            && Undisturbed(r, t)
  {
    assert ThreadOk(s, t);
    hide Inv, ThreadOk;
    var pc := s.threads[t];
    assert pc.todo[0] in pc.todo && forall b <- pc.todo[1..] :: b in pc.todo;
    assert Next(s, t, Work) == Swept(s, t, pc);
  }

  lemma SweepEnds(s: State, t: nat)
    requires t < |s.threads| && s.threads[t].Sweep? && s.threads[t].todo == [] && s.threads[t].g < |s.groups|
    requires s.threads[t].held.Some? ==> s.threads[t].held.value < |s.bevs|
    ensures Next(s, t, Work) == Through(s, t) && |Next(s, t, Work).threads| == |s.threads|
  {
    assert Marked(s.bevs, [], s.threads[t].suspending) == s.bevs;
  }

  lemma WorksOnce(s: State, t: nat)
    requires t < |s.threads| && t < |Next(s, t, Work).threads|
    ensures Works(s, t, 1) == Next(s, t, Work)
  {
    hide Next;
  }

  // A loop over the members, in either direction, while no other thread holds the lock of one of them: it
  // reaches them all, and does nothing else.
  lemma {:induction false} UndisturbedSweep(s: State, t: nat)
    requires Inv(s) && t < |s.threads| && Undisturbed(s, t)
    ensures s.threads[t].g < |s.groups| && (s.threads[t].held.Some? ==> s.threads[t].held.value < |s.bevs|)
    ensures Works(s, t, |s.threads[t].todo| + 1) == Through(s, t)
    decreases |s.threads[t].todo|
  {
    var pc := s.threads[t];
    assert ThreadOk(s, t);
    var next := Next(s, t, Work);
    if pc.todo == [] {
      hide Inv;
      SweepEnds(s, t);
      hide Next, Through;
      WorksOnce(s, t);
    } else {
      SweepStep(s, t);
      NextKeeps(s, t, Work);
      UndisturbedSweep(next, t);
      hide Inv, Next, ThreadOk, Through, Undisturbed;
      SweepMore(s, next, t);
      assert Works(s, t, |pc.todo| + 1) == Works(next, t, |pc.todo|);
    }
  }

  lemma SweepMore(s: State, next: State, t: nat)
    requires t < |s.threads| && s.threads[t].Sweep? && s.threads[t].todo != [] && s.threads[t].g < |s.groups|
    requires s.threads[t].held.Some? ==> s.threads[t].held.value < |s.bevs|
    requires var pc := s.threads[t];
             && pc.todo[0] < |s.bevs|
             && next == State(s.bevs[pc.todo[0] := s.bevs[pc.todo[0]].(bit := pc.suspending)], s.groups,
                              s.threads[t := pc.(todo := pc.todo[1..])])
    ensures Through(next, t) == Through(s, t)
  {
    var pc := s.threads[t];
    assert forall b :: b in pc.todo <==> b == pc.todo[0] || b in pc.todo[1..];
    assert Marked(next.bevs, pc.todo[1..], pc.suspending) == Marked(s.bevs, pc.todo, pc.suspending);
    assert s.threads[t := pc.(todo := pc.todo[1..])][t := Idle] == s.threads[t := Idle];
  }

  // No member of a group is locked.
  predicate MembersFree(s: State, g: nat)
    requires g < |s.groups|
  {
    forall b <- s.groups[g].members :: b < |s.bevs| && s.bevs[b].owner == None
  }

  // The members of a group are those that say so.
  lemma MembersAre(s: State, g: nat)
    requires Inv(s) && g < |s.groups|
    ensures forall b :: 0 <= b < |s.bevs| ==> (s.bevs[b].group == Some(g) <==> b in s.groups[g].members)
    ensures forall b <- s.groups[g].members :: b < |s.bevs|
  {
    assert GroupOk(s, g);
    forall b | 0 <= b < |s.bevs|
      ensures s.bevs[b].group == Some(g) <==> b in s.groups[g].members
    {
      assert BevOk(s, b);
    }
  }

  // Everybody is resumed, and nobody is due to be.
  function Refreshed(r: State, g: nat, limit: int): State
    requires g < |r.groups|
  {
    r.(bevs := Marked(r.bevs, r.groups[g].members, false),
       groups := r.groups[g := r.groups[g].(limit := limit, suspended := false, pending := false)])
  }

  // An action by which an idle thread starts to resume the members of a group that nobody has locked.
  lemma ResumedBy(s: State, steps: seq<(nat, Action)>, t: nat, g: nat, action: Action, limit: int, start: nat)
    requires Initial(s)
    requires var r := Run(s, steps);
             && t < |r.threads| && r.threads[t] == Idle && g < |r.groups| && r.groups[g].owner == None && MembersFree(r, g)
             && Next(r, t, action) == StartUnsuspend(r, t, g, limit, None, start)
    ensures var r := Run(s, steps);
            && Run(s, steps + [(t, action)] + Repeated(t, |r.groups[g].members| + 1)) == Refreshed(r, g, limit)
            && forall b :: 0 <= b < |r.bevs| && r.bevs[b].group == Some(g) ==> !Refreshed(r, g, limit).bevs[b].bit
  {
    hide Inv, Run, Works, Initial, Next;
    var r := Run(s, steps);
    var group := r.groups[g];
    var a := Next(r, t, action);
    RunKeeps(s, steps);
    NextKeeps(r, t, action);
    MembersAre(r, g);
    RotatedSame(group.members, start);
    RotatedLength(group.members, start);
    hide Rotated;
    UndisturbedSweep(a, t);
    RunStep(s, steps, t, action);
    RunWorks(s, steps + [(t, action)], t, |group.members| + 1);
    var e := Through(a, t);
    assert e.groups[g] == group.(limit := limit, suspended := false, pending := false);
    assert e.groups == r.groups[g := e.groups[g]];
    assert e.threads == r.threads;
    assert e.bevs == Marked(r.bevs, group.members, false);
  }

  // After any run: if a resume of group g is due and no member is locked, one refill and the loop that it starts
  // leave no member suspended, and the group neither suspended nor due. Nothing else changes.
  lemma EverybodyResumed(s: State, steps: seq<(nat, Action)>, t: nat, g: nat, limit: int, start: nat)
    requires Initial(s)
    requires var r := Run(s, steps);
             && t < |r.threads| && r.threads[t] == Idle && g < |r.groups| && r.groups[g].owner == None
             && limit >= r.groups[g].limit && MembersFree(r, g)
             && (r.groups[g].pending || (r.groups[g].suspended && limit >= r.groups[g].minShare))
    ensures var r := Run(s, steps);
            var e := Run(s, steps + [(t, Refill(g, limit, start))] + Repeated(t, |r.groups[g].members| + 1));
            && e == Refreshed(r, g, limit)
            && forall b :: 0 <= b < |e.bevs| && e.bevs[b].group == Some(g) ==> !e.bevs[b].bit
  {
    hide Inv, Run, Works, Initial, Rotated;
    ResumedBy(s, steps, t, g, Refill(g, limit, start), limit, start);
  }

  // So does a decrement by a negative number that gives a group something again.
  lemma RefundResumes(s: State, steps: seq<(nat, Action)>, t: nat, g: nat, bytes: int, start: nat)
    requires Initial(s)
    requires var r := Run(s, steps);
             && t < |r.threads| && r.threads[t] == Idle && g < |r.groups| && r.groups[g].owner == None
             && MembersFree(r, g) && r.groups[g].limit <= 0 && r.groups[g].limit - bytes > 0
    ensures var r := Run(s, steps);
            var e := Run(s, steps + [(t, Decrement(g, bytes, start))] + Repeated(t, |r.groups[g].members| + 1));
            && e == Refreshed(r, g, r.groups[g].limit - bytes)
            && forall b :: 0 <= b < |e.bevs| && e.bevs[b].group == Some(g) ==> !e.bevs[b].bit
  {
    hide Inv, Run, Works, Initial, Rotated;
    ResumedBy(s, steps, t, g, Decrement(g, bytes, start), Run(s, steps).groups[g].limit - bytes, start);
  }

  // A refill when nobody is due changes the limit alone.
  lemma RefillAlone(s: State, steps: seq<(nat, Action)>, t: nat, g: nat, limit: int, start: nat)
    requires Initial(s)
    requires var r := Run(s, steps);
             && t < |r.threads| && r.threads[t] == Idle && g < |r.groups| && r.groups[g].owner == None
             && !r.groups[g].pending && limit >= r.groups[g].limit
             && (r.groups[g].suspended ==> limit < r.groups[g].minShare)
    ensures var r := Run(s, steps);
            Run(s, steps + [(t, Refill(g, limit, start))]) == r.(groups := r.groups[g := r.groups[g].(limit := limit)])
  {
    hide Run, Initial, Inv;
    RunStep(s, steps, t, Refill(g, limit, start));
  }

  // So does a decrement that leaves the limit on its side of zero.
  lemma DecrementAlone(s: State, steps: seq<(nat, Action)>, t: nat, g: nat, bytes: int, start: nat)
    requires Initial(s)
    requires var r := Run(s, steps);
             && t < |r.threads| && r.threads[t] == Idle && g < |r.groups| && r.groups[g].owner == None
             && (r.groups[g].limit > 0 <==> r.groups[g].limit - bytes > 0)
    ensures var r := Run(s, steps);
            Run(s, steps + [(t, Decrement(g, bytes, start))])
              == r.(groups := r.groups[g := r.groups[g].(limit := r.groups[g].limit - bytes)])
  {
    hide Run, Initial, Inv;
    RunStep(s, steps, t, Decrement(g, bytes, start));
  }

  lemma RotatedLength(members: seq<nat>, start: nat)
    ensures |Rotated(members, start)| == |members|
  {
  }

  // What bufferevent_rate_limit_group_decrement_read and the group part of a charge make of a limit that is
  // used up: everybody is suspended, whoever was not before, and a resume that was due is not any more.
  function Exhausted(r: State, g: nat, limit: int): State
    requires g < |r.groups|
  {
    r.(bevs := Marked(r.bevs, r.groups[g].members, true),
       groups := r.groups[g := r.groups[g].(limit := limit, suspended := true, pending := false)])
  }

  // After any run: if a decrement uses up what a group has and no member is locked, all members are suspended
  // by the loop that it starts.
  lemma EverybodySuspended(s: State, steps: seq<(nat, Action)>, t: nat, g: nat, bytes: int, start: nat)
    requires Initial(s)
    requires var r := Run(s, steps);
             && t < |r.threads| && r.threads[t] == Idle && g < |r.groups| && r.groups[g].owner == None
             && MembersFree(r, g) && r.groups[g].limit > 0 && r.groups[g].limit - bytes <= 0
    ensures var r := Run(s, steps);
            var e := Run(s, steps + [(t, Decrement(g, bytes, start))] + Repeated(t, |r.groups[g].members| + 1));
            && e == Exhausted(r, g, r.groups[g].limit - bytes)
            && forall b :: 0 <= b < |e.bevs| && e.bevs[b].group == Some(g) ==> e.bevs[b].bit
  {
    hide Inv, Run, Works, Initial;
    var r := Run(s, steps);
    var a := Next(r, t, Decrement(g, bytes, start));
    RunKeeps(s, steps);
    NextKeeps(r, t, Decrement(g, bytes, start));
    MembersAre(r, g);
    assert a == StartSuspend(r, t, g, r.groups[g].limit - bytes, None);
    UndisturbedSweep(a, t);
    RunStep(s, steps, t, Decrement(g, bytes, start));
    RunWorks(s, steps + [(t, Decrement(g, bytes, start))], t, |r.groups[g].members| + 1);
    var e := Through(a, t);
    assert e.groups == r.groups[g := r.groups[g].(limit := r.groups[g].limit - bytes, suspended := true, pending := false)];
    assert e.threads == r.threads;
  }

  // A thread that locks b and goes on to the part under the lock of the group.
  function Entered(t: nat, b: nat, op: Op): seq<(nat, Action)> {
    [(t, Lock(b, op)), (t, Go)]
  }

  // b can be locked, and so can its group g.
  predicate Enterable(r: State, t: nat, b: nat, g: nat) {
    && t < |r.threads| && r.threads[t] == Idle && b < |r.bevs| && r.bevs[b].owner == None && !r.bevs[b].dead
    && r.bevs[b].group == Some(g) && g < |r.groups| && r.groups[g].owner == None
  }

  lemma RunEntered(s: State, steps: seq<(nat, Action)>, t: nat, b: nat, op: Op)
    requires Initial(s)
    requires var r := Run(s, steps);
             t < |r.threads| && r.threads[t] == Idle && b < |r.bevs| && r.bevs[b].owner == None && !r.bevs[b].dead
    ensures var r := Run(s, steps);
            var a := SetPc(SetBev(r, b, r.bevs[b].(owner := Some(t))), t, Has(b, op));
            Inv(a) && Run(s, steps + Entered(t, b, op)) == Proceed(a, t, b, op)
  {
    hide Inv, Run, Initial, Proceed;
    var r := Run(s, steps);
    RunKeeps(s, steps);
    NextKeeps(r, t, Lock(b, op));
    RunStep(s, steps, t, Lock(b, op));
    RunStep(s, steps + [(t, Lock(b, op))], t, Go);
    assert steps + [(t, Lock(b, op))] + [(t, Go)] == steps + Entered(t, b, op);
  }

  // Before a transfer a member of a suspended group is suspended, though it was missed when the others were.
  lemma CheckSuspends(s: State, steps: seq<(nat, Action)>, t: nat, b: nat, g: nat)
    requires Initial(s) && Enterable(Run(s, steps), t, b, g)
    ensures var r := Run(s, steps);
            var bev := if r.groups[g].suspended then r.bevs[b].(bit := true) else r.bevs[b];
            Run(s, steps + Entered(t, b, Check)) == r.(bevs := r.bevs[b := bev])
  {
    hide Inv, Run, Initial;
    RunEntered(s, steps, t, b, Check);
    var r := Run(s, steps);
    assert r.threads[t := Has(b, Check)][t := Idle] == r.threads;
  }

  // A transfer is charged to the group byte by byte; while something is left and the group is not suspended that is
  // all that happens.
  lemma ChargeSpends(s: State, steps: seq<(nat, Action)>, t: nat, b: nat, g: nat, bytes: int, start: nat)
    requires Initial(s) && Enterable(Run(s, steps), t, b, g)
    requires var r := Run(s, steps); r.groups[g].limit - bytes > 0 && !r.groups[g].suspended
    ensures var r := Run(s, steps);
            Run(s, steps + Entered(t, b, Charge(bytes, start)))
              == r.(groups := r.groups[g := r.groups[g].(limit := r.groups[g].limit - bytes)])
  {
    hide Inv, Run, Initial;
    RunEntered(s, steps, t, b, Charge(bytes, start));
    var r := Run(s, steps);
    assert r.threads[t := Has(b, Charge(bytes, start))][t := Idle] == r.threads;
    assert r.bevs[b := r.bevs[b].(owner := Some(t))][b := r.bevs[b]] == r.bevs;
  }

  // A transfer that uses up what the group has suspends everybody; one that finds the group suspended and leaves
  // something resumes everybody.
  lemma ChargeSweeps(s: State, steps: seq<(nat, Action)>, t: nat, b: nat, g: nat, bytes: int, start: nat)
    requires Initial(s) && Enterable(Run(s, steps), t, b, g)
    requires var r := Run(s, steps); MembersFree(r, g) && (r.groups[g].limit - bytes <= 0 || r.groups[g].suspended)
    ensures var r := Run(s, steps);
            var left := r.groups[g].limit - bytes;
            Run(s, steps + Entered(t, b, Charge(bytes, start)) + Repeated(t, |r.groups[g].members| + 1))
              == r.(bevs := Marked(r.bevs, r.groups[g].members, left <= 0),
                    groups := r.groups[g := r.groups[g].(limit := left, suspended := left <= 0, pending := false)])
  {
    hide Inv, Run, Initial, Works, Proceed, Through, Undisturbed, Marked, Next;
    var op := Charge(bytes, start);
    var r := Run(s, steps);
    var a := SetPc(SetBev(r, b, r.bevs[b].(owner := Some(t))), t, Has(b, op));
    RunEntered(s, steps, t, b, op);
    GoIs(a, t, b, op);
    NextKeeps(a, t, Go);
    RunKeeps(s, steps);
    MembersAre(r, g);
    ChargeStarts(r, t, b, g, bytes, start);
    UndisturbedSweep(Proceed(a, t, b, op), t);
    RunWorks(s, steps + Entered(t, b, op), t, |r.groups[g].members| + 1);
  }

  lemma GoIs(a: State, t: nat, b: nat, op: Op)
    requires t < |a.threads| && a.threads[t] == Has(b, op) && b < |a.bevs|
    ensures Next(a, t, Go) == Proceed(a, t, b, op)
  {
    hide Proceed;
  }

  // A charge at the beginning of its loop.
  function Charging(r: State, t: nat, b: nat, g: nat, left: int, todo: seq<nat>): State
    requires t < |r.threads| && b < |r.bevs| && g < |r.groups|
  {
    var group := r.groups[g].(owner := Some(t), limit := left, suspended := left <= 0);
    State(r.bevs[b := r.bevs[b].(owner := Some(t))], r.groups[g := if left <= 0 then group.(pending := false) else group],
          r.threads[t := Sweep(g, Some(b), left <= 0, todo, false)])
  }

  lemma ChargingIs(r: State, t: nat, b: nat, g: nat, bytes: int, start: nat)
    requires Enterable(r, t, b, g) && (r.groups[g].limit - bytes <= 0 || r.groups[g].suspended)
    ensures var op, left, ms := Charge(bytes, start), r.groups[g].limit - bytes, r.groups[g].members;
            Proceed(SetPc(SetBev(r, b, r.bevs[b].(owner := Some(t))), t, Has(b, op)), t, b, op)
              == Charging(r, t, b, g, left, if left <= 0 then ms else Rotated(ms, start))
  {
    hide Rotated;
    var op, left, ms := Charge(bytes, start), r.groups[g].limit - bytes, r.groups[g].members;
    var pc := Sweep(g, Some(b), left <= 0, if left <= 0 then ms else Rotated(ms, start), false);
    assert r.threads[t := Has(b, op)][t := pc] == r.threads[t := pc];
  }

  lemma ChargingThrough(r: State, t: nat, b: nat, g: nat, left: int, todo: seq<nat>)
    requires Enterable(r, t, b, g) && MembersFree(r, g) && forall d :: d in todo <==> d in r.groups[g].members
    ensures var c := Charging(r, t, b, g, left, todo);
            && Undisturbed(c, t)
            && Through(c, t)
               == r.(bevs := Marked(r.bevs, r.groups[g].members, left <= 0),
                     groups := r.groups[g := r.groups[g].(limit := left, suspended := left <= 0, pending := false)])
  {
    var e := Through(Charging(r, t, b, g, left, todo), t);
    assert e.threads == r.threads;
    assert e.groups == r.groups[g := r.groups[g].(limit := left, suspended := left <= 0, pending := false)];
    assert e.bevs == Marked(r.bevs, r.groups[g].members, left <= 0);
  }

  lemma ChargeStarts(r: State, t: nat, b: nat, g: nat, bytes: int, start: nat)
    requires Enterable(r, t, b, g) && MembersFree(r, g)
    requires r.groups[g].limit - bytes <= 0 || r.groups[g].suspended
    ensures var op, left := Charge(bytes, start), r.groups[g].limit - bytes;
            var c := Proceed(SetPc(SetBev(r, b, r.bevs[b].(owner := Some(t))), t, Has(b, op)), t, b, op);
            && t < |c.threads| && Undisturbed(c, t) && c.threads[t].g < |c.groups| && c.threads[t].held == Some(b) && b < |c.bevs|
            && |c.threads[t].todo| == |r.groups[g].members|
            && Through(c, t)
               == r.(bevs := Marked(r.bevs, r.groups[g].members, left <= 0),
                     groups := r.groups[g := r.groups[g].(limit := left, suspended := left <= 0, pending := false)])
  {
    hide Rotated, Proceed, Through, Marked, Undisturbed, MembersFree;
    var left, ms := r.groups[g].limit - bytes, r.groups[g].members;
    RotatedSame(ms, start);
    RotatedLength(ms, start);
    ChargingIs(r, t, b, g, bytes, start);
    ChargingThrough(r, t, b, g, left, if left <= 0 then ms else Rotated(ms, start));
  }

  // Who joins a group is suspended exactly if the group is, or it was already.
  lemma JoinSuspends(s: State, steps: seq<(nat, Action)>, t: nat, b: nat, g: nat)
    requires Initial(s)
    requires var r := Run(s, steps);
             && t < |r.threads| && r.threads[t] == Idle && b < |r.bevs| && r.bevs[b].owner == None && !r.bevs[b].dead
             && r.bevs[b].group == None && g < |r.groups| && r.groups[g].owner == None
    ensures var r := Run(s, steps);
            Run(s, steps + Entered(t, b, Join(g)) + [(t, Work)])
              == r.(bevs := r.bevs[b := r.bevs[b].(group := Some(g), bit := r.groups[g].suspended)],
                    groups := r.groups[g := r.groups[g].(members := [b] + r.groups[g].members)])
  {
    hide Inv, Run, Initial;
    RunEntered(s, steps, t, b, Join(g));
    RunStep(s, steps + Entered(t, b, Join(g)), t, Work);
    var r := Run(s, steps);
    NonMembersRun(s, steps, b);
    var a := SetPc(SetBev(r, b, r.bevs[b].(owner := Some(t))), t, Has(b, Join(g)));
    assert Proceed(a, t, b, Join(g)).threads[t] == Joined(b, g, r.groups[g].suspended);
    assert r.threads[t := Has(b, Join(g))][t := Joined(b, g, r.groups[g].suspended)][t := Idle] == r.threads;
  }

  // Who leaves a group is not suspended by it any more.
  lemma LeaveResumes(s: State, steps: seq<(nat, Action)>, t: nat, b: nat, g: nat)
    requires Initial(s) && Enterable(Run(s, steps), t, b, g)
    ensures var r := Run(s, steps);
            Run(s, steps + Entered(t, b, Leave) + [(t, Work)])
              == r.(bevs := r.bevs[b := r.bevs[b].(group := None, bit := false)],
                    groups := r.groups[g := r.groups[g].(members := AllBut(r.groups[g].members, b))])
  {
    hide Inv, Run, Initial, AllBut;
    RunEntered(s, steps, t, b, Leave);
    RunStep(s, steps + Entered(t, b, Leave), t, Work);
    var r := Run(s, steps);
    assert r.threads[t := Has(b, Leave)][t := Left(b, None)][t := Idle] == r.threads;
  }

  // Who is in a group and joins another one leaves the first and is suspended exactly if the second is.
  lemma JoinMoves(s: State, steps: seq<(nat, Action)>, t: nat, b: nat, h: nat, g: nat)
    requires Initial(s) && Enterable(Run(s, steps), t, b, h) && h != g
    requires var r := Run(s, steps); g < |r.groups| && r.groups[g].owner == None
    ensures var r := Run(s, steps);
            Run(s, steps + Entered(t, b, Join(g)) + [(t, Work), (t, Go), (t, Work)])
              == r.(bevs := r.bevs[b := r.bevs[b].(group := Some(g), bit := r.groups[g].suspended)],
                    groups := r.groups[h := r.groups[h].(members := AllBut(r.groups[h].members, b))]
                                      [g := r.groups[g].(members := [b] + r.groups[g].members)])
  {
    hide Inv, Run, Initial, AllBut;
    var r := Run(s, steps);
    var s1 := steps + Entered(t, b, Join(g));
    RunEntered(s, steps, t, b, Join(g));
    RunStep(s, s1, t, Work);
    RunStep(s, s1 + [(t, Work)], t, Go);
    RunStep(s, s1 + [(t, Work)] + [(t, Go)], t, Work);
    assert s1 + [(t, Work)] + [(t, Go)] + [(t, Work)] == s1 + [(t, Work), (t, Go), (t, Work)];
    assert Run(s, s1) == TakeOut(SetPc(SetBev(r, b, r.bevs[b].(owner := Some(t))), t, Has(b, Join(g))), t, b, h,
                                 r.bevs[b].(owner := Some(t), group := None), Left(b, Some(g)));
    assert r.threads == r.threads[t := Has(b, Join(g))][t := Left(b, Some(g))][t := Has(b, Join(g))]
                                 [t := Joined(b, g, r.groups[g].suspended)][t := Idle];
  }

  // Joining the group one is in changes nothing.
  lemma JoinAgain(s: State, steps: seq<(nat, Action)>, t: nat, b: nat, g: nat)
    requires Initial(s) && Enterable(Run(s, steps), t, b, g)
    ensures Run(s, steps + Entered(t, b, Join(g))) == Run(s, steps)
  {
    hide Inv, Run, Initial;
    RunEntered(s, steps, t, b, Join(g));
    var r := Run(s, steps);
    assert r.threads[t := Has(b, Join(g))][t := Idle] == r.threads;
    assert r.bevs[b := r.bevs[b].(owner := Some(t))][b := r.bevs[b]] == r.bevs;
  }

  // What is destroyed is no member any more.
  lemma DestroyLeaves(s: State, steps: seq<(nat, Action)>, t: nat, b: nat, g: nat)
    requires Initial(s) && Enterable(Run(s, steps), t, b, g)
    ensures var r := Run(s, steps);
            Run(s, steps + Entered(t, b, Destroy))
              == r.(bevs := r.bevs[b := r.bevs[b].(group := None, dead := true)],
                    groups := r.groups[g := r.groups[g].(members := AllBut(r.groups[g].members, b))])
  {
    hide Inv, Run, Initial, AllBut;
    RunEntered(s, steps, t, b, Destroy);
    var r := Run(s, steps);
    assert r.threads[t := Has(b, Destroy)][t := Idle] == r.threads;
  }
}
