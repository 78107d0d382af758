/**
  The fd map, the changelist and the dispatch of the epoll backend (common/libevent/evmap.c,
  common/libevent/changelist-internal.h, common/libevent/epoll.c).
  */
module Evmap {
  import opened EpollTable
  import opened Epoll

  const COUNTER_MAX := 0xffff
  const FIRST_ENTRIES := 32
  const FIRST_CHANGES := 64

  // One struct event, as far as the map sees it.
  datatype Event = Event(id: int, fd: int, wants: Interest)

  // An entry of the io map: NULL, or a struct evmap_io followed by its changelist fdinfo.
  datatype Slot = NoSlot | Slot(nread: nat, nwrite: nat, nclose: nat, events: seq<Event>, idxplus1: nat) {
    // The mask of events some listener waits for, read off the counters.
    function Old(): Interest {
      if NoSlot? then NOTHING else Interest(nread > 0, nwrite > 0, nclose > 0)
    }
  }

  function One(b: bool): nat { if b then 1 else 0 }

  function CountRead(events: seq<Event>): nat {
    if events == [] then 0 else One(events[0].wants.read) + CountRead(events[1..])
  }

  function CountWrite(events: seq<Event>): nat {
    if events == [] then 0 else One(events[0].wants.write) + CountWrite(events[1..])
  }

  function CountClose(events: seq<Event>): nat {
    if events == [] then 0 else One(events[0].wants.close) + CountClose(events[1..])
  }

  // LIST_REMOVE.
  function Without(events: seq<Event>, ev: Event): seq<Event> {
    if events == [] then [] else if events[0] == ev then events[1..] else [events[0]] + Without(events[1..], ev)
  }

  // What a list of registered events asks the kernel to report.
  ghost function Wanted(events: seq<Event>): Interest {
    Interest(exists e :: e in events && e.wants.read,
             exists e :: e in events && e.wants.write,
             exists e :: e in events && e.wants.close)
  }

  lemma {:induction false} CountsMeanWanted(events: seq<Event>)
    ensures Interest(CountRead(events) > 0, CountWrite(events) > 0, CountClose(events) > 0) == Wanted(events)
  {
    if events != [] {
      CountsMeanWanted(events[1..]);
      assert events == [events[0]] + events[1..];
    }
  }

  lemma {:induction false} CountsWithout(events: seq<Event>, ev: Event)
    requires ev in events
    ensures CountRead(events) == CountRead(Without(events, ev)) + One(ev.wants.read)
    ensures CountWrite(events) == CountWrite(Without(events, ev)) + One(ev.wants.write)
    ensures CountClose(events) == CountClose(Without(events, ev)) + One(ev.wants.close)
  {
    if events[0] != ev {
      CountsWithout(events[1..], ev);
      var w := Without(events[1..], ev);
      assert ([events[0]] + w)[1..] == w;
    }
  }

  // The counters of an entry count its listeners and fit in 16 bits (evmap_check_integrity_).
  predicate Counted(s: Slot) {
    s.Slot? ==> && s.nread == CountRead(s.events) <= COUNTER_MAX
                && s.nwrite == CountWrite(s.events) <= COUNTER_MAX
                && s.nclose == CountClose(s.events) <= COUNTER_MAX
  }

  predicate HasSlot(entries: seq<Slot>, fd: int) {
    0 <= fd < |entries| && entries[fd].Slot?
  }

  function EventsAt(entries: seq<Slot>, fd: int): seq<Event> {
    if HasSlot(entries, fd) then entries[fd].events else []
  }

  function OldAt(entries: seq<Slot>, fd: int): Interest {
    if HasSlot(entries, fd) then entries[fd].Old() else NOTHING
  }

  // The changelist position of a descriptor plus one, or 0 if no change is queued for it.
  function IdxAt(entries: seq<Slot>, fd: int): nat {
    if HasSlot(entries, fd) then entries[fd].idxplus1 else 0
  }

  predicate QueuedAt(changes: seq<EventChange>, i: int, fd: int) {
    0 <= i < |changes| && changes[i].fd == fd
  }

  // idxplus1 and the changes array are each other's inverse (event_changelist_assert_ok).
  ghost predicate Linked(entries: seq<Slot>, changes: seq<EventChange>) {
    && (forall i, fd :: QueuedAt(changes, i, fd) ==> IdxAt(entries, fd) == i + 1)
    && (forall fd :: IdxAt(entries, fd) > 0 ==> QueuedAt(changes, IdxAt(entries, fd) - 1, fd))
  }

  // A queued change never carries ADD and DEL together, deletes only what was enabled,
  // and leads to what the listeners of its descriptor want.
  predicate Aimed(want: Interest, ch: EventChange) {
    && ch.Sane()
    && (ch.read.del ==> ch.prior.read) && (ch.write.del ==> ch.prior.write) && (ch.close.del ==> ch.prior.close)
    && ch.Goal() == want
  }

  // The change that applies to a descriptor: the queued one, or a blank one.
  function Current(changes: seq<EventChange>, idxplus1: nat, fd: int, prior: Interest): EventChange
    requires idxplus1 <= |changes|
  {
    if idxplus1 == 0 then EventChange(fd, prior, UNCHANGED, UNCHANGED, UNCHANGED) else changes[idxplus1 - 1]
  }

  ghost function PendingAt(entries: seq<Slot>, changes: seq<EventChange>, fd: int): EventChange
    requires Linked(entries, changes)
  {
    Current(changes, IdxAt(entries, fd), fd, OldAt(entries, fd))
  }

  ghost predicate AllAimed(entries: seq<Slot>, changes: seq<EventChange>)
    requires Linked(entries, changes)
  {
    forall fd :: Aimed(OldAt(entries, fd), PendingAt(entries, changes, fd))
  }

  function Stored(changes: seq<EventChange>, idxplus1: nat, ch: EventChange): seq<EventChange>
    requires idxplus1 <= |changes|
  {
    if idxplus1 == 0 then changes + [ch] else changes[idxplus1 - 1 := ch]
  }

  function NewIdx(idxplus1: nat, n: nat): nat {
    if idxplus1 == 0 then n + 1 else idxplus1
  }

  function WithAdds(ch: EventChange, res: Interest): EventChange {
    ch.(read := if res.read then ADD else ch.read,
        write := if res.write then ADD else ch.write,
        close := if res.close then ADD else ch.close)
  }

  function Cancel(was: bool): Change { if was then DEL else UNCHANGED }

  function WithDels(ch: EventChange, res: Interest): EventChange {
    ch.(read := if res.read then Cancel(ch.prior.read) else ch.read,
        write := if res.write then Cancel(ch.prior.write) else ch.write,
        close := if res.close then Cancel(ch.prior.close) else ch.close)
  }

  // The kernel agrees with what the library last told it about fd: no file was closed behind
  // the map, and no delete was lost to a failed allocation.
  ghost predicate Clean(entries: seq<Slot>, changes: seq<EventChange>, kernel: Kernel, fd: int)
    requires Linked(entries, changes)
  {
    Holds(kernel, fd, PendingAt(entries, changes, fd).prior)
  }

  // fd has a queued change that is not a no-op.
  ghost predicate Effective(entries: seq<Slot>, changes: seq<EventChange>, fd: int)
    requires Linked(entries, changes)
  {
    !PendingAt(entries, changes, fd).NoOp()
  }

  // Only the entry of fd differs.
  ghost predicate SameBut(entries: seq<Slot>, entries': seq<Slot>, fd: int) {
    forall f :: f != fd ==> IdxAt(entries', f) == IdxAt(entries, f) && OldAt(entries', f) == OldAt(entries, f)
  }

  // Storing a change for one descriptor at its index keeps the map and the changelist each
  // other's inverse; every other change stays where it was.
  lemma StoreKeepsLinks(entries: seq<Slot>, changes: seq<EventChange>, entries': seq<Slot>, fd: int, ch: EventChange)
    requires Linked(entries, changes) && SameBut(entries, entries', fd)
    requires IdxAt(entries', fd) == NewIdx(IdxAt(entries, fd), |changes|) && ch.fd == fd
    ensures var changes' := Stored(changes, IdxAt(entries, fd), ch);
            && Linked(entries', changes')
            && PendingAt(entries', changes', fd) == ch
            && forall f :: f != fd ==> PendingAt(entries', changes', f) == PendingAt(entries, changes, f)
  {
    var changes' := Stored(changes, IdxAt(entries, fd), ch);
    var at := IdxAt(entries', fd) - 1;
    assert IdxAt(entries, fd) > 0 ==> QueuedAt(changes, at, fd);
    forall i, f
      ensures i != at ==> QueuedAt(changes', i, f) == QueuedAt(changes, i, f)
      ensures i == at ==> QueuedAt(changes', i, f) == (f == fd)
    {
    }
  }

  // If the stored change is aimed and keeps the prior events, every change stays aimed, no
  // descriptor's cleanness changes, and only fd's change may become effective or cancelled.
  lemma StoreStep(entries: seq<Slot>, changes: seq<EventChange>, entries': seq<Slot>, kernel: Kernel, fd: int,
                  ch: EventChange)
    requires Linked(entries, changes) && AllAimed(entries, changes) && SameBut(entries, entries', fd)
    requires IdxAt(entries', fd) == NewIdx(IdxAt(entries, fd), |changes|)
    requires ch.fd == fd && Aimed(OldAt(entries', fd), ch)
    requires ch.prior == PendingAt(entries, changes, fd).prior
    ensures var changes' := Stored(changes, IdxAt(entries, fd), ch);
            && Linked(entries', changes') && AllAimed(entries', changes')
            && (forall f :: Clean(entries', changes', kernel, f) == Clean(entries, changes, kernel, f))
            && (forall f :: f != fd ==> Effective(entries', changes', f) == Effective(entries, changes, f))
            && Effective(entries', changes', fd) == !ch.NoOp()
  {
    hide Aimed, PendingAt, Holds, Stored, Current, IdxAt, OldAt;
    StoreKeepsLinks(entries, changes, entries', fd, ch);
  }

  // New counters that want the same events leave all of it as it was.
  lemma CountStep(entries: seq<Slot>, changes: seq<EventChange>, entries': seq<Slot>, kernel: Kernel, fd: int)
    requires Linked(entries, changes) && AllAimed(entries, changes) && SameBut(entries, entries', fd)
    requires IdxAt(entries', fd) == IdxAt(entries, fd) && OldAt(entries', fd) == OldAt(entries, fd)
    ensures Linked(entries', changes) && AllAimed(entries', changes)
    ensures forall f :: PendingAt(entries', changes, f) == PendingAt(entries, changes, f)
    ensures forall f :: Clean(entries', changes, kernel, f) == Clean(entries, changes, kernel, f)
    ensures forall f :: Effective(entries', changes, f) == Effective(entries, changes, f)
  {
    hide Aimed, Holds, IdxAt, OldAt;
    assert forall f :: PendingAt(entries', changes, f) == PendingAt(entries, changes, f);
  }

  function Reindexed(s: Slot, idxplus1: nat): Slot
    requires s.Slot?
  {
    Slot(s.nread, s.nwrite, s.nclose, s.events, idxplus1)
  }

  lemma ReplacedTwice(entries: seq<Slot>, fd: nat, s: Slot, s': Slot)
    requires fd < |entries|
    ensures entries[fd := s][fd := s'] == entries[fd := s']
  {
  }

  function Plus(a: Interest, b: Interest): Interest {
    Interest(a.read || b.read, a.write || b.write, a.close || b.close)
  }

  function Minus(a: Interest, b: Interest): Interest {
    Interest(a.read && !b.read, a.write && !b.write, a.close && !b.close)
  }

  // Nothing is queued for fd.
  function Blank(fd: int, prior: Interest): EventChange {
    EventChange(fd, prior, UNCHANGED, UNCHANGED, UNCHANGED)
  }

  // What the answer r leaves for fd: 1 means that the change told is queued or that the kernel is at what
  // the listeners want; otherwise the kernel is as it was, and so is a queued change.
  ghost predicate Answered(useChangelist: bool, entries: seq<Slot>, changes: seq<EventChange>, kernel: Kernel,
                           entries': seq<Slot>, changes': seq<EventChange>, kernel': Kernel,
                           fd: int, r: int, told: EventChange)
    requires Linked(entries, changes) && Linked(entries', changes')
  {
    && (forall f :: f != fd ==> PendingAt(entries', changes', f) == PendingAt(entries, changes, f))
    && SameBut(entries, entries', fd)
    && if r == 1 && useChangelist then
         IdxAt(entries', fd) > 0 && PendingAt(entries', changes', fd) == told && kernel' == kernel
       else if r == 1 then
         IdxAt(entries', fd) == 0 && kernel' == Settle(kernel, fd, OldAt(entries', fd))
       else
         && IdxAt(entries', fd) == IdxAt(entries, fd) && kernel' == kernel
         && (IdxAt(entries, fd) > 0 ==> PendingAt(entries', changes', fd) == PendingAt(entries, changes, fd))
  }

  // A list has no room for one more listener.
  predicate Crowded(events: seq<Event>, ev: Event) {
    || CountRead(events) + One(ev.wants.read) > COUNTER_MAX
    || CountWrite(events) + One(ev.wants.write) > COUNTER_MAX
    || CountClose(events) + One(ev.wants.close) > COUNTER_MAX
  }

  // One more listener would overflow a 16-bit counter of the entry.
  predicate Full(s: Slot, ev: Event) {
    s.Slot? && (s.nread + One(ev.wants.read) > COUNTER_MAX || s.nwrite + One(ev.wants.write) > COUNTER_MAX
                || s.nclose + One(ev.wants.close) > COUNTER_MAX)
  }

  // An entry after one more listener, and after one less.
  function Joined(s: Slot, ev: Event): Slot
    requires s.Slot?
  {
    Slot(s.nread + One(ev.wants.read), s.nwrite + One(ev.wants.write), s.nclose + One(ev.wants.close),
         [ev] + s.events, s.idxplus1)
  }

  ghost predicate CanLeave(s: Slot, ev: Event) {
    s.Slot? && Counted(s) && ev in s.events
  }

  function Left(s: Slot, ev: Event): Slot
    requires CanLeave(s, ev)
  {
    CountsWithout(s.events, ev);
    Slot(s.nread - One(ev.wants.read), s.nwrite - One(ev.wants.write), s.nclose - One(ev.wants.close),
         Without(s.events, ev), s.idxplus1)
  }

  // The events whose counter a listener moves between zero and one.
  function Fresh(s: Slot, ev: Event): Interest
    requires s.Slot?
  {
    Interest(ev.wants.read && s.nread == 0, ev.wants.write && s.nwrite == 0, ev.wants.close && s.nclose == 0)
  }

  ghost predicate AllCounted(entries: seq<Slot>) {
    forall fd :: 0 <= fd < |entries| ==> Counted(entries[fd])
  }

  // Replacing one entry.
  lemma ReplaceStep(entries: seq<Slot>, fd: nat, s: Slot)
    requires HasSlot(entries, fd) && s.Slot? && AllCounted(entries) && Counted(s)
    ensures var entries' := entries[fd := s];
            && SameBut(entries, entries', fd) && AllCounted(entries') && HasSlot(entries', fd)
            && IdxAt(entries', fd) == s.idxplus1 && OldAt(entries', fd) == s.Old()
            && forall f :: EventsAt(entries', f) == if f == fd then s.events else EventsAt(entries, f)
  {
    hide Counted;
  }

  lemma JoinedIsCounted(s: Slot, ev: Event)
    requires s.Slot? && Counted(s)
    requires Joined(s, ev).nread <= COUNTER_MAX && Joined(s, ev).nwrite <= COUNTER_MAX
    requires Joined(s, ev).nclose <= COUNTER_MAX
    ensures forall idxplus1 :: Counted(Reindexed(Joined(s, ev), idxplus1))
  {
    assert ([ev] + s.events)[1..] == s.events;
  }

  // What the backend does with the change ch for fd: queue it, or apply it at once.
  predicate Submitted(useChangelist: bool, entries: seq<Slot>, changes: seq<EventChange>, kernel: Kernel,
                      idxplus1: nat, changes': seq<EventChange>, kernel': Kernel, fd: int, ch: EventChange)
  {
    if useChangelist then
      && idxplus1 == NewIdx(IdxAt(entries, fd), |changes|)
      && IdxAt(entries, fd) <= |changes|
      && changes' == Stored(changes, IdxAt(entries, fd), ch)
      && kernel' == kernel
    else
      idxplus1 == IdxAt(entries, fd) && changes' == changes && kernel' == Applied(kernel, ch)
  }

  // Submitting a change aimed at the new counters keeps the map sound and every descriptor
  // clean, and makes its own descriptor clean or, when it is queued, effective.
  lemma SubmitStep(useChangelist: bool, entries: seq<Slot>, changes: seq<EventChange>, kernel: Kernel,
                   s: Slot, changes': seq<EventChange>, kernel': Kernel, fd: nat, ch: EventChange)
    requires Linked(entries, changes) && AllAimed(entries, changes) && AllCounted(entries)
    requires !useChangelist ==> changes == []
    requires HasSlot(entries, fd) && s.Slot? && Counted(s)
    requires Submitted(useChangelist, entries, changes, kernel, s.idxplus1, changes', kernel', fd, ch)
    requires ch.fd == fd && Aimed(s.Old(), ch) && ch.prior == PendingAt(entries, changes, fd).prior
    ensures var entries' := entries[fd := s];
            && Linked(entries', changes') && AllAimed(entries', changes') && AllCounted(entries')
            && (forall f :: EventsAt(entries', f) == if f == fd then s.events else EventsAt(entries, f))
            && (forall f :: Clean(entries, changes, kernel, f) ==> Clean(entries', changes', kernel', f))
            && (forall f :: f != fd ==> Effective(entries', changes', f) == Effective(entries, changes, f))
            && (useChangelist ==> Effective(entries', changes', fd) == !ch.NoOp())
            && (!useChangelist && !ch.NoOp() ==> Clean(entries', changes', kernel', fd))
  {
    ReplaceStep(entries, fd, s);
    if useChangelist {
      StoreStep(entries, changes, entries[fd := s], kernel, fd, ch);
    } else {
      assert forall f :: IdxAt(entries, f) == 0;
    }
  }

  // Counting a descriptor down without telling the backend: no change is queued for it, and a
  // clean descriptor stays clean exactly if what its listeners want has not changed.
  lemma LoseStep(entries: seq<Slot>, changes: seq<EventChange>, entries': seq<Slot>, kernel: Kernel, fd: int)
    requires Linked(entries, changes) && AllAimed(entries, changes) && SameBut(entries, entries', fd)
    requires IdxAt(entries, fd) == IdxAt(entries', fd) == 0
    ensures Linked(entries', changes) && AllAimed(entries', changes)
    ensures forall f :: f != fd ==> Clean(entries', changes, kernel, f) == Clean(entries, changes, kernel, f)
    ensures forall f :: Effective(entries', changes, f) == Effective(entries, changes, f)
    ensures Clean(entries, changes, kernel, fd) ==>
              (Clean(entries', changes, kernel, fd) <==> OldAt(entries', fd) == OldAt(entries, fd))
  {
    assert forall f :: f != fd ==> PendingAt(entries', changes, f) == PendingAt(entries, changes, f);
  }

  // The backend's answer r to the new entry s: 1 when it took the change ch, aimed at s; 0 when
  // there was nothing to tell it; -1 when it failed.
  ghost predicate Told(useChangelist: bool, entries: seq<Slot>, changes: seq<EventChange>, kernel: Kernel,
                       s: Slot, changes': seq<EventChange>, kernel': Kernel, fd: int, ch: EventChange, r: int)
    requires Linked(entries, changes) && s.Slot?
  {
    if r == 1 then
      && Submitted(useChangelist, entries, changes, kernel, s.idxplus1, changes', kernel', fd, ch)
      && ch.fd == fd && Aimed(s.Old(), ch) && ch.prior == PendingAt(entries, changes, fd).prior
    else
      && s.idxplus1 == IdxAt(entries, fd) && changes' == changes && kernel' == kernel
      && if r == 0 then s.Old() == OldAt(entries, fd) else r == -1 && s.idxplus1 == 0
  }

  // Writing back the new entry after the backend's answer.
  lemma WriteBack(useChangelist: bool, entries: seq<Slot>, changes: seq<EventChange>, kernel: Kernel,
                  s: Slot, changes': seq<EventChange>, kernel': Kernel, fd: nat, ch: EventChange, r: int)
    requires Linked(entries, changes) && AllAimed(entries, changes) && AllCounted(entries)
    requires (!useChangelist ==> changes == []) && HasSlot(entries, fd) && s.Slot? && Counted(s)
    requires Told(useChangelist, entries, changes, kernel, s, changes', kernel', fd, ch, r)
    ensures var entries' := entries[fd := s];
            && Linked(entries', changes') && AllAimed(entries', changes') && AllCounted(entries')
            && (forall f :: EventsAt(entries', f) == if f == fd then s.events else EventsAt(entries, f))
            && (forall f :: Clean(entries, changes, kernel, f) && !(r == -1 && f == fd) ==>
                  Clean(entries', changes', kernel', f))
            && (r == -1 && Clean(entries, changes, kernel, fd) ==>
                  (Clean(entries', changes', kernel', fd) <==> s.Old() == OldAt(entries, fd)))
            && (forall f :: f != fd ==> Effective(entries', changes', f) == Effective(entries, changes, f))
            && (r == 1 && useChangelist ==> Effective(entries', changes', fd) == !ch.NoOp())
            && (r == 1 && !useChangelist && !ch.NoOp() ==> Clean(entries', changes', kernel', fd))
  {
    hide Aimed, Clean, Effective, Counted, PendingAt, IdxAt, OldAt, EventsAt;
    if r == 1 {
      SubmitStep(useChangelist, entries, changes, kernel, s, changes', kernel', fd, ch);
    } else {
      ReplaceStep(entries, fd, s);
      if r == 0 {
        CountStep(entries, changes, entries[fd := s], kernel, fd);
      } else {
        LoseStep(entries, changes, entries[fd := s], kernel, fd);
      }
    }
  }

  // The same counters above zero, and the same indices.
  ghost predicate Alike(entries: seq<Slot>, entries': seq<Slot>) {
    forall f :: IdxAt(entries', f) == IdxAt(entries, f) && OldAt(entries', f) == OldAt(entries, f)
  }

  lemma AnsweredAlike(useChangelist: bool, entries: seq<Slot>, before: seq<Slot>, changes: seq<EventChange>, kernel: Kernel,
                      entries': seq<Slot>, changes': seq<EventChange>, kernel': Kernel, fd: int, r: int, told: EventChange)
    requires Linked(entries, changes) && Linked(before, changes) && Linked(entries', changes') && Alike(entries, before)
    requires Answered(useChangelist, before, changes, kernel, entries', changes', kernel', fd, r, told)
    ensures Answered(useChangelist, entries, changes, kernel, entries', changes', kernel', fd, r, told)
  {
    hide IdxAt, OldAt, Settle;
  }

  lemma NotAnswered(useChangelist: bool, entries: seq<Slot>, before: seq<Slot>, changes: seq<EventChange>, kernel: Kernel,
                    fd: int, r: int, told: EventChange)
    requires Linked(entries, changes) && Linked(before, changes) && Alike(entries, before) && r != 1
    ensures Answered(useChangelist, entries, changes, kernel, before, changes, kernel, fd, r, told)
    ensures PendingAt(before, changes, fd) == PendingAt(entries, changes, fd)
  {
    hide IdxAt, OldAt, Settle;
  }

  // What the backend's answer leaves.
  lemma AnswerIs(useChangelist: bool, entries: seq<Slot>, changes: seq<EventChange>, kernel: Kernel,
                 s: Slot, changes': seq<EventChange>, kernel': Kernel, fd: nat, ch: EventChange, r: int)
    requires Linked(entries, changes) && (!useChangelist ==> changes == [])
    requires HasSlot(entries, fd) && s.Slot? && Linked(entries[fd := s], changes')
    requires Told(useChangelist, entries, changes, kernel, s, changes', kernel', fd, ch, r)
    requires r == 1 && !useChangelist ==> !ch.NoOp()
    ensures Answered(useChangelist, entries, changes, kernel, entries[fd := s], changes', kernel', fd, r, ch)
  {
    var entries' := entries[fd := s];
    assert SameBut(entries, entries', fd) && IdxAt(entries', fd) == s.idxplus1 && OldAt(entries', fd) == s.Old();
    hide Aimed;
    if r == 1 && useChangelist {
      StoreKeepsLinks(entries, changes, entries', fd, ch);
    } else if r == 1 {
      assert Aimed(s.Old(), ch);
      assert kernel' == Settle(kernel, fd, s.Old()) by {
        assert ch.Goal() == s.Old();
      }
    }
  }

  // The events that a listener moves between zero and one listener.
  lemma FreshIs(s: Slot, ev: Event)
    requires s.Slot?
    ensures Fresh(s, ev) == Minus(ev.wants, s.Old()) && Joined(s, ev).Old() == Plus(s.Old(), ev.wants)
  {
  }

  lemma FreshLeft(s: Slot, ev: Event)
    requires CanLeave(s, ev)
    ensures Fresh(Left(s, ev), ev) == Minus(s.Old(), Left(s, ev).Old())
    ensures Left(s, ev).Old() == Minus(s.Old(), Minus(s.Old(), Left(s, ev).Old()))
  {
    CountsWithout(s.events, ev);
  }

  lemma LeftIsCounted(s: Slot, ev: Event)
    requires CanLeave(s, ev)
    ensures forall idxplus1 :: Counted(Reindexed(Left(s, ev), idxplus1))
  {
    CountsWithout(s.events, ev);
  }

  // A delete that is applied at once is not a no-op.
  lemma OneOffIsEffective(s: Slot, ev: Event, ch: EventChange)
    requires CanLeave(s, ev) && Fresh(Left(s, ev), ev) != NOTHING
    requires ch == WithDels(EventChange(ch.fd, s.Old(), UNCHANGED, UNCHANGED, UNCHANGED), Fresh(Left(s, ev), ev))
    ensures !ch.NoOp()
  {
    CountsWithout(s.events, ev);
  }

  // What is told of the entry that a listener has left, from the backend's answer.
  lemma DropTold(useChangelist: bool, entries: seq<Slot>, changes: seq<EventChange>, kernel: Kernel, ev: Event,
                 idxplus1: nat, changes': seq<EventChange>, kernel': Kernel, fd: nat, ch: EventChange, r: int)
    requires Linked(entries, changes) && AllAimed(entries, changes) && AllCounted(entries)
    requires !useChangelist ==> changes == []
    requires HasSlot(entries, fd) && CanLeave(entries[fd], ev)
    requires ch == WithDels(PendingAt(entries, changes, fd), Fresh(Left(entries[fd], ev), ev))
    requires r == 0 <==> Fresh(Left(entries[fd], ev), ev) == NOTHING
    requires r == 1 || r == 0 || (r == -1 && idxplus1 == 0)
    requires r != 1 ==> idxplus1 == entries[fd].idxplus1 && changes' == changes && kernel' == kernel
    requires r == 1 ==> Submitted(useChangelist, entries, changes, kernel, idxplus1, changes', kernel', fd, ch)
    ensures var s := Reindexed(Left(entries[fd], ev), idxplus1);
            && Counted(s)
            && Told(useChangelist, entries, changes, kernel, s, changes', kernel', fd, ch, r)
            && (r == -1 ==> s.Old() != OldAt(entries, fd))
            && (r == 1 && !useChangelist ==> !ch.NoOp())
  {
    var ctx, pending := entries[fd], PendingAt(entries, changes, fd);
    hide CountRead, CountWrite, CountClose, Submitted, Without;
    CountsWithout(ctx.events, ev);
    LeftIsCounted(ctx, ev);
    assert Aimed(ctx.Old(), pending) && pending.fd == fd;
    DelAims(ctx, pending, ev);
    if !useChangelist && r != 0 {
      OneOffIsEffective(ctx, ev, ch);
    }
    hide Counted, WithDels, Aimed;
    OldAfterDrop(ctx, ev);
  }

  // The events that are there change exactly if a counter goes down to zero.
  lemma OldAfterDrop(s: Slot, ev: Event)
    requires CanLeave(s, ev)
    ensures Left(s, ev).Old() == s.Old() <==> Fresh(Left(s, ev), ev) == NOTHING
  {
    CountsWithout(s.events, ev);
  }

  lemma DistinctFds(entries: seq<Slot>, changes: seq<EventChange>)
    requires Linked(entries, changes)
    ensures forall i, j :: 0 <= i < j < |changes| ==> changes[i].fd != changes[j].fd
  {
    forall i, j | 0 <= i < j < |changes|
      ensures changes[i].fd != changes[j].fd
    {
      assert QueuedAt(changes, i, changes[i].fd) && QueuedAt(changes, j, changes[j].fd);
    }
  }

  lemma AllSane(entries: seq<Slot>, changes: seq<EventChange>)
    requires Linked(entries, changes) && AllAimed(entries, changes)
    ensures forall i :: 0 <= i < |changes| ==> changes[i].Sane()
  {
    forall i | 0 <= i < |changes|
      ensures changes[i].Sane()
    {
      assert QueuedAt(changes, i, changes[i].fd);
      assert Aimed(OldAt(entries, changes[i].fd), PendingAt(entries, changes, changes[i].fd));
    }
  }

  // Applying every queued change leaves fd with what its listeners want exactly if fd was clean
  // or had an effective change.
  lemma DispatchSettles(entries: seq<Slot>, changes: seq<EventChange>, kernel: Kernel, fd: int)
    requires Linked(entries, changes) && AllAimed(entries, changes)
    ensures Holds(AppliedAll(kernel, changes), fd, OldAt(entries, fd))
            <==> Clean(entries, changes, kernel, fd) || Effective(entries, changes, fd)
    ensures Entry(AppliedAll(kernel, changes), fd)
            == if Effective(entries, changes, fd) then EntryFor(OldAt(entries, fd)) else Entry(kernel, fd)
  {
    DistinctFds(entries, changes);
    AppliedAllSettles(kernel, changes, fd);
    var at := IdxAt(entries, fd) - 1;
    assert Aimed(OldAt(entries, fd), PendingAt(entries, changes, fd));
    if at >= 0 {
      assert QueuedAt(changes, at, fd);
      forall i | 0 <= i < |changes| && changes[i].fd == fd
        ensures i == at
      {
        assert QueuedAt(changes, i, fd);
      }
    } else {
      forall i | 0 <= i < |changes|
        ensures changes[i].fd != fd
      {
        assert !QueuedAt(changes, i, fd);
      }
    }
  }

  lemma WantedAt(entries: seq<Slot>, fd: int)
    requires AllCounted(entries)
    ensures OldAt(entries, fd) == Wanted(EventsAt(entries, fd))
  {
    if HasSlot(entries, fd) {
      assert Counted(entries[fd]);
    }
    CountsMeanWanted(EventsAt(entries, fd));
  }

  // The same once the changelist is cleared.
  lemma ClearedSettles(entries: seq<Slot>, changes: seq<EventChange>, kernel: Kernel, entries': seq<Slot>, fd: int)
    requires Linked(entries, changes) && AllAimed(entries, changes) && AllCounted(entries')
    requires forall f :: OldAt(entries', f) == OldAt(entries, f) && IdxAt(entries', f) == 0
    ensures Linked(entries', []) && AllAimed(entries', [])
    ensures var kernel' := AppliedAll(kernel, changes);
            && Holds(kernel', fd, Wanted(EventsAt(entries', fd)))
               == (Clean(entries, changes, kernel, fd) || Effective(entries, changes, fd))
            && Clean(entries', [], kernel', fd) == Holds(kernel', fd, Wanted(EventsAt(entries', fd)))
            && Entry(kernel', fd) == if Effective(entries, changes, fd) then EntryFor(OldAt(entries, fd)) else Entry(kernel, fd)
  {
    DispatchSettles(entries, changes, kernel, fd);
    WantedAt(entries', fd);
  }

  // Coalescing an add into any aimed change aims it at the new listeners; the result is
  // never a no-op.
  lemma AddAims(s: Slot, ch: EventChange, ev: Event)
    requires s.Slot? && Aimed(s.Old(), ch)
    ensures Aimed(Joined(s, ev).Old(), WithAdds(ch, Fresh(s, ev)))
    ensures Fresh(s, ev) != NOTHING ==> !WithAdds(ch, Fresh(s, ev)).NoOp()
  {
  }

  // Coalescing a delete into any aimed change aims it at the remaining listeners.
  lemma DelAims(s: Slot, ch: EventChange, ev: Event)
    requires CanLeave(s, ev) && Aimed(s.Old(), ch)
    ensures Aimed(Left(s, ev).Old(), WithDels(ch, Fresh(Left(s, ev), ev)))
  {
  }

  class EventBase {
    const useChangelist: bool
    // Whether an allocation may fail.
    const scarce: bool
    const poller: Poller
    var entries: seq<Slot>
    var changes: seq<EventChange>
    var changesSize: nat

    // Kept by every operation, allocation failures and files closed behind the map included.
    ghost predicate Valid()
      reads this
    {
      && AllCounted(entries)
      && Linked(entries, changes)
      && AllAimed(entries, changes)
      && |changes| <= changesSize
      && (!useChangelist ==> changes == [])
    }

    ghost function Events(fd: int): seq<Event>
      reads this
    {
      EventsAt(entries, fd)
    }

    ghost predicate CleanAt(fd: int)
      requires Valid()
      reads this, poller
    {
      Clean(entries, changes, poller.kernel, fd)
    }

    ghost predicate EffectiveAt(fd: int)
      requires Valid()
      reads this
    {
      Effective(entries, changes, fd)
    }

    // The queued change of fd, or a blank one.
    ghost function Pending(fd: int): EventChange
      requires Valid()
      reads this
    {
      PendingAt(entries, changes, fd)
    }

    // The events that some listener of fd waits for, as the counters have it.
    ghost function Asks(fd: int): Interest
      reads this
    {
      OldAt(entries, fd)
    }

    // The kernel reports on fd exactly the events its listeners wait for.
    ghost predicate Right(fd: int)
      reads this, poller
    {
      Holds(poller.kernel, fd, Wanted(Events(fd)))
    }

    constructor (useChangelist: bool, scarce: bool)
      ensures Valid() && this.useChangelist == useChangelist && this.scarce == scarce && fresh(poller)
      ensures forall fd :: Events(fd) == []
      ensures forall fd :: CleanAt(fd)
      ensures changes == [] && poller.kernel == map[]
    {
      this.useChangelist, this.scarce := useChangelist, scarce;
      poller := new Poller();
      entries, changes, changesSize := [], [], 0;
    }

    // mm_realloc and mm_calloc: whether memory is found is not for the program to say.
    method Allocate() returns (ok: bool)
      ensures !scarce ==> ok
    {
      if scarce {
        ok := *;
      } else {
        ok := true;
      }
    }

    // evmap_make_space.
    method MakeSpace(slot: nat) returns (r: int)
      modifies this`entries
      ensures r == 0 || (r == -1 && scarce)
      ensures r == -1 ==> entries == old(entries)
      ensures r == 0 ==> slot < |entries|
      ensures old(entries) <= entries
      ensures forall i :: |old(entries)| <= i < |entries| ==> entries[i] == NoSlot
    {
      if |entries| <= slot {
        var nentries := if |entries| > 0 then |entries| else FIRST_ENTRIES;
        while nentries <= slot
          invariant |entries| <= nentries && 0 < nentries
        {
          nentries := 2 * nentries;
        }
        var ok := Allocate();
        if !ok {
          return -1;
        }
        entries := entries + seq(nentries - |entries|, _ => NoSlot);
      }
      return 0;
    }

    // event_changelist_grow.
    method GrowChangelist() returns (ok: bool)
      modifies this`changesSize
      ensures if ok then changesSize > old(changesSize) else changesSize == old(changesSize)
      ensures !scarce ==> ok
    {
      ok := Allocate();
      if ok {
        changesSize := if changesSize < FIRST_CHANGES then FIRST_CHANGES else 2 * changesSize;
      }
    }

    // event_changelist_get_or_construct: the index of the change for fd, or -1 without memory.
    method GetOrConstruct(fd: nat, prior: Interest) returns (i: int)
      requires HasSlot(entries, fd) && Linked(entries, changes) && |changes| <= changesSize
      modifies this`entries, this`changes, this`changesSize
      ensures |changes| <= changesSize
      ensures i >= 0 || (i == -1 && scarce)
      ensures i == -1 ==> entries == old(entries) && changes == old(changes) && IdxAt(entries, fd) == 0
      ensures i >= 0 ==>
                var s := old(entries)[fd];
                && i + 1 == NewIdx(s.idxplus1, |old(changes)|)
                && entries == old(entries)[fd := Reindexed(s, i + 1)]
                && changes == Stored(old(changes), IdxAt(old(entries), fd),
                                     Current(old(changes), IdxAt(old(entries), fd), fd, prior))
    {
      var s := entries[fd];
      if s.idxplus1 == 0 {
        if |changes| == changesSize {
          var ok := GrowChangelist();
          if !ok {
            return -1;
          }
        }
        i := |changes|;
        changes := changes + [EventChange(fd, prior, UNCHANGED, UNCHANGED, UNCHANGED)];
        entries := entries[fd := Reindexed(s, i + 1)];
      } else {
        i := s.idxplus1 - 1;
        assert entries == entries[fd := s];
      }
    }

    // event_changelist_add_.
    method ChangelistAdd(fd: nat, prior: Interest, res: Interest) returns (r: int)
      requires HasSlot(entries, fd) && Linked(entries, changes) && |changes| <= changesSize
      modifies this`entries, this`changes, this`changesSize
      ensures |changes| <= changesSize
      ensures r == 0 || (r == -1 && scarce)
      ensures r == -1 ==> entries == old(entries) && changes == old(changes) && IdxAt(entries, fd) == 0
      ensures r == 0 ==>
                var s := old(entries)[fd];
                && entries == old(entries)[fd := Reindexed(s, NewIdx(s.idxplus1, |old(changes)|))]
                && changes == Stored(old(changes), IdxAt(old(entries), fd),
                                     WithAdds(Current(old(changes), IdxAt(old(entries), fd), fd, prior), res))
    {
      var i := GetOrConstruct(fd, prior);
      if i < 0 {
        return -1;
      }
      var change := changes[i];
      if res.read {
        change := change.(read := ADD);
      }
      if res.write {
        change := change.(write := ADD);
      }
      if res.close {
        change := change.(close := ADD);
      }
      changes := changes[i := change];
      return 0;
    }

    // event_changelist_del_: deleting what was not enabled before the changes cancels the add.
    method ChangelistDel(fd: nat, prior: Interest, res: Interest) returns (r: int)
      requires HasSlot(entries, fd) && Linked(entries, changes) && |changes| <= changesSize
      modifies this`entries, this`changes, this`changesSize
      ensures |changes| <= changesSize
      ensures r == 0 || (r == -1 && scarce)
      ensures r == -1 ==> entries == old(entries) && changes == old(changes) && IdxAt(entries, fd) == 0
      ensures r == 0 ==>
                var s := old(entries)[fd];
                && entries == old(entries)[fd := Reindexed(s, NewIdx(s.idxplus1, |old(changes)|))]
                && changes == Stored(old(changes), IdxAt(old(entries), fd),
                                     WithDels(Current(old(changes), IdxAt(old(entries), fd), fd, prior), res))
    {
      var i := GetOrConstruct(fd, prior);
      if i < 0 {
        return -1;
      }
      var change := changes[i];
      if res.read {
        change := change.(read := if !change.prior.read then UNCHANGED else DEL);
      }
      if res.write {
        change := change.(write := if !change.prior.write then UNCHANGED else DEL);
      }
      if res.close {
        change := change.(close := if !change.prior.close then UNCHANGED else DEL);
      }
      changes := changes[i := change];
      return 0;
    }

    // epoll_nochangelist_add.
    method NochangelistAdd(fd: nat, prior: Interest, res: Interest) returns (r: int)
      modifies poller
      ensures r == 0
      ensures poller.kernel == if res == NOTHING then old(poller.kernel)
                               else Settle(old(poller.kernel), fd, Plus(prior, res))
    {
      var ch := EventChange(fd, prior, UNCHANGED, UNCHANGED, UNCHANGED);
      if res.write {
        ch := ch.(write := ADD);
      }
      if res.read {
        ch := ch.(read := ADD);
      }
      if res.close {
        ch := ch.(close := ADD);
      }
      r := poller.ApplyOneChange(ch);
    }

    // epoll_nochangelist_del.
    method NochangelistDel(fd: nat, prior: Interest, res: Interest) returns (r: int)
      modifies poller
      ensures r == 0
      ensures poller.kernel == if res == NOTHING then old(poller.kernel)
                               else Settle(old(poller.kernel), fd, Minus(prior, res))
    {
      var ch := EventChange(fd, prior, UNCHANGED, UNCHANGED, UNCHANGED);
      if res.write {
        ch := ch.(write := DEL);
      }
      if res.read {
        ch := ch.(read := DEL);
      }
      if res.close {
        ch := ch.(close := DEL);
      }
      r := poller.ApplyOneChange(ch);
    }

    // The entry for fd, constructed if it is not there (GET_IO_SLOT_AND_CTOR).
    method GetSlot(fd: nat) returns (ok: bool)
      requires Valid()
      modifies this`entries
      ensures Valid()
      ensures if ok then HasSlot(entries, fd) else scarce
      ensures forall f :: Events(f) == old(Events(f))
      ensures forall f :: CleanAt(f) == old(CleanAt(f)) && EffectiveAt(f) == old(EffectiveAt(f))
      ensures Alike(old(entries), entries)
    {
      hide Linked, AllAimed;
      if fd >= |entries| {
        var r := MakeSpace(fd);
        if r == -1 {
          return false;
        }
      }
      if entries[fd].NoSlot? {
        ok := Allocate();
        if !ok {
          CountStep(old(entries), changes, entries, poller.kernel, fd);
          return false;
        }
        entries := entries[fd := Slot(0, 0, 0, [], 0)];
      }
      CountStep(old(entries), changes, entries, poller.kernel, fd);
      return true;
    }

    // Tell the backend (evsel->add), if there is anything to tell.
    method BackendAdd(fd: nat, prior: Interest, res: Interest) returns (r: int)
      requires Valid() && HasSlot(entries, fd) && prior == OldAt(entries, fd)
      modifies this`entries, this`changes, this`changesSize, poller
      ensures |changes| <= changesSize && HasSlot(entries, fd)
      ensures r == 0 <==> res == NOTHING
      ensures r == 1 || r == 0 || (r == -1 && scarce && entries[fd].idxplus1 == 0)
      ensures r != 1 ==> entries[fd].idxplus1 == old(IdxAt(entries, fd))
      ensures r != 1 ==> entries == old(entries) && changes == old(changes) && poller.kernel == old(poller.kernel)
      ensures useChangelist ==> poller.kernel == old(poller.kernel)
      ensures !useChangelist ==> changes == old(changes)
      ensures entries == old(entries)[fd := Reindexed(old(entries)[fd], entries[fd].idxplus1)]
      ensures r == 1 ==> Submitted(useChangelist, old(entries), old(changes), old(poller.kernel), entries[fd].idxplus1,
                                   changes, poller.kernel, fd,
                                   old(WithAdds(PendingAt(entries, changes, fd), res)))
    {
      if res == NOTHING {
        return 0;
      }
      if useChangelist {
        r := ChangelistAdd(fd, prior, res);
      } else {
        r := NochangelistAdd(fd, prior, res);
      }
      if r == 0 {
        r := 1;
      }
    }

    // Tell the backend (evsel->del), if there is anything to tell.
    method BackendDel(fd: nat, prior: Interest, res: Interest) returns (r: int)
      requires Valid() && HasSlot(entries, fd) && prior == OldAt(entries, fd)
      requires (res.read ==> prior.read) && (res.write ==> prior.write) && (res.close ==> prior.close)
      modifies this`entries, this`changes, this`changesSize, poller
      ensures |changes| <= changesSize && HasSlot(entries, fd)
      ensures r == 0 <==> res == NOTHING
      ensures r == 1 || r == 0 || (r == -1 && scarce && entries[fd].idxplus1 == 0)
      ensures r != 1 ==> entries[fd].idxplus1 == old(IdxAt(entries, fd))
      ensures r != 1 ==> entries == old(entries) && changes == old(changes) && poller.kernel == old(poller.kernel)
      ensures useChangelist ==> poller.kernel == old(poller.kernel)
      ensures !useChangelist ==> changes == old(changes)
      ensures entries == old(entries)[fd := Reindexed(old(entries)[fd], entries[fd].idxplus1)]
      ensures r == 1 ==> Submitted(useChangelist, old(entries), old(changes), old(poller.kernel), entries[fd].idxplus1,
                                   changes, poller.kernel, fd,
                                   old(WithDels(PendingAt(entries, changes, fd), res)))
    {
      if res == NOTHING {
        return 0;
      }
      if useChangelist {
        r := ChangelistDel(fd, prior, res);
      } else {
        r := NochangelistDel(fd, prior, res);
      }
      if r == 0 {
        r := 1;
      }
    }

    // evmap_io_add_ from the counters on: count the listener, telling the backend if it is the
    // first for some event.
    method CountUp(fd: nat, ev: Event) returns (r: int, ghost ch: EventChange)
      requires Valid() && HasSlot(entries, fd) && ev.fd == fd
      modifies this`entries, this`changes, this`changesSize, poller
      ensures |changes| <= changesSize && HasSlot(entries, fd)
      ensures r == -1 ==> entries == old(entries) && changes == old(changes) && poller.kernel == old(poller.kernel)
      ensures if Full(old(entries)[fd], ev) then r == -1 else r != -1 || scarce
      ensures r != -1 ==>
                var s := Reindexed(Joined(old(entries)[fd], ev), entries[fd].idxplus1);
                && entries == old(entries)[fd := s]
                && Counted(s)
                && Told(useChangelist, old(entries), old(changes), old(poller.kernel), s, changes, poller.kernel, fd, ch, r)
                && (r == 1 ==> !ch.NoOp())
      ensures ch == old(WithAdds(PendingAt(entries, changes, fd), Fresh(entries[fd], ev)))
      ensures r >= 0 ==> (r == 0 <==> Fresh(old(entries)[fd], ev) == NOTHING)
    {
      hide Counted, Submitted, IdxAt, CountWrite, Aimed;
      var ctx := entries[fd];
      var prior := ctx.Old();
      var nread := ctx.nread + One(ev.wants.read);
      var nwrite := ctx.nwrite + One(ev.wants.write);
      var nclose := ctx.nclose + One(ev.wants.close);
      var res := Interest(ev.wants.read && nread == 1, ev.wants.write && nwrite == 1, ev.wants.close && nclose == 1);
      ch := WithAdds(PendingAt(entries, changes, fd), res);
      if nread > COUNTER_MAX || nwrite > COUNTER_MAX || nclose > COUNTER_MAX {
        return -1, ch;
      }
      AddAims(ctx, PendingAt(entries, changes, fd), ev);
      JoinedIsCounted(ctx, ev);
      r := BackendAdd(fd, prior, res);
      if r == -1 {
        return -1, ch;
      }
      ReplacedTwice(old(entries), fd, entries[fd], Reindexed(Joined(ctx, ev), entries[fd].idxplus1));
      entries := entries[fd := Slot(nread, nwrite, nclose, [ev] + ctx.events, entries[fd].idxplus1)];
    }

    // evmap_io_del_ for a listener of fd: it is dropped even if the backend fails.
    method CountDown(fd: nat, ev: Event) returns (r: int, ghost ch: EventChange)
      requires Valid() && ev.fd == fd && ev in Events(fd)
      modifies this`entries, this`changes, this`changesSize, poller
      ensures |changes| <= changesSize && HasSlot(entries, fd)
      ensures CanLeave(old(entries)[fd], ev)
      ensures r == -1 ==> scarce
      ensures var s := Reindexed(Left(old(entries)[fd], ev), entries[fd].idxplus1);
              && entries == old(entries)[fd := s]
              && Counted(s)
              && Told(useChangelist, old(entries), old(changes), old(poller.kernel), s, changes, poller.kernel, fd, ch, r)
              && (r == -1 ==> s.Old() != old(OldAt(entries, fd)))
              && (r == 1 && !useChangelist ==> !ch.NoOp())
      ensures ch == old(WithDels(PendingAt(entries, changes, fd), Fresh(Left(entries[fd], ev), ev)))
      ensures r == 0 <==> Fresh(Left(old(entries)[fd], ev), ev) == NOTHING
    {
      hide CountRead, CountWrite, CountClose, Counted, Submitted, Told, WithDels, Aimed, Clean, Effective, Linked, AllAimed, PendingAt, NewIdx;
      var ctx := entries[fd];
      CanBeLeft(fd, ev);
      var prior := ctx.Old();
      ghost var es, left := entries, Left(ctx, ev);
      var nread := ctx.nread - One(ev.wants.read);
      var nwrite := ctx.nwrite - One(ev.wants.write);
      var nclose := ctx.nclose - One(ev.wants.close);
      var res := Interest(ev.wants.read && nread == 0, ev.wants.write && nwrite == 0, ev.wants.close && nclose == 0);
      ch := WithDels(PendingAt(entries, changes, fd), res);
      r := BackendDel(fd, prior, res);
      DropTold(useChangelist, es, old(changes), old(poller.kernel), ev, entries[fd].idxplus1, changes, poller.kernel,
               fd, ch, r);
      ReplacedTwice(es, fd, entries[fd], Reindexed(left, entries[fd].idxplus1));
      entries := entries[fd := Slot(nread, nwrite, nclose, Without(ctx.events, ev), entries[fd].idxplus1)];
    }

    lemma CanBeLeft(fd: nat, ev: Event)
      requires Valid() && ev in Events(fd)
      ensures HasSlot(entries, fd) && CanLeave(entries[fd], ev)
      ensures ev.wants.read ==> entries[fd].nread > 0
      ensures ev.wants.write ==> entries[fd].nwrite > 0
      ensures ev.wants.close ==> entries[fd].nclose > 0
    {
      CountsWithout(entries[fd].events, ev);
    }

    // evmap_io_add_ once the entry is there.
    method AddAt(fd: nat, ev: Event) returns (r: int)
      requires Valid() && HasSlot(entries, fd) && ev.fd == fd
      modifies this`entries, this`changes, this`changesSize, poller
      ensures Valid()
      ensures -1 <= r <= 1
      ensures if Crowded(old(Events(fd)), ev) then r == -1 else r != -1 || scarce
      ensures forall f :: Events(f) == if f == fd && r >= 0 then [ev] + old(Events(f)) else old(Events(f))
      ensures forall f :: old(CleanAt(f)) ==> CleanAt(f)
      ensures forall f :: f != fd ==> EffectiveAt(f) == old(EffectiveAt(f))
      ensures r == 1 ==> if useChangelist then EffectiveAt(fd) else CleanAt(fd)
      ensures useChangelist || r < 1 ==> poller.kernel == old(poller.kernel)
      ensures Asks(fd) == if r >= 0 then Plus(old(Asks(fd)), ev.wants) else old(Asks(fd))
      ensures r >= 0 ==> (r == 1 <==> Asks(fd) != old(Asks(fd)))
      ensures Answered(useChangelist, old(entries), old(changes), old(poller.kernel), entries, changes, poller.kernel,
                       fd, r, WithAdds(old(Pending(fd)), Minus(ev.wants, old(Asks(fd)))))
    {
      hide Linked, AllAimed, IdxAt, Plus, WithAdds;
      assert Full(entries[fd], ev) == Crowded(Events(fd), ev) by {
        assert Counted(entries[fd]);
      }
      hide Aimed, Clean, Effective, Counted, PendingAt, Applied, Stored, Full, Crowded, Settle, Told;
      FreshIs(entries[fd], ev);
      ghost var ch;
      r, ch := CountUp(fd, ev);
      if r != -1 {
        WriteBack(useChangelist, old(entries), old(changes), old(poller.kernel),
                  entries[fd], changes, poller.kernel, fd, ch, r);
        AnswerIs(useChangelist, old(entries), old(changes), old(poller.kernel),
                 entries[fd], changes, poller.kernel, fd, ch, r);
      }
    }

    // evmap_io_add_: an event on a negative descriptor is ignored; -1 leaves the map as it was.
    method IoAdd(ev: Event) returns (r: int)
      requires Valid()
      modifies this`entries, this`changes, this`changesSize, poller
      ensures Valid()
      ensures -1 <= r <= 1
      ensures ev.fd < 0 ==> r == 0
      ensures ev.fd >= 0 ==> if Crowded(old(Events(ev.fd)), ev) then r == -1 else r != -1 || scarce
      ensures forall fd :: Events(fd) == if fd == ev.fd >= 0 && r >= 0 then [ev] + old(Events(fd)) else old(Events(fd))
      ensures forall fd :: old(CleanAt(fd)) ==> CleanAt(fd)
      ensures forall fd :: fd != ev.fd ==> EffectiveAt(fd) == old(EffectiveAt(fd))
      ensures r == 1 ==> if useChangelist then EffectiveAt(ev.fd) else CleanAt(ev.fd)
      ensures useChangelist || r < 1 ==> poller.kernel == old(poller.kernel)
      ensures Asks(ev.fd) == if r >= 0 && ev.fd >= 0 then Plus(old(Asks(ev.fd)), ev.wants) else old(Asks(ev.fd))
      ensures r >= 0 ==> (r == 1 <==> Asks(ev.fd) != old(Asks(ev.fd)))
      ensures Answered(useChangelist, old(entries), old(changes), old(poller.kernel), entries, changes, poller.kernel,
                       ev.fd, r, WithAdds(old(Pending(ev.fd)), Minus(ev.wants, old(Asks(ev.fd)))))
    {
      hide Settle, WithAdds, Crowded, Answered, Plus, Minus;
      ghost var told := WithAdds(Pending(ev.fd), Minus(ev.wants, Asks(ev.fd)));
      NotAnswered(useChangelist, entries, entries, changes, poller.kernel, ev.fd, 0, told);
      if ev.fd < 0 {
        return 0;
      }
      var ok := GetSlot(ev.fd);
      NotAnswered(useChangelist, old(entries), entries, changes, poller.kernel, ev.fd, -1, told);
      if !ok {
        return -1;
      }
      ghost var before := entries;
      r := AddAt(ev.fd, ev);
      AnsweredAlike(useChangelist, old(entries), before, old(changes), old(poller.kernel), entries, changes, poller.kernel,
                    ev.fd, r, told);
    }

    // evmap_io_del_.
    method IoDel(ev: Event) returns (r: int)
      requires Valid() && (ev.fd >= 0 ==> ev in Events(ev.fd))
      modifies this`entries, this`changes, this`changesSize, poller
      ensures Valid()
      ensures -1 <= r <= 1
      ensures r == -1 ==> scarce
      ensures forall fd :: Events(fd) == if fd == ev.fd >= 0 then Without(old(Events(fd)), ev) else old(Events(fd))
      ensures forall fd :: old(CleanAt(fd)) && !(r == -1 && fd == ev.fd) ==> CleanAt(fd)
      ensures r == -1 && old(CleanAt(ev.fd)) ==> !CleanAt(ev.fd)
      ensures forall fd :: fd != ev.fd ==> EffectiveAt(fd) == old(EffectiveAt(fd))
      ensures useChangelist || r < 1 ==> poller.kernel == old(poller.kernel)
      ensures r == 0 <==> Asks(ev.fd) == old(Asks(ev.fd))
      ensures r == -1 ==> IdxAt(entries, ev.fd) == 0
      ensures Asks(ev.fd) == Minus(old(Asks(ev.fd)), Minus(old(Asks(ev.fd)), Asks(ev.fd)))
      ensures Answered(useChangelist, old(entries), old(changes), old(poller.kernel), entries, changes, poller.kernel,
                       ev.fd, r, WithDels(old(Pending(ev.fd)), Minus(old(Asks(ev.fd)), Asks(ev.fd))))
    {
      hide Linked, AllAimed, Counted, Fresh, WithDels, Aimed, Stored;
      if ev.fd < 0 {
        return 0;
      }
      hide Clean, Effective, PendingAt, Applied, Settle, Without;
      CanBeLeft(ev.fd, ev);
      FreshLeft(entries[ev.fd], ev);
      OldAfterDrop(entries[ev.fd], ev);
      ghost var ch;
      r, ch := CountDown(ev.fd, ev);
      WriteBack(useChangelist, old(entries), old(changes), old(poller.kernel),
                entries[ev.fd], changes, poller.kernel, ev.fd, ch, r);
      AnswerIs(useChangelist, old(entries), old(changes), old(poller.kernel),
               entries[ev.fd], changes, poller.kernel, ev.fd, ch, r);
    }

    // event_changelist_remove_all_.
    method RemoveAll()
      requires |changes| <= changesSize && Linked(entries, changes) && AllCounted(entries)
      modifies this`entries, this`changes
      ensures changes == [] && AllCounted(entries)
      ensures forall fd :: EventsAt(entries, fd) == old(EventsAt(entries, fd))
      ensures forall fd :: OldAt(entries, fd) == old(OldAt(entries, fd)) && IdxAt(entries, fd) == 0
    {
      for i := 0 to |changes|
        invariant changes == old(changes) && AllCounted(entries)
        invariant forall fd :: EventsAt(entries, fd) == old(EventsAt(entries, fd))
        invariant forall fd :: OldAt(entries, fd) == old(OldAt(entries, fd))
        invariant forall fd :: IdxAt(entries, fd) == var idx := old(IdxAt(entries, fd)); if idx <= i then 0 else idx
      {
        var fd := changes[i].fd;
        assert QueuedAt(changes, i, fd);
        assert IdxAt(entries, fd) == i + 1;
        ghost var before := entries;
        entries := entries[fd := Reindexed(entries[fd], 0)];
        ReplaceStep(before, fd, entries[fd]);
      }
      forall fd
        ensures old(IdxAt(entries, fd)) <= |changes|
      {
        assert old(IdxAt(entries, fd)) > 0 ==> QueuedAt(changes, old(IdxAt(entries, fd)) - 1, fd);
      }
      changes := [];
    }

    // The part of epoll_dispatch before the wait: apply the changes, then clear them.
    // Afterwards a descriptor is right exactly if it was clean or had a change that is not a
    // no-op.
    method Dispatch() returns (r: int)
      requires Valid()
      modifies this`entries, this`changes, poller
      ensures Valid() && changes == [] && r == 0
      ensures forall fd :: Events(fd) == old(Events(fd))
      ensures forall fd :: Right(fd) == old(CleanAt(fd) || EffectiveAt(fd))
      ensures forall fd :: CleanAt(fd) == Right(fd)
      ensures forall fd :: Asks(fd) == old(Asks(fd))
      ensures forall fd :: Entry(poller.kernel, fd) == if old(EffectiveAt(fd)) then EntryFor(Asks(fd))
                                                       else old(Entry(poller.kernel, fd))
    {
      AllSane(entries, changes);
      r := poller.ApplyChanges(changes);
      RemoveAll();
      forall fd
        ensures Linked(entries, changes) && AllAimed(entries, changes)
        ensures Right(fd) == old(CleanAt(fd) || EffectiveAt(fd))
        ensures Clean(entries, changes, poller.kernel, fd) == Right(fd)
        ensures Entry(poller.kernel, fd) == if old(EffectiveAt(fd)) then EntryFor(Asks(fd))
                                            else old(Entry(poller.kernel, fd))
      {
        ClearedSettles(old(entries), old(changes), old(poller.kernel), entries, fd);
      }
    }

    // A file is closed, or closed and reopened, behind the map's back: the kernel's entry for
    // its descriptor becomes anything at all.
    method Disturb(fd: int, events: Interest)
      requires Valid()
      modifies poller
      ensures Valid()
      ensures forall f :: f != fd ==> CleanAt(f) == old(CleanAt(f))
      ensures forall f :: Entry(poller.kernel, f) == if f == fd then EntryFor(events) else old(Entry(poller.kernel, f))
    {
      poller.kernel := Settle(poller.kernel, fd, events);
    }
  }
}
