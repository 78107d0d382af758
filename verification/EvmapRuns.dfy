/**
  Whole runs of the fd map: event_add and event_del on any descriptors, dispatches, and files
  closed behind the map, on either epoll backend.
  */
module EvmapRuns {
  import opened Sequences
  import opened Options
  import opened EpollTable
  import opened Epoll
  import opened Evmap

  // Lose is a file closed, or closed and reopened, without the library being told.
  datatype Command = Add(ev: Event) | Del(ev: Event) | Poll | Lose(fd: int, left: Interest)

  // The events asked for on fd by the events that are currently inserted.
  ghost function Asked(inserted: set<Event>, fd: int): Interest {
    if fd < 0 then NOTHING else
    Interest(exists e :: e in inserted && e.fd == fd && e.wants.read,
             exists e :: e in inserted && e.fd == fd && e.wants.write,
             exists e :: e in inserted && e.fd == fd && e.wants.close)
  }

  // A list holds exactly the inserted events of its descriptor, each of them once.
  ghost predicate Lists(events: seq<Event>, inserted: set<Event>, fd: int) {
    Distinct(events) && forall e :: e in events <==> e in inserted && e.fd == fd >= 0
  }

  ghost predicate AllListed(base: EventBase, inserted: set<Event>)
    reads base
  {
    forall fd :: Lists(base.Events(fd), inserted, fd)
  }

  // The kernel reports on fd exactly the events the inserted events ask for.
  ghost predicate Exact(k: Kernel, inserted: set<Event>, fd: int) {
    Holds(k, fd, Asked(inserted, fd))
  }

  lemma {:induction false} WithoutIsDistinct(events: seq<Event>, ev: Event)
    requires Distinct(events)
    ensures Distinct(Without(events, ev)) && forall e :: e in Without(events, ev) <==> e in events && e != ev
  {
    if events != [] {
      assert events == [events[0]] + events[1..];
      if events[0] != ev {
        var w := Without(events[1..], ev);
        WithoutIsDistinct(events[1..], ev);
        assert forall i :: 0 <= i < |w| ==> w[i] in w && w[i] in events[1..];
      }
    }
  }

  lemma DelLists(events: seq<Event>, inserted: set<Event>, ev: Event, fd: int)
    requires Lists(events, inserted, fd)
    ensures Lists(if fd == ev.fd >= 0 then Without(events, ev) else events, inserted - {ev}, fd)
  {
    WithoutIsDistinct(events, ev);
  }

  lemma AddLists(events: seq<Event>, inserted: set<Event>, ev: Event, fd: int)
    requires Lists(events, inserted, fd) && ev !in inserted
    ensures Lists(if fd == ev.fd >= 0 then [ev] + events else events, inserted + {ev}, fd)
  {
    assert forall i :: 0 <= i < |events| ==> events[i] in events;
  }

  lemma AskedIsWanted(events: seq<Event>, inserted: set<Event>, fd: int)
    requires Lists(events, inserted, fd)
    ensures Wanted(events) == Asked(inserted, fd)
  {
    assert forall e :: e in events ==> e in inserted && e.fd == fd;
    assert forall e :: e in inserted && e.fd == fd >= 0 ==> e in events;
  }

  // Two kernel tables that are exact everywhere are the same table.
  lemma SameKernel(k: Kernel, k': Kernel, inserted: set<Event>)
    requires forall fd :: Exact(k, inserted, fd) && Exact(k', inserted, fd)
    ensures k == k'
  {
    forall fd
      ensures (fd in k <==> fd in k') && (fd in k ==> k[fd] == k'[fd])
    {
      assert Exact(k, inserted, fd) && Exact(k', inserted, fd);
    }
    assert k.Keys == k'.Keys;
  }

  // The listeners of fd after a command and its answer.
  ghost function ListedAfter(cmd: Command, inserted: set<Event>, r: int, events: seq<Event>, fd: int): seq<Event> {
    match cmd
    case Add(ev) => if ev !in inserted && r != -1 && fd == ev.fd >= 0 then [ev] + events else events
    case Del(ev) => if ev in inserted && fd == ev.fd >= 0 then Without(events, ev) else events
    case _ => events
  }

  // The answer that a command gets if there is memory: -1 only if a counter is full.
  ghost predicate Refused(cmd: Command, inserted: set<Event>, events: seq<Event>) {
    cmd.Add? && cmd.ev !in inserted && cmd.ev.fd >= 0 && Crowded(events, cmd.ev)
  }

  datatype Done = Done(cmd: Command, answer: int)

  // The events that are inserted after the commands.
  function InsertedAfter(inserted: set<Event>, log: seq<Done>): set<Event> {
    if log == [] then inserted
    else
      var before := InsertedAfter(inserted, log[..|log| - 1]);
      match log[|log| - 1]
      case Done(Add(ev), r) => if r == -1 then before else before + {ev}
      case Done(Del(ev), _) => before - {ev}
      case _ => before
  }

  // One descriptor: the events that are asked for, those that the kernel was told of up to the queued
  // change, whether one is queued and for which kinds of events it is not a no-op, and the kernel's entry.
  datatype Line = Line(want: Interest, told: Interest, queued: bool, marked: Interest, holds: Option<Interest>) {
    // The kernel does not have what it was told.
    predicate Strays() { holds != EntryFor(told) }

    predicate Fair(batched: bool) {
      && (!batched ==> marked == NOTHING)
      && (!marked.read ==> want.read == told.read)
      && (!marked.write ==> want.write == told.write)
      && (!marked.close ==> want.close == told.close)
    }
  }

  // Deleting an event that the kernel was not told of cancels the change.
  function Mark(marked: bool, was: bool, now: bool, told: bool): bool {
    if now && !was then true else if was && !now then told else marked
  }

  // The backend takes a change.
  function Heard(l: Line, want: Interest, batched: bool): Line {
    if batched then
      Line(want, l.told, true,
           Interest(Mark(l.marked.read, l.want.read, want.read, l.told.read),
                    Mark(l.marked.write, l.want.write, want.write, l.told.write),
                    Mark(l.marked.close, l.want.close, want.close, l.told.close)),
           l.holds)
    else
      Line(want, want, false, NOTHING, EntryFor(want))
  }

  // What a command and its answer mean for one descriptor.
  ghost function Next(l: Line, d: Done, inserted: set<Event>, fd: int, batched: bool): Line {
    match d.cmd
    case Add(ev) =>
      if ev.fd == fd && d.answer == 1 then Heard(l, Asked(inserted + {ev}, fd), batched) else l
    case Del(ev) =>
      if ev.fd != fd || d.answer == 0 then l
      else
        var want := Asked(inserted - {ev}, fd);
        if d.answer == 1 then Heard(l, want, batched) else Line(want, want, false, NOTHING, l.holds)
    case Poll => Line(l.want, l.want, false, NOTHING, if l.marked != NOTHING then EntryFor(l.want) else l.holds)
    case Lose(f, left) => if f == fd then l.(holds := EntryFor(left)) else l
  }

  ghost function LineAfter(l: Line, inserted: set<Event>, log: seq<Done>, fd: int, batched: bool): Line {
    if log == [] then l
    else
      var n := |log| - 1;
      Next(LineAfter(l, inserted, log[..n], fd, batched), log[n], InsertedAfter(inserted, log[..n]), fd, batched)
  }

  // The answers that a command can get: 1 exactly if the events asked for change, unless it fails.
  ghost predicate Fits(d: Done, inserted: set<Event>, scarce: bool) {
    match d.cmd
    case Add(ev) =>
      d.answer == -1 || d.answer == if Asked(inserted + {ev}, ev.fd) != Asked(inserted, ev.fd) then 1 else 0
    case Del(ev) =>
      || (d.answer == -1 && scarce)
      || d.answer == if Asked(inserted - {ev}, ev.fd) != Asked(inserted, ev.fd) then 1 else 0
    case _ => d.answer == 0
  }

  function Marks(ch: EventChange): Interest {
    Interest(ch.read != UNCHANGED, ch.write != UNCHANGED, ch.close != UNCHANGED)
  }

  ghost function SeenAt(entries: seq<Slot>, changes: seq<EventChange>, kernel: Kernel, fd: int): Line
    requires Linked(entries, changes)
  {
    var ch := PendingAt(entries, changes, fd);
    Line(OldAt(entries, fd), ch.prior, IdxAt(entries, fd) > 0, Marks(ch), Entry(kernel, fd))
  }

  // What a base and its kernel have for a descriptor.
  ghost function Seen(base: EventBase, fd: int): Line
    requires base.Valid()
    reads base, base.poller
  {
    SeenAt(base.entries, base.changes, base.poller.kernel, fd)
  }

  // The counters say what is asked for.
  lemma AsksIsAsked(base: EventBase, inserted: set<Event>, fd: int)
    requires base.Valid() && AllListed(base, inserted)
    ensures base.Asks(fd) == Asked(inserted, fd)
  {
    hide Lists, Asked, Wanted;
    assert Lists(base.Events(fd), inserted, fd);
    WantedAt(base.entries, fd);
    AskedIsWanted(base.Events(fd), inserted, fd);
  }

  // The backend's answer to one more listener, or one less, of the descriptor g.
  lemma AnswerSeen(batched: bool, entries: seq<Slot>, changes: seq<EventChange>, kernel: Kernel,
                   entries': seq<Slot>, changes': seq<EventChange>, kernel': Kernel, g: int, r: int, told: EventChange, fd: int)
    requires Linked(entries, changes) && Linked(entries', changes')
    requires Answered(batched, entries, changes, kernel, entries', changes', kernel', g, r, told)
    requires told.prior == PendingAt(entries, changes, g).prior
    requires r == 1 ==> Marks(told) == Heard(SeenAt(entries, changes, kernel, g), OldAt(entries', g), true).marked
    requires r == 0 ==> OldAt(entries', g) == OldAt(entries, g)
    requires r != 1 && OldAt(entries', g) != OldAt(entries, g) ==> IdxAt(entries', g) == 0
    ensures var l, l' := SeenAt(entries, changes, kernel, fd), SeenAt(entries', changes', kernel', fd);
            l' == if fd != g then l
                  else if r == 1 then Heard(l, OldAt(entries', g), batched)
                  else if l'.want == l.want then l
                  else Line(l'.want, l'.want, false, NOTHING, l.holds)
  {
    hide OldAt, IdxAt, Mark;
  }

  // Which kinds of events a change is for once an add, or a delete, has joined it.
  lemma AddMarks(ch: EventChange, l: Line, res: Interest)
    requires Marks(ch) == l.marked
    ensures Marks(WithAdds(ch, Minus(res, l.want))) == Heard(l, Plus(l.want, res), true).marked
  {
  }

  lemma DelMarks(ch: EventChange, l: Line, want: Interest)
    requires Marks(ch) == l.marked && ch.prior == l.told && want == Minus(l.want, Minus(l.want, want))
    ensures Marks(WithDels(ch, Minus(l.want, want))) == Heard(l, want, true).marked
  {
  }

  method PerformAdd(base: EventBase, inserted: set<Event>, ev: Event) returns (r: int)
    requires base.Valid() && AllListed(base, inserted) && ev !in inserted
    modifies base, base.poller
    ensures base.Valid() && AllListed(base, if r == -1 then inserted else inserted + {ev})
    ensures forall fd :: base.Events(fd) == ListedAfter(Add(ev), inserted, r, old(base.Events(fd)), fd)
    ensures !base.scarce ==> (r == -1 <==> Refused(Add(ev), inserted, old(base.Events(ev.fd))))
    ensures forall fd :: old(base.CleanAt(fd)) ==> base.CleanAt(fd)
    ensures Fits(Done(Add(ev), r), inserted, base.scarce)
    ensures forall fd :: Seen(base, fd) == Next(old(Seen(base, fd)), Done(Add(ev), r), inserted, fd, base.useChangelist)
  {
    hide Lists, Asked, Crowded, EventBase.Valid, EventBase.CleanAt, EventBase.EffectiveAt, SeenAt, Heard, Marks, Answered,
         Plus, Minus, WithAdds;
    AddAllListed(base, inserted, ev);
    AsksIsAsked(base, inserted, ev.fd);
    ghost var l, ch := Seen(base, ev.fd), base.Pending(ev.fd);
    ghost var entries, changes, kernel := base.entries, base.changes, base.poller.kernel;
    SeenIs(base, ev.fd);
    AddMarks(ch, l, ev.wants);
    ghost var told := WithAdds(ch, Minus(ev.wants, l.want));
    r := base.IoAdd(ev);
    if r != -1 {
      AsksIsAsked(base, inserted + {ev}, ev.fd);
    }
    AddKeepsPrior(ch, Minus(ev.wants, l.want));
    LinkedIn(base);
    forall fd
      ensures Seen(base, fd) == Next(old(Seen(base, fd)), Done(Add(ev), r), inserted, fd, base.useChangelist)
    {
      AnswerSeen(base.useChangelist, entries, changes, kernel, base.entries, base.changes, base.poller.kernel,
                 ev.fd, r, told, fd);
      SeenWants(base.entries, base.changes, base.poller.kernel, fd);
      SeenWants(entries, changes, kernel, fd);
    }
  }

  lemma SeenWants(entries: seq<Slot>, changes: seq<EventChange>, kernel: Kernel, fd: int)
    requires Linked(entries, changes)
    ensures SeenAt(entries, changes, kernel, fd).want == OldAt(entries, fd)
  {
  }

  lemma LinkedIn(base: EventBase)
    requires base.Valid()
    ensures Linked(base.entries, base.changes)
  {
  }

  lemma AddKeepsPrior(ch: EventChange, res: Interest)
    ensures WithAdds(ch, res).prior == ch.prior && WithDels(ch, res).prior == ch.prior
  {
  }

  lemma SeenIs(base: EventBase, fd: int)
    requires base.Valid()
    ensures Linked(base.entries, base.changes)
    ensures var l := Seen(base, fd);
            l.want == base.Asks(fd) && Marks(base.Pending(fd)) == l.marked && base.Pending(fd).prior == l.told
  {
  }

  lemma AddAllListed(base: EventBase, inserted: set<Event>, ev: Event)
    requires AllListed(base, inserted) && ev !in inserted
    ensures forall fd :: Lists(if fd == ev.fd >= 0 then [ev] + base.Events(fd) else base.Events(fd), inserted + {ev}, fd)
  {
    hide Lists;
    forall fd
      ensures Lists(if fd == ev.fd >= 0 then [ev] + base.Events(fd) else base.Events(fd), inserted + {ev}, fd)
    {
      AddLists(base.Events(fd), inserted, ev, fd);
    }
  }

  lemma DelAllListed(base: EventBase, inserted: set<Event>, ev: Event)
    requires AllListed(base, inserted) && ev in inserted
    ensures ev.fd >= 0 ==> ev in base.Events(ev.fd)
    ensures forall fd ::
              Lists(if fd == ev.fd >= 0 then Without(base.Events(fd), ev) else base.Events(fd), inserted - {ev}, fd)
  {
    assert Lists(base.Events(ev.fd), inserted, ev.fd);
    hide Lists;
    forall fd
      ensures Lists(if fd == ev.fd >= 0 then Without(base.Events(fd), ev) else base.Events(fd), inserted - {ev}, fd)
    {
      DelLists(base.Events(fd), inserted, ev, fd);
    }
  }

  method PerformDel(base: EventBase, inserted: set<Event>, ev: Event) returns (r: int)
    requires base.Valid() && AllListed(base, inserted) && ev in inserted
    modifies base, base.poller
    ensures base.Valid() && AllListed(base, inserted - {ev})
    ensures forall fd :: base.Events(fd) == ListedAfter(Del(ev), inserted, r, old(base.Events(fd)), fd)
    ensures !base.scarce ==> r != -1
    ensures forall fd :: old(base.CleanAt(fd)) && !(r == -1 && fd == ev.fd) ==> base.CleanAt(fd)
    ensures Fits(Done(Del(ev), r), inserted, base.scarce)
    ensures forall fd :: Seen(base, fd) == Next(old(Seen(base, fd)), Done(Del(ev), r), inserted, fd, base.useChangelist)
  {
    hide Lists, Asked, Crowded, EventBase.Valid, EventBase.CleanAt, EventBase.EffectiveAt, SeenAt, Heard, Marks, Answered,
         Plus, Minus, WithDels, Without;
    DelAllListed(base, inserted, ev);
    AsksIsAsked(base, inserted, ev.fd);
    ghost var l, ch := Seen(base, ev.fd), base.Pending(ev.fd);
    ghost var entries, changes, kernel := base.entries, base.changes, base.poller.kernel;
    SeenIs(base, ev.fd);
    r := base.IoDel(ev);
    AsksIsAsked(base, inserted - {ev}, ev.fd);
    ghost var want := base.Asks(ev.fd);
    DelMarks(ch, l, want);
    AddKeepsPrior(ch, Minus(l.want, want));
    LinkedIn(base);
    forall fd
      ensures Seen(base, fd) == Next(old(Seen(base, fd)), Done(Del(ev), r), inserted, fd, base.useChangelist)
    {
      AnswerSeen(base.useChangelist, entries, changes, kernel, base.entries, base.changes, base.poller.kernel,
                 ev.fd, r, WithDels(ch, Minus(l.want, want)), fd);
      SeenWants(base.entries, base.changes, base.poller.kernel, fd);
      SeenWants(entries, changes, kernel, fd);
    }
  }

  method PerformPoll(base: EventBase, inserted: set<Event>) returns (r: int)
    requires base.Valid() && AllListed(base, inserted)
    modifies base, base.poller
    ensures base.Valid() && AllListed(base, inserted) && r == 0
    ensures forall fd :: base.Events(fd) == old(base.Events(fd))
    ensures forall fd :: Exact(base.poller.kernel, inserted, fd) == old(base.CleanAt(fd) || base.EffectiveAt(fd))
    ensures forall fd :: base.CleanAt(fd) == Exact(base.poller.kernel, inserted, fd)
    ensures forall fd :: Seen(base, fd) == Next(old(Seen(base, fd)), Done(Poll, r), inserted, fd, base.useChangelist)
  {
    hide Lists, Asked, Wanted;
    r := base.Dispatch();
    forall fd
      ensures Exact(base.poller.kernel, inserted, fd) == base.Right(fd)
    {
      assert Lists(base.Events(fd), inserted, fd);
      AskedIsWanted(base.Events(fd), inserted, fd);
    }
  }

  // EVLIST_INSERTED keeps an event from being inserted twice or removed twice.
  method Perform(base: EventBase, inserted: set<Event>, cmd: Command) returns (inserted': set<Event>, r: int)
    requires base.Valid() && AllListed(base, inserted)
    modifies base, base.poller
    ensures base.Valid() && AllListed(base, inserted')
    ensures inserted' == match cmd
                         case Add(ev) => if r == -1 then inserted else inserted + {ev}
                         case Del(ev) => inserted - {ev}
                         case _ => inserted
    ensures forall fd :: base.Events(fd) == ListedAfter(cmd, inserted, r, old(base.Events(fd)), fd)
    ensures cmd.Add? && !base.scarce ==> (r == -1 <==> Refused(cmd, inserted, old(base.Events(cmd.ev.fd))))
    ensures cmd.Del? && !base.scarce ==> r != -1
    ensures !cmd.Add? && !cmd.Del? ==> r == 0
    ensures forall fd :: (cmd.Lose? ==> fd != cmd.fd) && (cmd.Del? && r == -1 ==> fd != cmd.ev.fd) && !cmd.Poll? ==>
                           (old(base.CleanAt(fd)) ==> base.CleanAt(fd))
    ensures cmd.Poll? ==>
              forall fd :: Exact(base.poller.kernel, inserted', fd) == old(base.CleanAt(fd) || base.EffectiveAt(fd))
    ensures cmd.Poll? ==> forall fd :: base.CleanAt(fd) == Exact(base.poller.kernel, inserted', fd)
    ensures Fits(Done(cmd, r), inserted, base.scarce)
    ensures forall fd :: Seen(base, fd) == Next(old(Seen(base, fd)), Done(cmd, r), inserted, fd, base.useChangelist)
  {
    hide Lists, Asked, Crowded, EventBase.Valid, Exact, Heard, Without;
    inserted', r := inserted, 0;
    match cmd
    case Add(ev) =>
      if ev !in inserted {
        r := PerformAdd(base, inserted, ev);
        if r != -1 {
          inserted' := inserted + {ev};
        }
      } else {
        assert inserted + {ev} == inserted;
      }
    case Del(ev) =>
      if ev in inserted {
        r := PerformDel(base, inserted, ev);
        inserted' := inserted - {ev};
      } else {
        assert inserted - {ev} == inserted;
      }
    case Poll =>
      r := PerformPoll(base, inserted);
    case Lose(fd, left) =>
      base.Disturb(fd, left);
  }

  // How the kernel's entry of fd can go astray: the file was closed, or a delete failed.
  predicate Loses(d: Done, fd: int) {
    (d.cmd.Lose? && d.cmd.fd == fd) || (d.cmd.Del? && d.answer == -1 && d.cmd.ev.fd == fd)
  }

  // What brings it back: an effective change that is dispatched, or one that is made at once.
  ghost predicate Mends(l: Line, d: Done, fd: int, batched: bool) {
    if batched then d.cmd.Poll? && l.marked != NOTHING
    else (d.cmd.Add? || d.cmd.Del?) && d.cmd.ev.fd == fd && d.answer == 1
  }

  // The command i was the last one that could spoil the entry of fd; it did, and nothing mended it since.
  ghost predicate LostAt(l: Line, inserted: set<Event>, log: seq<Done>, i: nat, fd: int, batched: bool) {
    && i < |log| && Loses(log[i], fd) && LineAfter(l, inserted, log[..i + 1], fd, batched).Strays()
    && forall j :: i < j < |log| ==>
         !Loses(log[j], fd) && !Mends(LineAfter(l, inserted, log[..j], fd, batched), log[j], fd, batched)
  }

  ghost predicate Lost(l: Line, inserted: set<Event>, log: seq<Done>, fd: int, batched: bool) {
    exists i :: 0 <= i < |log| && LostAt(l, inserted, log, i, fd, batched)
  }

  lemma NextStrays(l: Line, d: Done, inserted: set<Event>, fd: int, batched: bool)
    requires l.Fair(batched) && !Loses(d, fd) && d.answer in {-1, 0, 1}
    ensures Next(l, d, inserted, fd, batched).Fair(batched)
    ensures Next(l, d, inserted, fd, batched).Strays() <==> l.Strays() && !Mends(l, d, fd, batched)
  {
    hide Asked;
    NextFair(l, d, inserted, fd, batched);
  }

  lemma NextFair(l: Line, d: Done, inserted: set<Event>, fd: int, batched: bool)
    requires l.Fair(batched)
    ensures Next(l, d, inserted, fd, batched).Fair(batched)
  {
    hide Asked;
  }

  lemma {:induction false} LineFair(l: Line, inserted: set<Event>, log: seq<Done>, fd: int, batched: bool)
    requires l.Fair(batched)
    ensures LineAfter(l, inserted, log, fd, batched).Fair(batched)
  {
    if log != [] {
      var n := |log| - 1;
      LineFair(l, inserted, log[..n], fd, batched);
      NextFair(LineAfter(l, inserted, log[..n], fd, batched), log[n], InsertedAfter(inserted, log[..n]), fd, batched);
    }
  }

  // The kernel differs from what the library told it exactly if the descriptor is lost.
  lemma {:induction false} LostIsStray(l: Line, inserted: set<Event>, log: seq<Done>, fd: int, batched: bool)
    requires l.Fair(batched) && !l.Strays() && forall d <- log :: d.answer in {-1, 0, 1}
    ensures LineAfter(l, inserted, log, fd, batched).Strays() <==> Lost(l, inserted, log, fd, batched)
  {
    if log != [] {
      var n := |log| - 1;
      var front, d := log[..n], log[n];
      LostIsStray(l, inserted, front, fd, batched);
      LineFair(l, inserted, front, fd, batched);
      LostLater(l, inserted, log, fd, batched);
      if Loses(d, fd) {
        assert log[..n + 1] == log;
        assert LostAt(l, inserted, log, n, fd, batched) <==> LineAfter(l, inserted, log, fd, batched).Strays();
      } else {
        NextStrays(LineAfter(l, inserted, front, fd, batched), d, InsertedAfter(inserted, front), fd, batched);
      }
    }
  }

  // One more command.
  lemma LostLater(l: Line, inserted: set<Event>, log: seq<Done>, fd: int, batched: bool)
    requires log != []
    ensures var n := |log| - 1;
            && (forall i :: 0 <= i < n ==>
                  (LostAt(l, inserted, log, i, fd, batched) <==>
                     && LostAt(l, inserted, log[..n], i, fd, batched) && !Loses(log[n], fd)
                     && !Mends(LineAfter(l, inserted, log[..n], fd, batched), log[n], fd, batched)))
            && (!Loses(log[n], fd) ==> !LostAt(l, inserted, log, n, fd, batched))
  {
    hide LineAfter, Mends, Loses;
    var n := |log| - 1;
    assert forall j :: 0 <= j <= n ==> log[..n][..j] == log[..j];
    assert forall j :: 0 <= j < n ==> log[..n][j] == log[j];
  }

  ghost predicate AllFit(inserted: set<Event>, log: seq<Done>) {
    forall i :: 0 <= i < |log| ==> Fits(log[i], InsertedAfter(inserted, log[..i]), true)
  }

  // With answers that fit, what is asked for is what the inserted events ask for.
  lemma {:induction false} WantIsAsked(l: Line, inserted: set<Event>, log: seq<Done>, fd: int, batched: bool)
    requires l.want == Asked(inserted, fd) && AllFit(inserted, log)
    ensures LineAfter(l, inserted, log, fd, batched).want == Asked(InsertedAfter(inserted, log), fd)
  {
    if log != [] {
      var n := |log| - 1;
      FitFront(inserted, log);
      WantIsAsked(l, inserted, log[..n], fd, batched);
      AskedStep(log[n], InsertedAfter(inserted, log[..n]), fd);
    }
  }

  lemma FitFront(inserted: set<Event>, log: seq<Done>)
    requires log != [] && AllFit(inserted, log)
    ensures var n := |log| - 1; AllFit(inserted, log[..n]) && Fits(log[n], InsertedAfter(inserted, log[..n]), true)
  {
    hide Fits, InsertedAfter;
    var front := log[..|log| - 1];
    assert forall i :: 0 <= i < |front| ==> front[..i] == log[..i] && front[i] == log[i];
  }

  // What a command changes of what is asked for on one descriptor.
  lemma AskedStep(d: Done, inserted: set<Event>, fd: int)
    requires Fits(d, inserted, true)
    ensures d.cmd.Add? && (d.answer != 1 || d.cmd.ev.fd != fd) && d.answer != -1 ==>
              Asked(inserted + {d.cmd.ev}, fd) == Asked(inserted, fd)
    ensures d.cmd.Del? && (d.answer == 0 || d.cmd.ev.fd != fd) ==>
              Asked(inserted - {d.cmd.ev}, fd) == Asked(inserted, fd)
  {
  }

  lemma AskedGrows(inserted: set<Event>, ev: Event, fd: int)
    ensures var was, now := Asked(inserted, fd), Asked(inserted + {ev}, fd);
            (was.read ==> now.read) && (was.write ==> now.write) && (was.close ==> now.close)
  {
  }

  // An add that changes what is asked for is effective, and leaves what was effective so.
  lemma AddIsEffective(l: Line, d: Done, inserted: set<Event>, fd: int, batched: bool)
    requires d.cmd.Add? && l.want == Asked(inserted, fd) && Fits(d, inserted, true)
    ensures var m := Next(l, d, inserted, fd, batched);
            && (batched && (l.marked != NOTHING || (d.answer == 1 && d.cmd.ev.fd == fd)) ==> m.marked != NOTHING)
            && (!batched && d.answer == 1 && d.cmd.ev.fd == fd ==> !m.Strays())
  {
    AskedGrows(inserted, d.cmd.ev, fd);
    hide Asked;
  }

  // A descriptor that went astray is right again at the first dispatch after an add that changed what is
  // asked for, if nothing of it is deleted before that dispatch and the file is not closed again.
  lemma {:induction false} Heals(l: Line, inserted: set<Event>, log: seq<Done>, fd: int, batched: bool)
    requires l.Fair(batched) && l.want == Asked(inserted, fd) && AllFit(inserted, log)
    requires log != [] && log[0].cmd.Add? && log[0].cmd.ev.fd == fd && log[0].answer == 1
    requires forall d <- log :: !Loses(d, fd) && !(d.cmd.Del? && d.cmd.ev.fd == fd)
    ensures var m := LineAfter(l, inserted, log, fd, batched);
            && m.Fair(batched) && (m.Strays() ==> batched && m.marked != NOTHING)
            && (log[|log| - 1].cmd == Poll ==> m.holds == EntryFor(m.want))
  {
    var n := |log| - 1;
    FitFront(inserted, log);
    WantIsAsked(l, inserted, log[..n], fd, batched);
    var m := LineAfter(l, inserted, log[..n], fd, batched);
    LineFair(l, inserted, log[..n], fd, batched);
    if n > 0 {
      Heals(l, inserted, log[..n], fd, batched);
    } else {
      assert log[..n] == [];
    }
    if log[n].cmd.Add? {
      AddIsEffective(m, log[n], InsertedAfter(inserted, log[..n]), fd, batched);
    }
    NextFair(m, log[n], InsertedAfter(inserted, log[..n]), fd, batched);
    if n > 0 {
      NextStrays(m, log[n], InsertedAfter(inserted, log[..n]), fd, batched);
    }
  }

  // Whatever is added, deleted, dispatched and closed, what the library and the kernel have for each
  // descriptor is what Next says of the commands and their answers; and a dispatch leaves the kernel
  // reporting exactly the events asked for by the inserted events on every descriptor but the lost ones.
  method Run(base: EventBase, inserted0: set<Event>, cmds: seq<Command>)
    returns (inserted: set<Event>, log: seq<Done>)
    requires base.Valid() && AllListed(base, inserted0) && forall fd :: base.CleanAt(fd)
    modifies base, base.poller
    ensures base.Valid() && AllListed(base, inserted)
    ensures |log| == |cmds| && forall i :: 0 <= i < |cmds| ==> log[i].cmd == cmds[i]
    ensures inserted == InsertedAfter(inserted0, log)
    ensures forall i :: 0 <= i < |log| ==> Fits(log[i], InsertedAfter(inserted0, log[..i]), base.scarce)
    ensures forall fd :: Seen(base, fd) == LineAfter(old(Seen(base, fd)), inserted0, log, fd, base.useChangelist)
    ensures cmds != [] && cmds[|cmds| - 1] == Poll ==>
              forall fd :: Exact(base.poller.kernel, inserted, fd)
                           <==> !Lost(old(Seen(base, fd)), inserted0, log, fd, base.useChangelist)
  {
    hide AllListed, EventBase.Valid, Next, Asked, Exact, EventBase.CleanAt;
    AtFirst(base);
    inserted, log := inserted0, [];
    for i := 0 to |cmds|
      invariant base.Valid() && AllListed(base, inserted)
      invariant |log| == i && (forall j :: 0 <= j < i ==> log[j].cmd == cmds[j])
      invariant inserted == InsertedAfter(inserted0, log)
      invariant forall j :: 0 <= j < i ==> Fits(log[j], InsertedAfter(inserted0, log[..j]), base.scarce)
      invariant forall fd :: Seen(base, fd) == LineAfter(old(Seen(base, fd)), inserted0, log, fd, base.useChangelist)
      invariant i > 0 && cmds[i - 1] == Poll ==>
                  forall fd :: base.CleanAt(fd) == Exact(base.poller.kernel, inserted, fd)
    {
      var r;
      ghost var front := log;
      inserted, r := Perform(base, inserted, cmds[i]);
      log := log + [Done(cmds[i], r)];
      assert log[..i] == front && forall j :: 0 <= j < i ==> log[..j] == front[..j];
    }
    forall fd
      ensures base.CleanAt(fd) <==> !Lost(old(Seen(base, fd)), inserted0, log, fd, base.useChangelist)
    {
      LostIsStray(old(Seen(base, fd)), inserted0, log, fd, base.useChangelist);
      SeenClean(base, fd);
    }
  }

  // A base without strays to begin with.
  lemma AtFirst(base: EventBase)
    requires base.Valid() && forall fd :: base.CleanAt(fd)
    ensures forall fd :: Seen(base, fd).Fair(base.useChangelist) && !Seen(base, fd).Strays()
  {
    forall fd
      ensures Seen(base, fd).Fair(base.useChangelist) && !Seen(base, fd).Strays()
    {
      SeenClean(base, fd);
    }
  }

  lemma SeenClean(base: EventBase, fd: int)
    requires base.Valid()
    ensures base.CleanAt(fd) <==> !Seen(base, fd).Strays()
    ensures Seen(base, fd).Fair(base.useChangelist)
  {
    assert Aimed(OldAt(base.entries, fd), PendingAt(base.entries, base.changes, fd));
  }

  // A change that is cancelled before it is dispatched does not repair the kernel's entry.
  method CancelledDoesNotHeal(fd: nat, left: Interest) returns (base: EventBase)
    requires left != NOTHING
    ensures base.Valid() && base.Events(fd) == [] && !base.Right(fd)
  {
    hide Settle, Crowded;
    base := new EventBase(true, false);
    base.Disturb(fd, left);
    var ev := Event(0, fd, Interest(true, false, false));
    NoCrowd(ev);
    var r := base.IoAdd(ev);
    r := base.IoDel(ev);
    r := base.Dispatch();
    assert base.Asks(fd) == NOTHING && Entry(base.poller.kernel, fd) == Some(left);
  }

  lemma NoCrowd(ev: Event)
    ensures !Crowded([], ev)
  {
  }

  ghost predicate Ready(base: EventBase, inserted: set<Event>)
    reads base, base.poller
  {
    base.Valid() && AllListed(base, inserted) && forall fd :: base.CleanAt(fd)
  }

  // Two bases with the same listeners.
  ghost predicate Twins(batched: EventBase, immediate: EventBase, inserted: set<Event>)
    reads batched, batched.poller, immediate, immediate.poller
  {
    && Ready(batched, inserted) && Ready(immediate, inserted)
    && forall fd :: batched.Events(fd) == immediate.Events(fd)
  }

  // A command given to both; they answer alike if there is memory.
  method PerformBoth(batched: EventBase, immediate: EventBase, inserted: set<Event>, cmd: Command)
    returns (inserted': set<Event>, alike: bool)
    requires batched != immediate && batched.poller != immediate.poller
    requires Twins(batched, immediate, inserted) && !cmd.Lose?
    modifies batched, batched.poller, immediate, immediate.poller
    ensures alike ==> Twins(batched, immediate, inserted')
    ensures alike && cmd.Poll? ==> batched.poller.kernel == immediate.poller.kernel
    ensures !batched.scarce && !immediate.scarce ==> alike
  {
    hide Lists, Exact, Crowded, Without, Refused, EventBase.Valid, Distinct;
    var i1, r1 := Perform(batched, inserted, cmd);
    assert Ready(immediate, inserted);
    var i2, r2 := Perform(immediate, inserted, cmd);
    inserted' := i1;
    alike := (r1 == -1) == (r2 == -1) && !(cmd.Del? && r1 == -1);
    if alike && cmd.Poll? {
      SameKernel(batched.poller.kernel, immediate.poller.kernel, inserted');
    }
  }

  // The batched and the immediate backend agree at every dispatch, as long as both answer every
  // command alike and no file is closed behind them. With memory to be had they do answer alike.
  method RunBoth(batched: EventBase, immediate: EventBase, cmds: seq<Command>)
    returns (polls: seq<(Kernel, Kernel)>, alike: bool)
    requires batched.useChangelist && !immediate.useChangelist
    requires batched != immediate && batched.poller != immediate.poller
    requires Ready(batched, {}) && Ready(immediate, {})
    requires forall fd :: batched.Events(fd) == [] && immediate.Events(fd) == []
    requires forall i :: 0 <= i < |cmds| ==> !cmds[i].Lose?
    modifies batched, batched.poller, immediate, immediate.poller
    ensures forall i :: 0 <= i < |polls| ==> polls[i].0 == polls[i].1
    ensures alike ==> |polls| == CountPolls(cmds)
    ensures !batched.scarce && !immediate.scarce ==> alike
  {
    polls, alike := [], true;
    var inserted: set<Event> := {};
    assert Twins(batched, immediate, {});
    hide Twins, Ready;
    for i := 0 to |cmds|
      invariant forall j :: 0 <= j < |polls| ==> polls[j].0 == polls[j].1
      invariant alike && |polls| == CountPolls(cmds[..i]) && Twins(batched, immediate, inserted)
    {
      assert cmds[..i + 1][..i] == cmds[..i];
      inserted, alike := PerformBoth(batched, immediate, inserted, cmds[i]);
      if !alike {
        return;
      }
      if cmds[i].Poll? {
        polls := polls + [(batched.poller.kernel, immediate.poller.kernel)];
      }
    }
    assert cmds[..|cmds|] == cmds;
  }

  function CountPolls(cmds: seq<Command>): nat {
    if cmds == [] then 0 else CountPolls(cmds[..|cmds| - 1]) + One(cmds[|cmds| - 1].Poll?)
  }
}
