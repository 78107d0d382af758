/**
  The kernel's interest table and the change the epoll backend makes to it for one event_change
  (common/libevent/epoll.c). The kernel is a foreign part: it is a map from descriptor to the
  events it reports, and its only errors are ENOENT and EEXIST.
  */
module Epoll {
  import opened Options
  import opened EpollTable

  type Kernel = map<int, Interest>

  datatype Errno = Fine | NoEntry | Exists

  // The kernel's entry for fd, and the one that reports exactly these events.
  function Entry(k: Kernel, fd: int): Option<Interest> {
    if fd in k then Some(k[fd]) else None
  }

  function EntryFor(want: Interest): Option<Interest> {
    if want == NOTHING then None else Some(want)
  }

  // The kernel reports exactly these events on fd, and forgets a descriptor with none.
  predicate Holds(k: Kernel, fd: int, want: Interest) {
    if want == NOTHING then fd !in k else fd in k && k[fd] == want
  }

  function Settle(k: Kernel, fd: int, want: Interest): (k': Kernel)
    ensures Holds(k', fd, want)
    ensures forall f :: f != fd ==> (f in k' <==> f in k) && (f in k ==> k'[f] == k[f])
  {
    if want == NOTHING then k - {fd} else k[fd := want]
  }

  // struct event_change.
  datatype EventChange = EventChange(fd: int, prior: Interest, read: Change, write: Change, close: Change) {
    // No change carries ADD and DEL together.
    predicate Sane() { !Both(read) && !Both(write) && !Both(close) }

    predicate NoOp() { read == write == close == UNCHANGED }

    function Goal(): Interest { Target(prior, read, write, close) }
  }

  // The kernel after a change was applied: untouched by a no-op, else at the change's goal.
  function Applied(k: Kernel, ch: EventChange): Kernel {
    if ch.NoOp() then k else Settle(k, ch.fd, ch.Goal())
  }

  function AppliedAll(k: Kernel, changes: seq<EventChange>): Kernel {
    if changes == [] then k else Applied(AppliedAll(k, changes[..|changes| - 1]), changes[|changes| - 1])
  }

  // A kernel that differs at the descriptor only and holds the goal there.
  lemma Reaches(was: Kernel, k: Kernel, ch: EventChange)
    requires k - {ch.fd} == was - {ch.fd} && Holds(k, ch.fd, ch.Goal())
    ensures k == Settle(was, ch.fd, ch.Goal())
  {
    forall f | f != ch.fd
      ensures (f in k <==> f in was) && (f in k ==> k[f] == was[f])
    {
      assert f in k <==> f in k - {ch.fd};
      assert f in was <==> f in was - {ch.fd};
      if f in k {
        assert (k - {ch.fd})[f] == k[f];
      }
    }
  }

  class Poller {
    var kernel: Kernel

    constructor ()
      ensures kernel == map[]
    {
      kernel := map[];
    }

    // epoll_ctl, of which only the answers and the effect on the table are known here.
    method EpollCtl(op: Ctl, fd: int, events: Interest) returns (e: Errno)
      modifies this
      ensures e == Exists <==> op == CtlAdd && fd in old(kernel)
      ensures e == NoEntry <==> (op == CtlMod || op == CtlDel) && fd !in old(kernel)
      ensures e != Fine ==> kernel == old(kernel)
      ensures e == Fine && (op == CtlAdd || op == CtlMod) ==> fd in kernel && kernel[fd] == events
      ensures e == Fine && op == CtlDel ==> fd !in kernel
      ensures kernel - {fd} == old(kernel) - {fd}
    {
      e := Fine;
      if op == CtlAdd && fd in kernel {
        return Exists;
      }
      if (op == CtlMod || op == CtlDel) && fd !in kernel {
        return NoEntry;
      }
      if op == CtlAdd || op == CtlMod {
        kernel := kernel[fd := events];
      } else if op == CtlDel {
        kernel := kernel - {fd};
      }
    }

    // epoll_apply_one_change: whatever the kernel held for the descriptor, it holds the goal
    // afterwards, because MOD falls back to ADD, ADD to MOD, and a failed DEL is harmless.
    method ApplyOneChange(ch: EventChange) returns (r: int)
      requires ch.Sane()
      modifies this
      ensures r == 0
      ensures kernel == Applied(old(kernel), ch)
    {
      TableIsRight(ch.prior, ch.read, ch.write, ch.close);
      var row := OpTable(TableIndex(ch.prior, ch.read, ch.write, ch.close));
      var op, events := row.op, row.events;
      if events == NOTHING {
        return 0;
      }
      var e := EpollCtl(op, ch.fd, events);
      if e == Fine {
        Reaches(old(kernel), kernel, ch);
        return 0;
      }
      if op == CtlMod && e == NoEntry {
        e := EpollCtl(CtlAdd, ch.fd, events);
        Reaches(old(kernel), kernel, ch);
        return if e == Fine then 0 else -1;
      }
      if op == CtlAdd && e == Exists {
        e := EpollCtl(CtlMod, ch.fd, events);
        Reaches(old(kernel), kernel, ch);
        return if e == Fine then 0 else -1;
      }
      if op == CtlDel && e == NoEntry {
        Reaches(old(kernel), kernel, ch);
        return 0;
      }
      return -1;
    }

    // epoll_apply_changes.
    method ApplyChanges(changes: seq<EventChange>) returns (r: int)
      requires forall i :: 0 <= i < |changes| ==> changes[i].Sane()
      modifies this
      ensures r == 0
      ensures kernel == AppliedAll(old(kernel), changes)
    {
      r := 0;
      for i := 0 to |changes|
        invariant r == 0
        invariant kernel == AppliedAll(old(kernel), changes[..i])
      {
        var one := ApplyOneChange(changes[i]);
        if one < 0 {
          r := -1;
        }
        assert changes[..i + 1][..i] == changes[..i];
      }
      assert changes[..|changes|] == changes;
    }
  }

  // When each descriptor has at most one change, every change reaches its goal and no other
  // descriptor is touched, whatever the kernel held before.
  lemma {:induction false} AppliedAllSettles(k: Kernel, changes: seq<EventChange>, fd: int)
    requires forall i, j :: 0 <= i < j < |changes| ==> changes[i].fd != changes[j].fd
    ensures forall i :: 0 <= i < |changes| && changes[i].fd == fd && !changes[i].NoOp()
                        ==> Holds(AppliedAll(k, changes), fd, changes[i].Goal())
    ensures (forall i :: 0 <= i < |changes| && changes[i].fd == fd ==> changes[i].NoOp())
            ==> (fd in AppliedAll(k, changes) <==> fd in k) && (fd in k ==> AppliedAll(k, changes)[fd] == k[fd])
  {
    if changes != [] {
      var front, ch := changes[..|changes| - 1], changes[|changes| - 1];
      assert forall i :: 0 <= i < |front| ==> front[i] == changes[i];
      AppliedAllSettles(k, front, fd);
      AppliedStep(AppliedAll(k, front), ch, fd);
      assert AppliedAll(k, changes) == Applied(AppliedAll(k, front), ch);
      hide AppliedAll, Applied, Holds, EventChange.NoOp, EventChange.Goal;
    }
  }

  // A change settles its own descriptor, unless it is a no-op, and leaves the others alone.
  lemma AppliedStep(k: Kernel, ch: EventChange, fd: int)
    ensures ch.fd == fd && !ch.NoOp() ==> Holds(Applied(k, ch), fd, ch.Goal())
    ensures ch.fd != fd || ch.NoOp() ==> Entry(Applied(k, ch), fd) == Entry(k, fd)
    ensures ch.fd != fd || ch.NoOp() ==> forall want :: Holds(Applied(k, ch), fd, want) == Holds(k, fd, want)
  {
  }
}
