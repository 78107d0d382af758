/**
  The compiled operation table of the epoll backend (common/libevent/epolltable-internal.h).
  One row per index; the 512 rows are laid out in eight blocks, one per set of old events.
  */
module EpollTable {

  // What a caller wants to hear about on one descriptor, or what the kernel reports for it.
  datatype Interest = Interest(read: bool, write: bool, close: bool)

  const NOTHING := Interest(false, false, false)

  // The two low bits of a change byte: EV_CHANGE_ADD and EV_CHANGE_DEL.
  datatype Change = Change(add: bool, del: bool)

  const UNCHANGED := Change(false, false)
  const ADD := Change(true, false)
  const DEL := Change(false, true)

  datatype Ctl = CtlNone | CtlAdd | CtlMod | CtlDel | CtlBad

  datatype Operation = Operation(events: Interest, op: Ctl)

  // Shorthands for the event masks of the rows: I is EPOLLIN, O is EPOLLOUT, H is EPOLLRDHUP.
  const X := NOTHING
  const I := Interest(true, false, false)
  const O := Interest(false, true, false)
  const H := Interest(false, false, true)
  const IO := Interest(true, true, false)
  const IH := Interest(true, false, true)
  const OH := Interest(false, true, true)
  const IOH := Interest(true, true, true)

  predicate Both(c: Change) { c.add && c.del }

  // The state of one kind of event after a change: added, deleted, or as it was.
  function After(was: bool, c: Change): bool {
    if c.add then true else if c.del then false else was
  }

  // The events that must be enabled once the three changes are made to the old events.
  function Target(prior: Interest, read: Change, write: Change, close: Change): Interest {
    Interest(After(prior.read, read), After(prior.write, write), After(prior.close, close))
  }

  // What an operation must be: refused for add+del, nothing for no change, a delete when no
  // event is left, otherwise the full target set, first tried as MOD if any event was enabled.
  predicate Right(prior: Interest, read: Change, write: Change, close: Change, o: Operation) {
    var target := Target(prior, read, write, close);
    if Both(read) || Both(write) || Both(close) then o == Operation(NOTHING, CtlBad)
    else if read == write == close == UNCHANGED then o == Operation(NOTHING, CtlNone)
    else if target == NOTHING then o.op == CtlDel && o.events != NOTHING
    else o == Operation(target, if prior == NOTHING then CtlAdd else CtlMod)
  }

  // A row number: close change in bits 0-1, read change in bits 2-3, write change in bits 4-5.
  predicate RowRight(prior: Interest, row: bv6, o: Operation) {
    Right(prior,
          Change(row & 4 != 0, row & 8 != 0),
          Change(row & 16 != 0, row & 32 != 0),
          Change(row & 1 != 0, row & 2 != 0),
          o)
  }

  // Rows 0 to 63, prior events: nothing.
  function Rows0K(row: bv6): (o: Operation)
    requires row >> 4 == 0
    ensures RowRight(X, row, o)
  {
    match row
    case 0 => Operation(X, CtlNone)
    case 1 => Operation(H, CtlAdd)
    case 2 => Operation(H, CtlDel)
    case 3 => Operation(X, CtlBad)
    case 4 => Operation(I, CtlAdd)
    case 5 => Operation(IH, CtlAdd)
    case 6 => Operation(I, CtlAdd)
    case 7 => Operation(X, CtlBad)
    case 8 => Operation(I, CtlDel)
    case 9 => Operation(H, CtlAdd)
    case 10 => Operation(IH, CtlDel)
    case 11 => Operation(X, CtlBad)
    case 12 => Operation(X, CtlBad)
    case 13 => Operation(X, CtlBad)
    case 14 => Operation(X, CtlBad)
    case _ => Operation(X, CtlBad)
  }

  function Rows0A(row: bv6): (o: Operation)
    requires row >> 4 == 1
    ensures RowRight(X, row, o)
  {
    match row
    case 16 => Operation(O, CtlAdd)
    case 17 => Operation(OH, CtlAdd)
    case 18 => Operation(O, CtlAdd)
    case 19 => Operation(X, CtlBad)
    case 20 => Operation(IO, CtlAdd)
    case 21 => Operation(IOH, CtlAdd)
    case 22 => Operation(IO, CtlAdd)
    case 23 => Operation(X, CtlBad)
    case 24 => Operation(O, CtlAdd)
    case 25 => Operation(OH, CtlAdd)
    case 26 => Operation(O, CtlAdd)
    case 27 => Operation(X, CtlBad)
    case 28 => Operation(X, CtlBad)
    case 29 => Operation(X, CtlBad)
    case 30 => Operation(X, CtlBad)
    case _ => Operation(X, CtlBad)
  }

  function Rows0D(row: bv6): (o: Operation)
    requires row >> 4 == 2
    ensures RowRight(X, row, o)
  {
    match row
    case 32 => Operation(O, CtlDel)
    case 33 => Operation(H, CtlAdd)
    case 34 => Operation(OH, CtlDel)
    case 35 => Operation(X, CtlBad)
    case 36 => Operation(I, CtlAdd)
    case 37 => Operation(IH, CtlAdd)
    case 38 => Operation(I, CtlAdd)
    case 39 => Operation(X, CtlBad)
    case 40 => Operation(IO, CtlDel)
    case 41 => Operation(H, CtlAdd)
    case 42 => Operation(IOH, CtlDel)
    case 43 => Operation(X, CtlBad)
    case 44 => Operation(X, CtlBad)
    case 45 => Operation(X, CtlBad)
    case 46 => Operation(X, CtlBad)
    case _ => Operation(X, CtlBad)
  }

  function Block0(row: bv6): (o: Operation)
    ensures RowRight(X, row, o)
  {
    match row >> 4
    case 0 => Rows0K(row)
    case 1 => Rows0A(row)
    case 2 => Rows0D(row)
    case _ => Operation(X, CtlBad)
  }

  // Rows 64 to 127, prior events: read.
  function Rows1K(row: bv6): (o: Operation)
    requires row >> 4 == 0
    ensures RowRight(I, row, o)
  {
    match row
    case 0 => Operation(X, CtlNone)
    case 1 => Operation(IH, CtlMod)
    case 2 => Operation(I, CtlMod)
    case 3 => Operation(X, CtlBad)
    case 4 => Operation(I, CtlMod)
    case 5 => Operation(IH, CtlMod)
    case 6 => Operation(I, CtlMod)
    case 7 => Operation(X, CtlBad)
    case 8 => Operation(I, CtlDel)
    case 9 => Operation(H, CtlMod)
    case 10 => Operation(IH, CtlDel)
    case 11 => Operation(X, CtlBad)
    case 12 => Operation(X, CtlBad)
    case 13 => Operation(X, CtlBad)
    case 14 => Operation(X, CtlBad)
    case _ => Operation(X, CtlBad)
  }

  function Rows1A(row: bv6): (o: Operation)
    requires row >> 4 == 1
    ensures RowRight(I, row, o)
  {
    match row
    case 16 => Operation(IO, CtlMod)
    case 17 => Operation(IOH, CtlMod)
    case 18 => Operation(IO, CtlMod)
    case 19 => Operation(X, CtlBad)
    case 20 => Operation(IO, CtlMod)
    case 21 => Operation(IOH, CtlMod)
    case 22 => Operation(IO, CtlMod)
    case 23 => Operation(X, CtlBad)
    case 24 => Operation(O, CtlMod)
    case 25 => Operation(OH, CtlMod)
    case 26 => Operation(O, CtlMod)
    case 27 => Operation(X, CtlBad)
    case 28 => Operation(X, CtlBad)
    case 29 => Operation(X, CtlBad)
    case 30 => Operation(X, CtlBad)
    case _ => Operation(X, CtlBad)
  }

  function Rows1D(row: bv6): (o: Operation)
    requires row >> 4 == 2
    ensures RowRight(I, row, o)
  {
    match row
    case 32 => Operation(I, CtlMod)
    case 33 => Operation(IH, CtlMod)
    case 34 => Operation(I, CtlMod)
    case 35 => Operation(X, CtlBad)
    case 36 => Operation(I, CtlMod)
    case 37 => Operation(IH, CtlMod)
    case 38 => Operation(I, CtlMod)
    case 39 => Operation(X, CtlBad)
    case 40 => Operation(IO, CtlDel)
    case 41 => Operation(H, CtlMod)
    case 42 => Operation(IOH, CtlDel)
    case 43 => Operation(X, CtlBad)
    case 44 => Operation(X, CtlBad)
    case 45 => Operation(X, CtlBad)
    case 46 => Operation(X, CtlBad)
    case _ => Operation(X, CtlBad)
  }

  function Block1(row: bv6): (o: Operation)
    ensures RowRight(I, row, o)
  {
    match row >> 4
    case 0 => Rows1K(row)
    case 1 => Rows1A(row)
    case 2 => Rows1D(row)
    case _ => Operation(X, CtlBad)
  }

  // Rows 128 to 191, prior events: write.
  function Rows2K(row: bv6): (o: Operation)
    requires row >> 4 == 0
    ensures RowRight(O, row, o)
  {
    match row
    case 0 => Operation(X, CtlNone)
    case 1 => Operation(OH, CtlMod)
    case 2 => Operation(O, CtlMod)
    case 3 => Operation(X, CtlBad)
    case 4 => Operation(IO, CtlMod)
    case 5 => Operation(IOH, CtlMod)
    case 6 => Operation(IO, CtlMod)
    case 7 => Operation(X, CtlBad)
    case 8 => Operation(O, CtlMod)
    case 9 => Operation(OH, CtlMod)
    case 10 => Operation(O, CtlMod)
    case 11 => Operation(X, CtlBad)
    case 12 => Operation(X, CtlBad)
    case 13 => Operation(X, CtlBad)
    case 14 => Operation(X, CtlBad)
    case _ => Operation(X, CtlBad)
  }

  function Rows2A(row: bv6): (o: Operation)
    requires row >> 4 == 1
    ensures RowRight(O, row, o)
  {
    match row
    case 16 => Operation(O, CtlMod)
    case 17 => Operation(OH, CtlMod)
    case 18 => Operation(O, CtlMod)
    case 19 => Operation(X, CtlBad)
    case 20 => Operation(IO, CtlMod)
    case 21 => Operation(IOH, CtlMod)
    case 22 => Operation(IO, CtlMod)
    case 23 => Operation(X, CtlBad)
    case 24 => Operation(O, CtlMod)
    case 25 => Operation(OH, CtlMod)
    case 26 => Operation(O, CtlMod)
    case 27 => Operation(X, CtlBad)
    case 28 => Operation(X, CtlBad)
    case 29 => Operation(X, CtlBad)
    case 30 => Operation(X, CtlBad)
    case _ => Operation(X, CtlBad)
  }

  function Rows2D(row: bv6): (o: Operation)
    requires row >> 4 == 2
    ensures RowRight(O, row, o)
  {
    match row
    case 32 => Operation(O, CtlDel)
    case 33 => Operation(H, CtlMod)
    case 34 => Operation(OH, CtlDel)
    case 35 => Operation(X, CtlBad)
    case 36 => Operation(I, CtlMod)
    case 37 => Operation(IH, CtlMod)
    case 38 => Operation(I, CtlMod)
    case 39 => Operation(X, CtlBad)
    case 40 => Operation(IO, CtlDel)
    case 41 => Operation(H, CtlMod)
    case 42 => Operation(IOH, CtlDel)
    case 43 => Operation(X, CtlBad)
    case 44 => Operation(X, CtlBad)
    case 45 => Operation(X, CtlBad)
    case 46 => Operation(X, CtlBad)
    case _ => Operation(X, CtlBad)
  }

  function Block2(row: bv6): (o: Operation)
    ensures RowRight(O, row, o)
  {
    match row >> 4
    case 0 => Rows2K(row)
    case 1 => Rows2A(row)
    case 2 => Rows2D(row)
    case _ => Operation(X, CtlBad)
  }

  // Rows 192 to 255, prior events: read and write.
  function Rows3K(row: bv6): (o: Operation)
    requires row >> 4 == 0
    ensures RowRight(IO, row, o)
  {
    match row
    case 0 => Operation(X, CtlNone)
    case 1 => Operation(IOH, CtlMod)
    case 2 => Operation(IO, CtlMod)
    case 3 => Operation(X, CtlBad)
    case 4 => Operation(IO, CtlMod)
    case 5 => Operation(IOH, CtlMod)
    case 6 => Operation(IO, CtlMod)
    case 7 => Operation(X, CtlBad)
    case 8 => Operation(O, CtlMod)
    case 9 => Operation(OH, CtlMod)
    case 10 => Operation(O, CtlMod)
    case 11 => Operation(X, CtlBad)
    case 12 => Operation(X, CtlBad)
    case 13 => Operation(X, CtlBad)
    case 14 => Operation(X, CtlBad)
    case _ => Operation(X, CtlBad)
  }

  function Rows3A(row: bv6): (o: Operation)
    requires row >> 4 == 1
    ensures RowRight(IO, row, o)
  {
    match row
    case 16 => Operation(IO, CtlMod)
    case 17 => Operation(IOH, CtlMod)
    case 18 => Operation(IO, CtlMod)
    case 19 => Operation(X, CtlBad)
    case 20 => Operation(IO, CtlMod)
    case 21 => Operation(IOH, CtlMod)
    case 22 => Operation(IO, CtlMod)
    case 23 => Operation(X, CtlBad)
    case 24 => Operation(O, CtlMod)
    case 25 => Operation(OH, CtlMod)
    case 26 => Operation(O, CtlMod)
    case 27 => Operation(X, CtlBad)
    case 28 => Operation(X, CtlBad)
    case 29 => Operation(X, CtlBad)
    case 30 => Operation(X, CtlBad)
    case _ => Operation(X, CtlBad)
  }

  function Rows3D(row: bv6): (o: Operation)
    requires row >> 4 == 2
    ensures RowRight(IO, row, o)
  {
    match row
    case 32 => Operation(I, CtlMod)
    case 33 => Operation(IH, CtlMod)
    case 34 => Operation(I, CtlMod)
    case 35 => Operation(X, CtlBad)
    case 36 => Operation(I, CtlMod)
    case 37 => Operation(IH, CtlMod)
    case 38 => Operation(I, CtlMod)
    case 39 => Operation(X, CtlBad)
    case 40 => Operation(IO, CtlDel)
    case 41 => Operation(H, CtlMod)
    case 42 => Operation(IOH, CtlDel)
    case 43 => Operation(X, CtlBad)
    case 44 => Operation(X, CtlBad)
    case 45 => Operation(X, CtlBad)
    case 46 => Operation(X, CtlBad)
    case _ => Operation(X, CtlBad)
  }

  function Block3(row: bv6): (o: Operation)
    ensures RowRight(IO, row, o)
  {
    match row >> 4
    case 0 => Rows3K(row)
    case 1 => Rows3A(row)
    case 2 => Rows3D(row)
    case _ => Operation(X, CtlBad)
  }

  // Rows 256 to 319, prior events: close.
  function Rows4K(row: bv6): (o: Operation)
    requires row >> 4 == 0
    ensures RowRight(H, row, o)
  {
    match row
    case 0 => Operation(X, CtlNone)
    case 1 => Operation(H, CtlMod)
    case 2 => Operation(H, CtlDel)
    case 3 => Operation(X, CtlBad)
    case 4 => Operation(IH, CtlMod)
    case 5 => Operation(IH, CtlMod)
    case 6 => Operation(I, CtlMod)
    case 7 => Operation(X, CtlBad)
    case 8 => Operation(H, CtlMod)
    case 9 => Operation(H, CtlMod)
    case 10 => Operation(IH, CtlDel)
    case 11 => Operation(X, CtlBad)
    case 12 => Operation(X, CtlBad)
    case 13 => Operation(X, CtlBad)
    case 14 => Operation(X, CtlBad)
    case _ => Operation(X, CtlBad)
  }

  function Rows4A(row: bv6): (o: Operation)
    requires row >> 4 == 1
    ensures RowRight(H, row, o)
  {
    match row
    case 16 => Operation(OH, CtlMod)
    case 17 => Operation(OH, CtlMod)
    case 18 => Operation(O, CtlMod)
    case 19 => Operation(X, CtlBad)
    case 20 => Operation(IOH, CtlMod)
    case 21 => Operation(IOH, CtlMod)
    case 22 => Operation(IO, CtlMod)
    case 23 => Operation(X, CtlBad)
    case 24 => Operation(OH, CtlMod)
    case 25 => Operation(OH, CtlMod)
    case 26 => Operation(O, CtlMod)
    case 27 => Operation(X, CtlBad)
    case 28 => Operation(X, CtlBad)
    case 29 => Operation(X, CtlBad)
    case 30 => Operation(X, CtlBad)
    case _ => Operation(X, CtlBad)
  }

  function Rows4D(row: bv6): (o: Operation)
    requires row >> 4 == 2
    ensures RowRight(H, row, o)
  {
    match row
    case 32 => Operation(H, CtlMod)
    case 33 => Operation(H, CtlMod)
    case 34 => Operation(OH, CtlDel)
    case 35 => Operation(X, CtlBad)
    case 36 => Operation(IH, CtlMod)
    case 37 => Operation(IH, CtlMod)
    case 38 => Operation(I, CtlMod)
    case 39 => Operation(X, CtlBad)
    case 40 => Operation(H, CtlMod)
    case 41 => Operation(H, CtlMod)
    case 42 => Operation(IOH, CtlDel)
    case 43 => Operation(X, CtlBad)
    case 44 => Operation(X, CtlBad)
    case 45 => Operation(X, CtlBad)
    case 46 => Operation(X, CtlBad)
    case _ => Operation(X, CtlBad)
  }

  function Block4(row: bv6): (o: Operation)
    ensures RowRight(H, row, o)
  {
    match row >> 4
    case 0 => Rows4K(row)
    case 1 => Rows4A(row)
    case 2 => Rows4D(row)
    case _ => Operation(X, CtlBad)
  }

  // Rows 320 to 383, prior events: read and close.
  function Rows5K(row: bv6): (o: Operation)
    requires row >> 4 == 0
    ensures RowRight(IH, row, o)
  {
    match row
    case 0 => Operation(X, CtlNone)
    case 1 => Operation(IH, CtlMod)
    case 2 => Operation(I, CtlMod)
    case 3 => Operation(X, CtlBad)
    case 4 => Operation(IH, CtlMod)
    case 5 => Operation(IH, CtlMod)
    case 6 => Operation(I, CtlMod)
    case 7 => Operation(X, CtlBad)
    case 8 => Operation(H, CtlMod)
    case 9 => Operation(H, CtlMod)
    case 10 => Operation(IH, CtlDel)
    case 11 => Operation(X, CtlBad)
    case 12 => Operation(X, CtlBad)
    case 13 => Operation(X, CtlBad)
    case 14 => Operation(X, CtlBad)
    case _ => Operation(X, CtlBad)
  }

  function Rows5A(row: bv6): (o: Operation)
    requires row >> 4 == 1
    ensures RowRight(IH, row, o)
  {
    match row
    case 16 => Operation(IOH, CtlMod)
    case 17 => Operation(IOH, CtlMod)
    case 18 => Operation(IO, CtlMod)
    case 19 => Operation(X, CtlBad)
    case 20 => Operation(IOH, CtlMod)
    case 21 => Operation(IOH, CtlMod)
    case 22 => Operation(IO, CtlMod)
    case 23 => Operation(X, CtlBad)
    case 24 => Operation(OH, CtlMod)
    case 25 => Operation(OH, CtlMod)
    case 26 => Operation(O, CtlMod)
    case 27 => Operation(X, CtlBad)
    case 28 => Operation(X, CtlBad)
    case 29 => Operation(X, CtlBad)
    case 30 => Operation(X, CtlBad)
    case _ => Operation(X, CtlBad)
  }

  function Rows5D(row: bv6): (o: Operation)
    requires row >> 4 == 2
    ensures RowRight(IH, row, o)
  {
    match row
    case 32 => Operation(IH, CtlMod)
    case 33 => Operation(IH, CtlMod)
    case 34 => Operation(I, CtlMod)
    case 35 => Operation(X, CtlBad)
    case 36 => Operation(IH, CtlMod)
    case 37 => Operation(IH, CtlMod)
    case 38 => Operation(I, CtlMod)
    case 39 => Operation(X, CtlBad)
    case 40 => Operation(H, CtlMod)
    case 41 => Operation(H, CtlMod)
    case 42 => Operation(IOH, CtlDel)
    case 43 => Operation(X, CtlBad)
    case 44 => Operation(X, CtlBad)
    case 45 => Operation(X, CtlBad)
    case 46 => Operation(X, CtlBad)
    case _ => Operation(X, CtlBad)
  }

  function Block5(row: bv6): (o: Operation)
    ensures RowRight(IH, row, o)
  {
    match row >> 4
    case 0 => Rows5K(row)
    case 1 => Rows5A(row)
    case 2 => Rows5D(row)
    case _ => Operation(X, CtlBad)
  }

  // Rows 384 to 447, prior events: write and close.
  function Rows6K(row: bv6): (o: Operation)
    requires row >> 4 == 0
    ensures RowRight(OH, row, o)
  {
    match row
    case 0 => Operation(X, CtlNone)
    case 1 => Operation(OH, CtlMod)
    case 2 => Operation(O, CtlMod)
    case 3 => Operation(X, CtlBad)
    case 4 => Operation(IOH, CtlMod)
    case 5 => Operation(IOH, CtlMod)
    case 6 => Operation(IO, CtlMod)
    case 7 => Operation(X, CtlBad)
    case 8 => Operation(OH, CtlMod)
    case 9 => Operation(OH, CtlMod)
    case 10 => Operation(O, CtlMod)
    case 11 => Operation(X, CtlBad)
    case 12 => Operation(X, CtlBad)
    case 13 => Operation(X, CtlBad)
    case 14 => Operation(X, CtlBad)
    case _ => Operation(X, CtlBad)
  }

  function Rows6A(row: bv6): (o: Operation)
    requires row >> 4 == 1
    ensures RowRight(OH, row, o)
  {
    match row
    case 16 => Operation(OH, CtlMod)
    case 17 => Operation(OH, CtlMod)
    case 18 => Operation(O, CtlMod)
    case 19 => Operation(X, CtlBad)
    case 20 => Operation(IOH, CtlMod)
    case 21 => Operation(IOH, CtlMod)
    case 22 => Operation(IO, CtlMod)
    case 23 => Operation(X, CtlBad)
    case 24 => Operation(OH, CtlMod)
    case 25 => Operation(OH, CtlMod)
    case 26 => Operation(O, CtlMod)
    case 27 => Operation(X, CtlBad)
    case 28 => Operation(X, CtlBad)
    case 29 => Operation(X, CtlBad)
    case 30 => Operation(X, CtlBad)
    case _ => Operation(X, CtlBad)
  }

  function Rows6D(row: bv6): (o: Operation)
    requires row >> 4 == 2
    ensures RowRight(OH, row, o)
  {
    match row
    case 32 => Operation(H, CtlMod)
    case 33 => Operation(H, CtlMod)
    case 34 => Operation(OH, CtlDel)
    case 35 => Operation(X, CtlBad)
    case 36 => Operation(IH, CtlMod)
    case 37 => Operation(IH, CtlMod)
    case 38 => Operation(I, CtlMod)
    case 39 => Operation(X, CtlBad)
    case 40 => Operation(H, CtlMod)
    case 41 => Operation(H, CtlMod)
    case 42 => Operation(IOH, CtlDel)
    case 43 => Operation(X, CtlBad)
    case 44 => Operation(X, CtlBad)
    case 45 => Operation(X, CtlBad)
    case 46 => Operation(X, CtlBad)
    case _ => Operation(X, CtlBad)
  }

  function Block6(row: bv6): (o: Operation)
    ensures RowRight(OH, row, o)
  {
    match row >> 4
    case 0 => Rows6K(row)
    case 1 => Rows6A(row)
    case 2 => Rows6D(row)
    case _ => Operation(X, CtlBad)
  }

  // Rows 448 to 511, prior events: read, write and close.
  function Rows7K(row: bv6): (o: Operation)
    requires row >> 4 == 0
    ensures RowRight(IOH, row, o)
  {
    match row
    case 0 => Operation(X, CtlNone)
    case 1 => Operation(IOH, CtlMod)
    case 2 => Operation(IO, CtlMod)
    case 3 => Operation(X, CtlBad)
    case 4 => Operation(IOH, CtlMod)
    case 5 => Operation(IOH, CtlMod)
    case 6 => Operation(IO, CtlMod)
    case 7 => Operation(X, CtlBad)
    case 8 => Operation(OH, CtlMod)
    case 9 => Operation(OH, CtlMod)
    case 10 => Operation(O, CtlMod)
    case 11 => Operation(X, CtlBad)
    case 12 => Operation(X, CtlBad)
    case 13 => Operation(X, CtlBad)
    case 14 => Operation(X, CtlBad)
    case _ => Operation(X, CtlBad)
  }

  function Rows7A(row: bv6): (o: Operation)
    requires row >> 4 == 1
    ensures RowRight(IOH, row, o)
  {
    match row
    case 16 => Operation(IOH, CtlMod)
    case 17 => Operation(IOH, CtlMod)
    case 18 => Operation(IO, CtlMod)
    case 19 => Operation(X, CtlBad)
    case 20 => Operation(IOH, CtlMod)
    case 21 => Operation(IOH, CtlMod)
    case 22 => Operation(IO, CtlMod)
    case 23 => Operation(X, CtlBad)
    case 24 => Operation(OH, CtlMod)
    case 25 => Operation(OH, CtlMod)
    case 26 => Operation(O, CtlMod)
    case 27 => Operation(X, CtlBad)
    case 28 => Operation(X, CtlBad)
    case 29 => Operation(X, CtlBad)
    case 30 => Operation(X, CtlBad)
    case _ => Operation(X, CtlBad)
  }

  function Rows7D(row: bv6): (o: Operation)
    requires row >> 4 == 2
    ensures RowRight(IOH, row, o)
  {
    match row
    case 32 => Operation(IH, CtlMod)
    case 33 => Operation(IH, CtlMod)
    case 34 => Operation(I, CtlMod)
    case 35 => Operation(X, CtlBad)
    case 36 => Operation(IH, CtlMod)
    case 37 => Operation(IH, CtlMod)
    case 38 => Operation(I, CtlMod)
    case 39 => Operation(X, CtlBad)
    case 40 => Operation(H, CtlMod)
    case 41 => Operation(H, CtlMod)
    case 42 => Operation(IOH, CtlDel)
    case 43 => Operation(X, CtlBad)
    case 44 => Operation(X, CtlBad)
    case 45 => Operation(X, CtlBad)
    case 46 => Operation(X, CtlBad)
    case _ => Operation(X, CtlBad)
  }

  function Block7(row: bv6): (o: Operation)
    ensures RowRight(IOH, row, o)
  {
    match row >> 4
    case 0 => Rows7K(row)
    case 1 => Rows7A(row)
    case 2 => Rows7D(row)
    case _ => Operation(X, CtlBad)
  }

  function Flag(b: bool, weight: bv9): bv9 { if b then weight else 0 }

  // The table index of a change (EPOLL_OP_TABLE_INDEX): the row number, then the old read,
  // write and close events in bits 6, 7 and 8.
  function TableIndex(prior: Interest, read: Change, write: Change, close: Change): bv9 {
    Flag(close.add, 1) | Flag(close.del, 2)
    | Flag(read.add, 4) | Flag(read.del, 8)
    | Flag(write.add, 16) | Flag(write.del, 32)
    | Flag(prior.read, 64) | Flag(prior.write, 128) | Flag(prior.close, 256)
  }

  function OpTable(idx: bv9): Operation {
    var row := (idx & 63) as bv6;
    match idx >> 6
    case 0 => Block0(row)
    case 1 => Block1(row)
    case 2 => Block2(row)
    case 3 => Block3(row)
    case 4 => Block4(row)
    case 5 => Block5(row)
    case 6 => Block6(row)
    case _ => Block7(row)
  }

  // Every change reads the row meant for it: all 512 rows are right.
  lemma TableIsRight(prior: Interest, read: Change, write: Change, close: Change)
    ensures Right(prior, read, write, close, OpTable(TableIndex(prior, read, write, close)))
  {
    var idx := TableIndex(prior, read, write, close);
    RowBits(prior, read, write, close);
    BlockBits(prior, read, write, close);
    assert RowRight(prior, (idx & 63) as bv6, OpTable(idx));
  }

  // The index tells the prior events and the changes apart.
  lemma IndexTells(prior: Interest, read: Change, write: Change, close: Change)
    ensures var idx := TableIndex(prior, read, write, close);
            var block, row := idx >> 6, (idx & 63) as bv6;
            && prior == Interest(block & 1 != 0, block & 2 != 0, block & 4 != 0)
            && read == Change(row & 4 != 0, row & 8 != 0)
            && write == Change(row & 16 != 0, row & 32 != 0)
            && close == Change(row & 1 != 0, row & 2 != 0)
  {
    RowBits(prior, read, write, close);
    BlockBits(prior, read, write, close);
  }

  lemma RowBits(prior: Interest, read: Change, write: Change, close: Change)
    ensures var row := (TableIndex(prior, read, write, close) & 63) as bv6;
            && read == Change(row & 4 != 0, row & 8 != 0)
            && write == Change(row & 16 != 0, row & 32 != 0)
            && close == Change(row & 1 != 0, row & 2 != 0)
  {
  }

  lemma BlockBits(prior: Interest, read: Change, write: Change, close: Change)
    ensures TableIndex(prior, read, write, close) >> 6
            == Flag(prior.read, 1) | Flag(prior.write, 2) | Flag(prior.close, 4)
  {
  }
}
