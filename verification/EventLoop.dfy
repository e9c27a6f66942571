/** The service as it runs: the object scripts register with, and its loop. */
module EventLoop {
  import opened Events

  /** What one `epoll_wait` brings: an error, or a batch of events (empty on a timeout) together
      with what their callbacks will do. */
  datatype Wait = Failed | Batch(events: seq<Ready>, effects: seq<Effect>)

  predicate Legal(waits: seq<Wait>) {
    forall i :: 0 <= i < |waits| && waits[i].Batch? ==> |waits[i].effects| == |waits[i].events|
  }

  /** How the loop ended; `Waiting` when the given waits ran out. */
  datatype RunEnd = Idle | WaitFailed | CallbackThrew | Crashed | Waiting

  datatype Ran = Ran(table: Table, called: seq<Callback>, end: RunEnd)

  /** The outer loop of `run`. */
  function RunAll(t: Table, waits: seq<Wait>): Ran
    requires Legal(waits)
    decreases |waits|
  {
    if t.number == 0 then Ran(t, [], Idle)
    else if waits == [] then Ran(t, [], Waiting)
    else match waits[0]
      case Failed => Ran(t, [], WaitFailed)
      case Batch(events, effects) =>
        var d := Dispatch(t, events, effects, 0);
        match d.ending
        case Threw => Ran(d.table, d.called, CallbackThrew)
        case NoCallback(_) => Ran(d.table, d.called, Crashed)
        case Completed =>
          var r := RunAll(d.table, waits[1..]);
          r.(called := d.called + r.called)
  }

  class Service {
    var fds: map<int, Callback>
    var fdsError: map<int, Callback>
    var fdsNumber: int
    // What the kernel has been told to watch; `epoll_ctl` is taken to succeed.
    var epoll: map<int, Interest>
    var called: seq<Callback>

    ghost function Now(): Table
      reads this
    {
      Table(fds, fdsError, fdsNumber, epoll)
    }

    constructor ()
      ensures Now() == EMPTY && called == []
    {
      fds, fdsError, fdsNumber, epoll, called := map[], map[], 0, map[], [];
    }

    method Mod(fd: int, interest: Interest)
      modifies this`epoll
      ensures epoll == old(epoll)[fd := interest]
    {
      epoll := epoll[fd := interest];
    }

    method Add(fd: int, interest: Interest)
      modifies this`epoll, this`fdsNumber
      ensures epoll == old(epoll)[fd := interest] && fdsNumber == old(fdsNumber) + 1
    {
      epoll := epoll[fd := interest];
      fdsNumber := fdsNumber + 1;
    }

    method InOrOut(fd: int, callback: Callback, interest: Interest)
      modifies this`epoll, this`fdsNumber, this`fds
      ensures Now() == Register(old(Now()), fd, interest, callback)
    {
      if fd in fds {
        Mod(fd, interest);
      } else {
        Add(fd, interest);
      }
      fds := fds[fd := callback];
    }

    method Del(fd: int)
      modifies this`epoll, this`fdsNumber, this`fds, this`fdsError
      ensures Now() == Apply(old(Now()), Events.Del(fd))
    {
      if fd in fds {
        epoll := epoll - {fd};
        fdsNumber := fdsNumber - 1;
        fds := fds - {fd};
      }
      fdsError := fdsError - {fd};
    }

    method Error(fd: int, callback: Callback)
      modifies this`fdsError
      ensures Now() == Apply(old(Now()), OnError(fd, callback))
    {
      fdsError := fdsError[fd := callback];
    }

    /** A callback runs: it makes its calls, in order. */
    method Call(callback: Callback, calls: seq<Call>)
      modifies this
      ensures Now() == ApplyAll(old(Now()), calls) && called == old(called) + [callback]
    {
      called := called + [callback];
      var i := 0;
      while i < |calls|
        invariant 0 <= i <= |calls|
        invariant Now() == ApplyAll(old(Now()), calls[..i])
        invariant called == old(called) + [callback]
      {
        assert calls[..i + 1][..i] == calls[..i];
        match calls[i] {
          case OnIn(fd, cb) => InOrOut(fd, cb, In);
          case OnOut(fd, cb) => InOrOut(fd, cb, Out);
          case Del(fd) => Del(fd);
          case OnError(fd, cb) => Error(fd, cb);
        }
        i := i + 1;
      }
      assert calls[..i] == calls;
    }

    /** The inner loop of `run`. */
    method DispatchBatch(events: seq<Ready>, effects: seq<Effect>) returns (ending: Ending)
      requires |effects| == |events|
      modifies this
      ensures var d := Dispatch(old(Now()), events, effects, 0);
        Now() == d.table && called == old(called) + d.called && ending == d.ending
    {
      ghost var whole := Dispatch(Now(), events, effects, 0);
      var i := 0;
      while i < |events|
        invariant 0 <= i <= |events|
        invariant var d := Dispatch(Now(), events, effects, i);
          && d.table == whole.table && d.ending == whole.ending
          && called + d.called == old(called) + whole.called
      {
        var e := events[i];
        var callbacks := if e.failed then fdsError else fds;
        if e.fd !in callbacks {
          return NoCallback(i);
        }
        ghost var before, log := Now(), called;
        ghost var rest := Dispatch(ApplyAll(before, effects[i].calls), events, effects, i + 1).called;
        Call(callbacks[e.fd], effects[i].calls);
        if effects[i].threw {
          return Threw;
        }
        assert log + ([callbacks[e.fd]] + rest) == called + rest;
        i := i + 1;
      }
      return Completed;
    }

    /** `run`: wait and dispatch as long as anything is registered. */
    method Run(waits: seq<Wait>) returns (end: RunEnd)
      requires Legal(waits)
      modifies this
      ensures var r := RunAll(old(Now()), waits);
        Now() == r.table && called == old(called) + r.called && end == r.end
    {
      ghost var whole := RunAll(Now(), waits);
      var i := 0;
      while fdsNumber != 0
        invariant 0 <= i <= |waits|
        invariant var r := RunAll(Now(), waits[i..]);
          && r.table == whole.table && r.end == whole.end
          && called + r.called == old(called) + whole.called
        decreases |waits| - i
      {
        if i == |waits| {
          return Waiting;
        }
        ghost var rest := waits[i..];
        assert rest[1..] == waits[i + 1..];
        match waits[i]
        case Failed =>
          return WaitFailed;
        case Batch(events, effects) =>
          ghost var before, log := Now(), called;
          ghost var d := Dispatch(before, events, effects, 0);
          var ending := DispatchBatch(events, effects);
          match ending {
            case Threw => return CallbackThrew;
            case NoCallback(_) => return Crashed;
            case Completed =>
              assert log + (d.called + RunAll(d.table, rest[1..]).called) == called + RunAll(d.table, rest[1..]).called;
          }
          i := i + 1;
      }
      return Idle;
    }
  }

  lemma {:induction false} DispatchConsistent(t: Table, events: seq<Ready>, effects: seq<Effect>, i: nat)
    requires |effects| == |events| && i <= |events| && Consistent(t)
    ensures Consistent(Dispatch(t, events, effects, i).table)
    decreases |events| - i
  {
    if i < |events| && Handler(t, events[i]).Some? {
      RunConsistent(t, effects[i].calls);
      if !effects[i].threw {
        DispatchConsistent(ApplyAll(t, effects[i].calls), events, effects, i + 1);
      }
    }
  }

  /** Through any run the table stays consistent, and the loop goes idle only when nothing is
      registered and nothing is watched. */
  lemma {:induction false} RunStaysConsistent(t: Table, waits: seq<Wait>)
    requires Legal(waits) && Consistent(t)
    ensures var r := RunAll(t, waits);
      Consistent(r.table) && (r.end == Idle ==> r.table.fds == map[] && r.table.epoll == map[])
    decreases |waits|
  {
    if t.number != 0 && waits != [] && waits[0].Batch? {
      var d := Dispatch(t, waits[0].events, waits[0].effects, 0);
      DispatchConsistent(t, waits[0].events, waits[0].effects, 0);
      if d.ending == Completed {
        RunStaysConsistent(d.table, waits[1..]);
      }
    }
  }

  // ---- what a run did ----

  /** All calls made when a batch is handled whole. */
  function CallsOf(w: Wait): seq<Call> {
    match w
    case Failed => []
    case Batch(_, effects) => CallsBetween(effects, 0, |effects|)
  }

  /** Something is registered, and every event of the batch finds a handler that does not throw. */
  predicate HandledWhole(t: Table, w: Wait)
    requires w.Batch? ==> |w.effects| == |w.events|
  {
    t.number != 0 && w.Batch? && AllPass(t, w.events, w.effects, 0, |w.events|)
  }

  /** Where a run stops: with nothing registered, with no wait left, at a failed wait, or inside a
      batch at the first event whose callback throws or that finds no handler. */
  ghost predicate StopsAt(t: Table, waits: seq<Wait>, r: Ran)
    requires Legal(waits)
  {
    if r.end.CallbackThrew? || r.end.Crashed? then
      && t.number != 0 && waits != [] && waits[0].Batch?
      && var w, n := waits[0], |r.called|;
      && n <= |w.events| && CalledAreDue(t, w.events, w.effects, 0, r.called)
      && r.table == ApplyAll(t, CallsBetween(w.effects, 0, n))
      && EndsAfter(t, w.events, w.effects, 0, n, if r.end.CallbackThrew? then Threw else NoCallback(n))
    else
      && r.called == [] && r.table == t
      && match r.end
         case Idle => t.number == 0
         case Waiting => t.number != 0 && waits == []
         case _ => t.number != 0 && waits != [] && waits[0].Failed?
  }

  /** The first `n` waits were handled whole, one after the other, each event calling what was due
      for it; then the run stopped. */
  ghost predicate RanAs(t: Table, waits: seq<Wait>, n: nat, r: Ran)
    requires Legal(waits)
    decreases n
  {
    if n == 0 then StopsAt(t, waits, r)
    else
      && waits != [] && HandledWhole(t, waits[0])
      && var w := waits[0]; var k := |w.events|;
      && k <= |r.called| && CalledAreDue(t, w.events, w.effects, 0, r.called[..k])
      && RanAs(ApplyAll(t, CallsOf(w)), waits[1..], n - 1, r.(called := r.called[k..]))
  }

  /** So it is with every run. */
  lemma {:induction false} RunDid(t: Table, waits: seq<Wait>) returns (n: nat)
    requires Legal(waits)
    ensures RanAs(t, waits, n, RunAll(t, waits))
    decreases |waits|
  {
    n := 0;
    if t.number != 0 && waits != [] && waits[0].Batch? {
      var w := waits[0];
      var d := Dispatch(t, w.events, w.effects, 0);
      CallsWhatIsDue(t, w.events, w.effects, 0);
      if d.ending == Completed {
        var k := RunDid(d.table, waits[1..]);
        n := k + 1;
        var r := RunAll(d.table, waits[1..]);
        assert (d.called + r.called)[..|d.called|] == d.called;
        assert (d.called + r.called)[|d.called|..] == r.called;
      }
    }
  }
}
