/** The registration table and the dispatch of src/service.cc, as functions on values. */
module Events {
  import opened Search

  datatype Interest = In | Out

  /** A callback is named by a number. */
  type Callback = nat

  /** The calls scripts make: `in`, `out`, `del` and `error`. */
  datatype Call =
    | OnIn(fd: int, callback: Callback)
    | OnOut(fd: int, callback: Callback)
    | Del(fd: int)
    | OnError(fd: int, callback: Callback)

  /** `fds`, `fds_error`, `fds_number`, and what epoll watches. */
  datatype Table = Table(
    fds: map<int, Callback>, errors: map<int, Callback>, number: int, epoll: map<int, Interest>)

  const EMPTY := Table(map[], map[], 0, map[])

  /** `in_or_out`: a known descriptor is modified, a new one added and counted. */
  function Register(t: Table, fd: int, interest: Interest, callback: Callback): Table {
    t.(fds := t.fds[fd := callback],
       epoll := t.epoll[fd := interest],
       number := if fd in t.fds then t.number else t.number + 1)
  }

  function Apply(t: Table, c: Call): Table {
    match c
    case OnIn(fd, cb) => Register(t, fd, In, cb)
    case OnOut(fd, cb) => Register(t, fd, Out, cb)
    case Del(fd) =>
      var removed :=
        if fd in t.fds then t.(fds := t.fds - {fd}, epoll := t.epoll - {fd}, number := t.number - 1) else t;
      removed.(errors := removed.errors - {fd})
    case OnError(fd, cb) => t.(errors := t.errors[fd := cb])
  }

  function ApplyAll(t: Table, calls: seq<Call>): Table {
    if calls == [] then t else Apply(ApplyAll(t, calls[..|calls| - 1]), calls[|calls| - 1])
  }

  /** The count is right and epoll watches exactly the registered descriptors. */
  predicate Consistent(t: Table) {
    t.number == |t.fds| && t.epoll.Keys == t.fds.Keys
  }

  lemma SizeWith<V>(m: map<int, V>, k: int, v: V)
    ensures |m[k := v]| == if k in m then |m| else |m| + 1
  {
    assert m[k := v].Keys == m.Keys + {k};
  }

  lemma SizeWithout<V>(m: map<int, V>, k: int)
    requires k in m
    ensures |m - {k}| == |m| - 1
  {
    assert (m - {k}).Keys == m.Keys - {k};
  }

  lemma RegisterConsistent(t: Table, fd: int, interest: Interest, cb: Callback)
    requires Consistent(t)
    ensures Consistent(Register(t, fd, interest, cb))
  {
    SizeWith(t.fds, fd, cb);
    assert t.fds[fd := cb].Keys == t.fds.Keys + {fd} == t.epoll[fd := interest].Keys;
  }

  lemma DelConsistent(t: Table, fd: int)
    requires Consistent(t)
    ensures Consistent(Apply(t, Del(fd)))
  {
    if fd in t.fds {
      SizeWithout(t.fds, fd);
      assert (t.fds - {fd}).Keys == t.fds.Keys - {fd} == (t.epoll - {fd}).Keys;
    }
  }

  lemma ApplyConsistent(t: Table, c: Call)
    requires Consistent(t)
    ensures Consistent(Apply(t, c))
  {
    match c
    case OnIn(fd, cb) => RegisterConsistent(t, fd, In, cb);
    case OnOut(fd, cb) => RegisterConsistent(t, fd, Out, cb);
    case Del(fd) => DelConsistent(t, fd);
    case OnError(_, _) =>
  }

  lemma {:induction false} RunConsistent(t: Table, calls: seq<Call>)
    requires Consistent(t)
    ensures Consistent(ApplyAll(t, calls))
  {
    if calls != [] {
      RunConsistent(t, calls[..|calls| - 1]);
      ApplyConsistent(ApplyAll(t, calls[..|calls| - 1]), calls[|calls| - 1]);
    }
  }

  // ---- what the calls so far mean, without a table ----

  /** The last `in`, `out` or `del` for a descriptor. */
  function LastRegistration(calls: seq<Call>, fd: int): Option<Call> {
    if calls == [] then None
    else
      var c := calls[|calls| - 1];
      if !c.OnError? && c.fd == fd then Some(c) else LastRegistration(calls[..|calls| - 1], fd)
  }

  /** The last `error` or `del` for a descriptor. */
  function LastErrorCall(calls: seq<Call>, fd: int): Option<Call> {
    if calls == [] then None
    else
      var c := calls[|calls| - 1];
      if (c.OnError? || c.Del?) && c.fd == fd then Some(c) else LastErrorCall(calls[..|calls| - 1], fd)
  }

  /** The callback and the interest a descriptor has after some calls: those of the latest `in`
      or `out`, unless a `del` came after it. */
  lemma {:induction false} LatestCallWins(t: Table, calls: seq<Call>, fd: int)
    requires t.epoll.Keys == t.fds.Keys
    ensures var t' := ApplyAll(t, calls);
      && t'.epoll.Keys == t'.fds.Keys
      && match LastRegistration(calls, fd)
         case None => (fd in t'.fds <==> fd in t.fds)
           && (fd in t.fds ==> t'.fds[fd] == t.fds[fd] && t'.epoll[fd] == t.epoll[fd])
         case Some(OnIn(_, cb)) => fd in t'.fds && t'.fds[fd] == cb && t'.epoll[fd] == In
         case Some(OnOut(_, cb)) => fd in t'.fds && t'.fds[fd] == cb && t'.epoll[fd] == Out
         case _ => fd !in t'.fds
  {
    if calls != [] {
      LatestCallWins(t, calls[..|calls| - 1], fd);
    }
  }

  lemma {:induction false} LatestErrorCallWins(t: Table, calls: seq<Call>, fd: int)
    ensures var t' := ApplyAll(t, calls);
      match LastErrorCall(calls, fd)
      case None => (fd in t'.errors <==> fd in t.errors) && (fd in t.errors ==> t'.errors[fd] == t.errors[fd])
      case Some(OnError(_, cb)) => fd in t'.errors && t'.errors[fd] == cb
      case _ => fd !in t'.errors
  {
    if calls != [] {
      LatestErrorCallWins(t, calls[..|calls| - 1], fd);
    }
  }

  // ---- dispatching a batch ----

  /** One event of a batch; `failed` if epoll reports an error or a hang-up. */
  datatype Ready = Ready(fd: int, failed: bool)

  /** What a callback does when it is called: some calls, and possibly an uncaught throw. */
  datatype Effect = Effect(calls: seq<Call>, threw: bool)

  /** `NoCallback(i)`: the `i`-th event found nothing to call. */
  datatype Ending = Completed | Threw | NoCallback(i: nat)

  datatype Dispatched = Dispatched(table: Table, called: seq<Callback>, ending: Ending)

  function Handler(t: Table, e: Ready): Option<Callback> {
    if e.failed then if e.fd in t.errors then Some(t.errors[e.fd]) else None
    else if e.fd in t.fds then Some(t.fds[e.fd]) else None
  }

  /** The inner loop of `run`, from the `i`-th event on; `effects[i]` is what that event's callback does. */
  function Dispatch(t: Table, batch: seq<Ready>, effects: seq<Effect>, i: nat): (d: Dispatched)
    requires |effects| == |batch| && i <= |batch|
    decreases |batch| - i
  {
    if i == |batch| then Dispatched(t, [], Completed)
    else match Handler(t, batch[i])
      case None => Dispatched(t, [], NoCallback(i))
      case Some(cb) =>
        var t' := ApplyAll(t, effects[i].calls);
        if effects[i].threw then Dispatched(t', [cb], Threw)
        else
          var d := Dispatch(t', batch, effects, i + 1);
          d.(called := [cb] + d.called)
  }

  /** The calls made by the callbacks of events `i .. j`. */
  function CallsBetween(effects: seq<Effect>, i: nat, j: nat): seq<Call>
    requires i <= j <= |effects|
    decreases j
  {
    if i == j then [] else CallsBetween(effects, i, j - 1) + effects[j - 1].calls
  }

  lemma {:induction false} ApplyAllJoin(t: Table, a: seq<Call>, b: seq<Call>)
    ensures ApplyAll(t, a + b) == ApplyAll(ApplyAll(t, a), b)
  {
    if b == [] {
      assert a + b == a;
    } else {
      ApplyAllJoin(t, a, b[..|b| - 1]);
      assert (a + b)[..|a + b| - 1] == a + b[..|b| - 1];
    }
  }

  lemma {:induction false} CallsBetweenFirst(effects: seq<Effect>, i: nat, j: nat)
    requires i < j <= |effects|
    ensures CallsBetween(effects, i, j) == effects[i].calls + CallsBetween(effects, i + 1, j)
  {
    if i + 1 < j {
      CallsBetweenFirst(effects, i, j - 1);
      assert effects[i].calls + CallsBetween(effects, i + 1, j - 1) + effects[j - 1].calls
          == effects[i].calls + (CallsBetween(effects, i + 1, j - 1) + effects[j - 1].calls);
    } else {
      assert [] + effects[i].calls == effects[i].calls + [];
    }
  }

  /** The `j`-th event finds a handler, if the callbacks of the events from the `i`-th on were
      called before it: told from the calls alone. */
  predicate Served(t: Table, batch: seq<Ready>, effects: seq<Effect>, i: nat, j: nat)
    requires |effects| == |batch| && i <= j < |batch|
  {
    var calls, fd := CallsBetween(effects, i, j), batch[j].fd;
    if batch[j].failed then
      match LastErrorCall(calls, fd) case None => fd in t.errors case Some(c) => c.OnError?
    else
      match LastRegistration(calls, fd) case None => fd in t.fds case Some(c) => !c.Del?
  }

  lemma {:induction false} HandlerFromCalls(t: Table, calls: seq<Call>, fd: int)
    ensures fd in ApplyAll(t, calls).fds <==>
      match LastRegistration(calls, fd) case None => fd in t.fds case Some(c) => !c.Del?
    ensures fd in ApplyAll(t, calls).errors <==>
      match LastErrorCall(calls, fd) case None => fd in t.errors case Some(c) => c.OnError?
  {
    if calls != [] {
      HandlerFromCalls(t, calls[..|calls| - 1], fd);
    }
  }

  lemma ServedIsHandler(t: Table, batch: seq<Ready>, effects: seq<Effect>, i: nat, j: nat)
    requires |effects| == |batch| && i <= j < |batch|
    ensures Served(t, batch, effects, i, j) <==> Handler(ApplyAll(t, CallsBetween(effects, i, j)), batch[j]).Some?
  {
    HandlerFromCalls(t, CallsBetween(effects, i, j), batch[j].fd);
  }

  /** The `j`-th event is handled and the loop goes on. */
  predicate Passes(t: Table, batch: seq<Ready>, effects: seq<Effect>, i: nat, j: nat)
    requires |effects| == |batch| && i <= j < |batch|
  {
    Served(t, batch, effects, i, j) && !effects[j].threw
  }

  predicate AllPass(t: Table, batch: seq<Ready>, effects: seq<Effect>, i: nat, upto: nat)
    requires |effects| == |batch| && i <= upto <= |batch|
  {
    forall j :: i <= j < upto ==> Passes(t, batch, effects, i, j)
  }

  lemma LaterServed(t: Table, batch: seq<Ready>, effects: seq<Effect>, i: nat, j: nat)
    requires |effects| == |batch| && i < j < |batch|
    ensures Served(t, batch, effects, i, j) <==> Served(ApplyAll(t, effects[i].calls), batch, effects, i + 1, j)
  {
    CallsBetweenFirst(effects, i, j);
    ApplyAllJoin(t, effects[i].calls, CallsBetween(effects, i + 1, j));
    ServedIsHandler(t, batch, effects, i, j);
    ServedIsHandler(ApplyAll(t, effects[i].calls), batch, effects, i + 1, j);
  }

  lemma LaterPass(t: Table, batch: seq<Ready>, effects: seq<Effect>, i: nat, upto: nat)
    requires |effects| == |batch| && i < upto <= |batch|
    ensures AllPass(t, batch, effects, i, upto) <==>
      Passes(t, batch, effects, i, i) && AllPass(ApplyAll(t, effects[i].calls), batch, effects, i + 1, upto)
  {
    var t' := ApplyAll(t, effects[i].calls);
    forall j | i < j < upto
      ensures Passes(t, batch, effects, i, j) <==> Passes(t', batch, effects, i + 1, j)
    {
      LaterServed(t, batch, effects, i, j);
    }
    if Passes(t, batch, effects, i, i) && AllPass(t', batch, effects, i + 1, upto) {
      forall j | i <= j < upto ensures Passes(t, batch, effects, i, j) {
        if i < j {
          assert Passes(t', batch, effects, i + 1, j);
        }
      }
    }
    if AllPass(t, batch, effects, i, upto) {
      assert Passes(t, batch, effects, i, i);
      var n := i + 1;
      forall j | n <= j < upto ensures Passes(t', batch, effects, n, j) {
        assert Passes(t, batch, effects, i, j);
      }
    }
  }

  /** Where a batch ends, if the loop is about to handle its `i`-th event: at the first event that
      finds no handler or whose callback throws. */
  lemma {:induction false} DispatchEnds(t: Table, batch: seq<Ready>, effects: seq<Effect>, i: nat, j: nat)
    requires |effects| == |batch| && i <= j < |batch|
    ensures Dispatch(t, batch, effects, i).ending == NoCallback(j)
      <==> AllPass(t, batch, effects, i, j) && !Served(t, batch, effects, i, j)
    decreases j - i
  {
    assert Served(t, batch, effects, i, i) <==> Handler(t, batch[i]).Some?;
    if i < j {
      LaterPass(t, batch, effects, i, j);
      if Passes(t, batch, effects, i, i) {
        DispatchEnds(ApplyAll(t, effects[i].calls), batch, effects, i + 1, j);
        LaterServed(t, batch, effects, i, j);
      }
    } else if Passes(t, batch, effects, i, i) {
      LaterEnding(ApplyAll(t, effects[i].calls), batch, effects, i + 1);
    }
  }

  lemma {:induction false} LaterEnding(t: Table, batch: seq<Ready>, effects: seq<Effect>, i: nat)
    requires |effects| == |batch| && i <= |batch|
    ensures var e := Dispatch(t, batch, effects, i).ending; e.NoCallback? ==> i <= e.i < |batch|
    decreases |batch| - i
  {
    if i < |batch| && Handler(t, batch[i]).Some? {
      LaterEnding(ApplyAll(t, effects[i].calls), batch, effects, i + 1);
    }
  }

  /** A batch is dispatched whole exactly when no callback throws and each event still finds a
      handler: the latest call for its descriptor in the events before it did not unregister it,
      or there was none and it was registered all along. */
  lemma {:induction false} DispatchCompletes(t: Table, batch: seq<Ready>, effects: seq<Effect>, i: nat)
    requires |effects| == |batch| && i <= |batch|
    ensures Dispatch(t, batch, effects, i).ending == Completed <==> AllPass(t, batch, effects, i, |batch|)
    decreases |batch| - i
  {
    if i < |batch| {
      assert Served(t, batch, effects, i, i) <==> Handler(t, batch[i]).Some?;
      LaterPass(t, batch, effects, i, |batch|);
      DispatchCompletes(ApplyAll(t, effects[i].calls), batch, effects, i + 1);
    }
  }

  // ---- which callbacks are called ----

  /** `cb` is what the `j`-th event has to call, told from the calls alone: for a failed event the
      latest error handler, otherwise the callback of the latest `in` or `out`; without one of
      these, what was there before. */
  predicate Due(t: Table, batch: seq<Ready>, effects: seq<Effect>, i: nat, j: nat, cb: Callback)
    requires |effects| == |batch| && i <= j < |batch|
  {
    var calls, fd := CallsBetween(effects, i, j), batch[j].fd;
    if batch[j].failed then
      match LastErrorCall(calls, fd)
      case None => fd in t.errors && cb == t.errors[fd]
      case Some(c) => c == OnError(fd, cb)
    else
      match LastRegistration(calls, fd)
      case None => fd in t.fds && cb == t.fds[fd]
      case Some(c) => c == OnIn(fd, cb) || c == OnOut(fd, cb)
  }

  lemma {:induction false} CallbackFromCalls(t: Table, calls: seq<Call>, fd: int)
    ensures fd in ApplyAll(t, calls).fds ==>
      match LastRegistration(calls, fd)
      case None => fd in t.fds && ApplyAll(t, calls).fds[fd] == t.fds[fd]
      case Some(c) => !c.Del? && !c.OnError? && c.fd == fd && c.callback == ApplyAll(t, calls).fds[fd]
    ensures fd in ApplyAll(t, calls).errors ==>
      match LastErrorCall(calls, fd)
      case None => fd in t.errors && ApplyAll(t, calls).errors[fd] == t.errors[fd]
      case Some(c) => c == OnError(fd, ApplyAll(t, calls).errors[fd])
  {
    if calls != [] {
      CallbackFromCalls(t, calls[..|calls| - 1], fd);
    }
  }

  lemma DueNow(t: Table, batch: seq<Ready>, effects: seq<Effect>, i: nat)
    requires |effects| == |batch| && i < |batch| && Handler(t, batch[i]).Some?
    ensures Due(t, batch, effects, i, i, Handler(t, batch[i]).value)
  {
    CallbackFromCalls(t, [], batch[i].fd);
  }

  lemma DueLater(t: Table, batch: seq<Ready>, effects: seq<Effect>, i: nat, j: nat, cb: Callback)
    requires |effects| == |batch| && i < j < |batch|
    requires Due(ApplyAll(t, effects[i].calls), batch, effects, i + 1, j, cb)
    ensures Due(t, batch, effects, i, j, cb)
  {
    var first, later, fd := effects[i].calls, CallsBetween(effects, i + 1, j), batch[j].fd;
    CallsBetweenFirst(effects, i, j);
    LastRegistrationJoin(first, later, fd);
    LastErrorCallJoin(first, later, fd);
    CallbackFromCalls(t, first, fd);
    LastRegistrationFd(first, fd);
  }

  lemma {:induction false} LastRegistrationFd(calls: seq<Call>, fd: int)
    ensures var c := LastRegistration(calls, fd); c.Some? ==> !c.value.OnError? && c.value.fd == fd
  {
    if calls != [] {
      LastRegistrationFd(calls[..|calls| - 1], fd);
    }
  }

  /** What a dispatch did: it called what was due for each of its first `n` events, in order; the
      calls of all these callbacks were made, and nothing else; and it stopped after `n` events
      because the batch was over, the last of them threw, or the next one finds no handler. */
  ghost predicate Did(t: Table, batch: seq<Ready>, effects: seq<Effect>, i: nat, n: nat, d: Dispatched)
    requires |effects| == |batch|
  {
    && n == |d.called| && i + n <= |batch|
    && CalledAreDue(t, batch, effects, i, d.called)
    && d.table == ApplyAll(t, CallsBetween(effects, i, i + n))
    && EndsAfter(t, batch, effects, i, n, d.ending)
  }

  ghost predicate CalledAreDue(t: Table, batch: seq<Ready>, effects: seq<Effect>, i: nat, called: seq<Callback>)
    requires |effects| == |batch| && i + |called| <= |batch|
  {
    forall k :: 0 <= k < |called| ==> Due(t, batch, effects, i, i + k, called[k])
  }

  predicate EndsAfter(t: Table, batch: seq<Ready>, effects: seq<Effect>, i: nat, n: nat, ending: Ending)
    requires |effects| == |batch| && i + n <= |batch|
  {
    match ending
    case Completed => i + n == |batch| && AllPass(t, batch, effects, i, i + n)
    case NoCallback(j) =>
      j == i + n < |batch| && AllPass(t, batch, effects, i, j) && !Served(t, batch, effects, i, j)
    case Threw =>
      n > 0 && AllPass(t, batch, effects, i, i + n - 1) && effects[i + n - 1].threw
  }

  /** Each event calls the callback that is due for it, and none is called that is not. */
  lemma CallsWhatIsDue(t: Table, batch: seq<Ready>, effects: seq<Effect>, i: nat)
    requires |effects| == |batch| && i <= |batch|
    ensures var d := Dispatch(t, batch, effects, i); Did(t, batch, effects, i, |d.called|, d)
  {
    MadeTheCalls(t, batch, effects, i);
    CalledTheDue(t, batch, effects, i);
    EndedThere(t, batch, effects, i);
  }

  /** The table after the callbacks of events `i .. j`, taken one after the other. */
  function TableAt(t: Table, effects: seq<Effect>, i: nat, j: nat): Table
    requires i <= j <= |effects|
    decreases j - i
  {
    if i == j then t else TableAt(ApplyAll(t, effects[i].calls), effects, i + 1, j)
  }

  lemma {:induction false} TableAtIs(t: Table, effects: seq<Effect>, i: nat, j: nat)
    requires i <= j <= |effects|
    ensures TableAt(t, effects, i, j) == ApplyAll(t, CallsBetween(effects, i, j))
    decreases j - i
  {
    if i < j {
      TableAtIs(ApplyAll(t, effects[i].calls), effects, i + 1, j);
      OneMoreCalls(t, effects, i, j);
    }
  }

  lemma {:induction false} OneAfterTheOther(t: Table, batch: seq<Ready>, effects: seq<Effect>, i: nat)
    requires |effects| == |batch| && i <= |batch|
    ensures var d := Dispatch(t, batch, effects, i);
      i + |d.called| <= |batch| && d.table == TableAt(t, effects, i, i + |d.called|)
    decreases |batch| - i
  {
    if i < |batch| && Handler(t, batch[i]).Some? && !effects[i].threw {
      OneAfterTheOther(ApplyAll(t, effects[i].calls), batch, effects, i + 1);
    }
  }

  lemma MadeTheCalls(t: Table, batch: seq<Ready>, effects: seq<Effect>, i: nat)
    requires |effects| == |batch| && i <= |batch|
    ensures var d := Dispatch(t, batch, effects, i);
      i + |d.called| <= |batch| && d.table == ApplyAll(t, CallsBetween(effects, i, i + |d.called|))
  {
    var n := i + |Dispatch(t, batch, effects, i).called|;
    OneAfterTheOther(t, batch, effects, i);
    TableAtIs(t, effects, i, n);
  }

  lemma {:induction false} CalledTheDue(t: Table, batch: seq<Ready>, effects: seq<Effect>, i: nat)
    requires |effects| == |batch| && i <= |batch| && i + |Dispatch(t, batch, effects, i).called| <= |batch|
    ensures CalledAreDue(t, batch, effects, i, Dispatch(t, batch, effects, i).called)
    decreases |batch| - i
  {
    if i < |batch| && Handler(t, batch[i]).Some? {
      DueNow(t, batch, effects, i);
      if !effects[i].threw {
        var t' := ApplyAll(t, effects[i].calls);
        CalledTheDue(t', batch, effects, i + 1);
        OneMoreIsDue(t, batch, effects, i, Dispatch(t', batch, effects, i + 1).called);
      }
    }
  }

  lemma {:induction false} EndedThere(t: Table, batch: seq<Ready>, effects: seq<Effect>, i: nat)
    requires |effects| == |batch| && i <= |batch| && i + |Dispatch(t, batch, effects, i).called| <= |batch|
    ensures var d := Dispatch(t, batch, effects, i); EndsAfter(t, batch, effects, i, |d.called|, d.ending)
    decreases |batch| - i
  {
    if i < |batch| {
      ServedIsHandler(t, batch, effects, i, i);
      if Handler(t, batch[i]).Some? && !effects[i].threw {
        var t' := ApplyAll(t, effects[i].calls);
        var d := Dispatch(t', batch, effects, i + 1);
        EndedThere(t', batch, effects, i + 1);
        OneMoreEnds(t, batch, effects, i, |d.called|, d.ending);
      }
    }
  }

  lemma OneMoreIsDue(t: Table, batch: seq<Ready>, effects: seq<Effect>, i: nat, called: seq<Callback>)
    requires |effects| == |batch| && i + 1 + |called| <= |batch| && Handler(t, batch[i]).Some?
    requires CalledAreDue(ApplyAll(t, effects[i].calls), batch, effects, i + 1, called)
    ensures CalledAreDue(t, batch, effects, i, [Handler(t, batch[i]).value] + called)
  {
    var all := [Handler(t, batch[i]).value] + called;
    DueNow(t, batch, effects, i);
    forall k | 0 <= k < |all| ensures Due(t, batch, effects, i, i + k, all[k]) {
      if k > 0 {
        assert Due(ApplyAll(t, effects[i].calls), batch, effects, i + 1, i + 1 + (k - 1), called[k - 1]);
        DueLater(t, batch, effects, i, i + k, all[k]);
      }
    }
  }

  lemma OneMoreEnds(t: Table, batch: seq<Ready>, effects: seq<Effect>, i: nat, n: nat, ending: Ending)
    requires |effects| == |batch| && i + 1 + n <= |batch| && Passes(t, batch, effects, i, i)
    requires EndsAfter(ApplyAll(t, effects[i].calls), batch, effects, i + 1, n, ending)
    ensures EndsAfter(t, batch, effects, i, n + 1, ending)
  {
    LaterPass(t, batch, effects, i, if ending.Threw? then i + n else i + 1 + n);
    if ending.NoCallback? {
      LaterServed(t, batch, effects, i, ending.i);
    }
  }

  lemma OneMoreCalls(t: Table, effects: seq<Effect>, i: nat, upto: nat)
    requires i < upto <= |effects|
    ensures ApplyAll(t, CallsBetween(effects, i, upto))
      == ApplyAll(ApplyAll(t, effects[i].calls), CallsBetween(effects, i + 1, upto))
  {
    CallsBetweenFirst(effects, i, upto);
    ApplyAllJoin(t, effects[i].calls, CallsBetween(effects, i + 1, upto));
  }

  /** Every callback unregisters at most the descriptor it was called for. */
  predicate OwnOnly(batch: seq<Ready>, effects: seq<Effect>)
    requires |effects| == |batch|
  {
    forall i, c :: 0 <= i < |batch| && c in effects[i].calls && c.Del? ==> c.fd == batch[i].fd
  }

  lemma {:induction false} NoDelNoLoss(calls: seq<Call>, fd: int)
    requires forall c :: c in calls && c.Del? ==> c.fd != fd
    ensures LastRegistration(calls, fd).Some? ==> !LastRegistration(calls, fd).value.Del?
    ensures LastErrorCall(calls, fd).Some? ==> LastErrorCall(calls, fd).value.OnError?
  {
    if calls != [] {
      NoDelNoLoss(calls[..|calls| - 1], fd);
    }
  }

  lemma {:induction false} EarlierDels(batch: seq<Ready>, effects: seq<Effect>, j: nat, k: nat)
    requires |effects| == |batch| && j <= k < |batch| && OwnOnly(batch, effects)
    requires forall a, b :: 0 <= a < b < |batch| ==> batch[a].fd != batch[b].fd
    ensures forall c :: c in CallsBetween(effects, 0, j) && c.Del? ==> c.fd != batch[k].fd
  {
    if j > 0 {
      EarlierDels(batch, effects, j - 1, k);
    }
  }

  /** With distinct descriptors that all have their handlers, and callbacks that unregister only
      their own descriptor, every event of the batch finds a callback. */
  lemma {:induction false} OwnOnlyCompletes(t: Table, batch: seq<Ready>, effects: seq<Effect>)
    requires |effects| == |batch| && OwnOnly(batch, effects)
    requires forall a, b :: 0 <= a < b < |batch| ==> batch[a].fd != batch[b].fd
    requires forall a :: 0 <= a < |batch| ==> Handler(t, batch[a]).Some? && !effects[a].threw
    ensures Dispatch(t, batch, effects, 0).ending == Completed
  {
    forall j | 0 <= j < |batch| ensures Passes(t, batch, effects, 0, j) {
      assert Handler(t, batch[j]).Some?;
      EarlierDels(batch, effects, j, j);
      NoDelNoLoss(CallsBetween(effects, 0, j), batch[j].fd);
    }
    DispatchCompletes(t, batch, effects, 0);
  }

  lemma {:induction false} LastRegistrationJoin(a: seq<Call>, b: seq<Call>, fd: int)
    ensures LastRegistration(a + b, fd) ==
      if LastRegistration(b, fd).Some? then LastRegistration(b, fd) else LastRegistration(a, fd)
  {
    if b == [] {
      assert a + b == a;
    } else {
      assert (a + b)[..|a + b| - 1] == a + b[..|b| - 1];
      LastRegistrationJoin(a, b[..|b| - 1], fd);
    }
  }

  lemma {:induction false} LastErrorCallJoin(a: seq<Call>, b: seq<Call>, fd: int)
    ensures LastErrorCall(a + b, fd) ==
      if LastErrorCall(b, fd).Some? then LastErrorCall(b, fd) else LastErrorCall(a, fd)
  {
    if b == [] {
      assert a + b == a;
    } else {
      assert (a + b)[..|a + b| - 1] == a + b[..|b| - 1];
      LastErrorCallJoin(a, b[..|b| - 1], fd);
    }
  }

  /** The last call that counts was made by the `k`-th callback. */
  lemma {:induction false} LastIsFrom(effects: seq<Effect>, k: nat, j: nat, fd: int)
    requires k < j <= |effects|
    requires LastRegistration(effects[k].calls, fd).Some?
    requires forall m :: k < m < j ==> LastRegistration(effects[m].calls, fd).None?
    ensures LastRegistration(CallsBetween(effects, 0, j), fd) == LastRegistration(effects[k].calls, fd)
    decreases j
  {
    LastRegistrationJoin(CallsBetween(effects, 0, j - 1), effects[j - 1].calls, fd);
    if k < j - 1 {
      LastIsFrom(effects, k, j - 1, fd);
    }
  }

  /** In any batch, a callback that closes the descriptor of a later event, which no callback
      in between registers again, keeps the batch from being dispatched whole: if the events
      before that one are handled, it finds nothing to call. */
  lemma {:induction false} ClosingAnotherBreaks(t: Table, batch: seq<Ready>, effects: seq<Effect>, k: nat, j: nat)
    requires |effects| == |batch| && k < j < |batch| && !batch[j].failed
    requires LastRegistration(effects[k].calls, batch[j].fd) == Some(Del(batch[j].fd))
    requires forall m :: k < m < j ==> LastRegistration(effects[m].calls, batch[j].fd).None?
    ensures Dispatch(t, batch, effects, 0).ending != Completed
    ensures AllPass(t, batch, effects, 0, j) ==> Dispatch(t, batch, effects, 0).ending == NoCallback(j)
  {
    LastIsFrom(effects, k, j, batch[j].fd);
    assert !Passes(t, batch, effects, 0, j);
    DispatchEnds(t, batch, effects, 0, j);
    DispatchCompletes(t, batch, effects, 0);
  }
}
