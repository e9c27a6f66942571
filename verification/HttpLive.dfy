/** The connection with its `$in` handler. `process` does not unregister the handler that led to
    it: until `end` or `flush` calls `$out`, every readable event runs it again. */
module HttpLive {
  import opened Search
  import opened Text
  import opened HeaderValues
  import opened HttpReceive
  import opened HttpReference

  /** `On`: the closure that `readUntil` registered for `wait`, with the `last` it captured.
      `Off`: `$out` replaced it, or the descriptor is gone. */
  datatype Handler = On(wait: Wait, last: nat) | Off

  datatype Live = Live(conn: Conn, handler: Handler)

  /** What `process` can leave registered. */
  predicate CanBeStale(w: Wait) { w.Head? || w.Body? || w.Tail? }

  predicate HasBoundary(boundary: string, h: Handler) {
    h.On? && InMultipart(h.wait) ==> |boundary| >= 2
  }

  ghost predicate Sound(l: Live) {
    && WellFormed(l.conn) && LastValid(l.conn) && HasBoundary(l.conn.boundary, l.handler)
    && (l.conn.status.Receiving? ==> l.handler == On(l.conn.status.wait, l.conn.status.last))
    && (!l.conn.status.Receiving? && l.handler.On? ==> l.conn.status.Processing? && CanBeStale(l.handler.wait))
  }

  // ---- one readable event ----

  /** What is registered when the callback of `p` runs. `readToken` always registers its closure;
      `readSize` does not if the bytes are there. */
  function Registered(p: Conn, before: Handler): Handler
    requires p.status.Receiving?
  {
    if IsToken(p.status.wait) then On(p.status.wait, p.status.last) else before
  }

  /** A size that is met at once, and a processed request, keep what was registered before. */
  ghost predicate Keepable(s: Conn, h: Handler) {
    && HasBoundary(s.boundary, h)
    && (s.status.Processing? || (s.status.Receiving? && s.status.wait.Body?) ==> h.On? && CanBeStale(h.wait))
  }

  lemma FireKeepable(p: Conn, h: Handler)
    requires WellFormed(p) && p.status.Receiving? && Ready(p) && Keepable(p, h)
    ensures Keepable(Fire(p), Registered(p, h))
  {
  }

  /** The cascade of callbacks, with the handler it leaves. */
  ghost function Cascade(s: Conn, h: Handler): (l: Live)
    requires WellFormed(s) && LastValid(s) && Keepable(s, h)
    ensures l.conn == Settle(s)
    ensures Sound(l)
    ensures l.conn.status.Processing? ==> l.handler.On?
    decreases |s.buf|, s.status.Receiving?
  {
    if s.status.Receiving? then
      var p := Probe(s);
      ProbeKeepsLast(s);
      if Ready(p) then
        FireShrinks(p);
        FireKeepable(p, h);
        Cascade(Fire(p), Registered(p, h))
      else Live(p, On(p.status.wait, p.status.last))
    else Live(s, if s.status.Processing? then h else Off)
  }

  /** The first step of a cascade that waits for a token. */
  lemma CascadeStep(s: Conn, h: Handler)
    requires WellFormed(s) && LastValid(s) && Keepable(s, h) && s.status.Receiving? && IsToken(s.status.wait)
    ensures var p := Probe(s); var registered := On(p.status.wait, p.status.last);
      && WellFormed(p) && LastValid(p) && Keepable(p, registered)
      && (Ready(p) ==>
            WellFormed(Fire(p)) && LastValid(Fire(p)) && Keepable(Fire(p), registered)
            && Cascade(s, h) == Cascade(Fire(p), registered))
      && (!Ready(p) ==> Cascade(s, h) == Live(p, registered))
  {
    var p := Probe(s);
    ProbeKeepsLast(s);
    if Ready(p) {
      FireShrinks(p);
      FireKeepable(p, h);
    }
  }

  /** The handler's view of the connection: it waits, whatever has happened since it was
      registered. `partialFindBuffer` searches from the end if `last` lies beyond it. */
  function Waiting(l: Live, more: string): Conn
    requires l.handler.On?
  {
    var buf, last := l.conn.buf + more, l.handler.last;
    l.conn.(buf := buf, status := Receiving(l.handler.wait, if IsToken(l.handler.wait) then Min(last, |buf|) else last))
  }

  /** One readable event: the registered handler appends the bytes, tests its condition and, if
      it holds, calls back. With no handler the bytes stay where they are. */
  ghost function Deliver(l: Live, chunk: string): (t: Live)
    requires Sound(l)
    ensures Sound(t)
  {
    if l.handler.Off? then l
    else
      var p := Probe(Waiting(l, chunk));
      var h := On(p.status.wait, p.status.last);
      if Ready(p) then
        FireShrinks(p);
        FireKeepable(p, h);
        Cascade(Fire(p), h)
      else
        DeliverWaits(l, chunk);
        Live(if l.conn.status.Receiving? then p else p.(status := l.conn.status), h)
  }

  lemma DeliverWaits(l: Live, chunk: string)
    requires Sound(l) && l.handler.On?
    ensures var p := Probe(Waiting(l, chunk)); l.conn.status.Receiving? ==> LastValid(p)
  {
    if l.conn.status.Receiving? {
      AppendKeepsLast(l.conn, chunk);
      SameConn(Waiting(l, chunk), l.conn.(buf := l.conn.buf + chunk));
      ProbeKeepsLast(Waiting(l, chunk));
    }
  }

  ghost function DeliverAll(l: Live, chunks: seq<string>): (t: Live)
    requires Sound(l)
    ensures Sound(t)
    decreases |chunks|
  {
    if chunks == [] then l else DeliverAll(Deliver(l, chunks[0]), chunks[1..])
  }

  // ---- the other steps ----

  /** `start` on a connection. */
  function Fresh(s: Conn): (l: Live)
    ensures Sound(l)
  {
    Live(Start(s), On(Head, 0))
  }

  /** `write`: the response is put into the buffer that requests are read into. */
  function Write(l: Live, text: string): (t: Live)
    ensures Sound(l) ==> Sound(t)
  {
    AppendKeeps(l, text);
    l.(conn := l.conn.(buf := l.conn.buf + text))
  }

  lemma AppendKeeps(l: Live, text: string)
    ensures Sound(l) ==> Sound(l.(conn := l.conn.(buf := l.conn.buf + text)))
  {
    if LastValid(l.conn) {
      AppendKeepsLast(l.conn, text);
    }
  }

  /** `end` and `flush` begin with `$out`, which replaces the handler. */
  function Out(l: Live): (t: Live)
    ensures Sound(t)
  {
    Live(if l.conn.status.Receiving? then l.conn.(status := Processing) else l.conn, Off)
  }

  /** The callback of `end`, once the response is written. */
  function Answered(l: Live): (t: Live)
    requires l.conn.status.Processing? && l.handler.Off?
    ensures Sound(t)
  {
    if l.conn.isClosed then Live(HttpReceive.Responded(l.conn), Off) else Fresh(l.conn)
  }

  // ---- up to the outcome ----

  lemma DeliverIsCascade(l: Live, chunk: string)
    requires Sound(l) && l.conn.status.Receiving?
    ensures var s := l.conn.(buf := l.conn.buf + chunk);
      LastValid(s) && Keepable(s, l.handler) && Deliver(l, chunk) == Cascade(s, l.handler)
  {
    AppendKeepsLast(l.conn, chunk);
    SameConn(Waiting(l, chunk), l.conn.(buf := l.conn.buf + chunk));
  }

  /** While the request is incomplete, the handler does what the receive machine says. */
  lemma DeliverIsFeed(l: Live, chunk: string)
    requires Sound(l) && l.conn.status.Receiving?
    ensures Deliver(l, chunk).conn == Feed(l.conn, chunk)
  {
    DeliverIsCascade(l, chunk);
  }

  /** No event comes after the one that completes the request. */
  ghost predicate InTime(l: Live, chunks: seq<string>)
    requires Sound(l)
    decreases |chunks|
  {
    |chunks| <= 1 ||
    (Deliver(l, chunks[0]).conn.status.Receiving? && InTime(Deliver(l, chunks[0]), chunks[1..]))
  }

  lemma {:induction false} InTimeIsFeed(l: Live, chunks: seq<string>)
    requires Sound(l) && l.conn.status.Receiving? && InTime(l, chunks)
    ensures DeliverAll(l, chunks).conn == FeedAll(l.conn, chunks)
    decreases |chunks|
  {
    if chunks != [] {
      DeliverIsFeed(l, chunks[0]);
      if |chunks| > 1 {
        InTimeIsFeed(Deliver(l, chunks[0]), chunks[1..]);
      }
    }
  }

  lemma {:induction false} SettleGrows(s: Conn)
    requires WellFormed(s) && LastValid(s)
    ensures s.log <= Settle(s).log
    decreases |s.buf|, s.status.Receiving?
  {
    if s.status.Receiving? && Ready(Probe(s)) {
      FireShrinks(Probe(s));
      SettleGrows(Fire(Probe(s)));
    }
  }

  lemma DeliverGrows(l: Live, chunk: string)
    requires Sound(l)
    ensures l.conn.log <= Deliver(l, chunk).conn.log
  {
    if l.handler.On? {
      var p := Probe(Waiting(l, chunk));
      if Ready(p) {
        FireShrinks(p);
        SettleGrows(Fire(p));
      }
    }
  }

  lemma {:induction false} DeliverAllGrows(l: Live, chunks: seq<string>)
    requires Sound(l)
    ensures l.conn.log <= DeliverAll(l, chunks).conn.log
    decreases |chunks|
  {
    if chunks != [] {
      DeliverGrows(l, chunks[0]);
      DeliverAllGrows(Deliver(l, chunks[0]), chunks[1..]);
    }
  }

  lemma {:induction false} NoMoreFeed(s: Conn, chunks: seq<string>)
    requires WellFormed(s) && LastValid(s) && !s.status.Receiving?
    ensures FeedAll(s, chunks) == s
    decreases |chunks|
  {
    if chunks != [] {
      NoMoreFeed(s, chunks[1..]);
    }
  }

  /** Whatever comes later, the events up to the outcome are those of the receive machine. */
  lemma {:induction false} UpToTheOutcome(l: Live, chunks: seq<string>)
    requires Sound(l) && l.conn.status.Receiving?
    ensures FeedAll(l.conn, chunks).log <= DeliverAll(l, chunks).conn.log
    ensures FeedAll(l.conn, chunks).status.Receiving? ==> InTime(l, chunks)
    decreases |chunks|
  {
    if chunks != [] {
      DeliverIsFeed(l, chunks[0]);
      var t := Deliver(l, chunks[0]);
      if t.conn.status.Receiving? {
        UpToTheOutcome(t, chunks[1..]);
      } else {
        NoMoreFeed(t.conn, chunks[1..]);
        DeliverAllGrows(t, chunks[1..]);
      }
    }
  }

  /** Fragmentation independence: two ways to cut the same bytes lead to the same connection, if
      neither goes on after the outcome, and in any case to the same events up to the outcome. */
  lemma {:induction false} FragmentationIndependent(l: Live, a: seq<string>, b: seq<string>)
    requires Sound(l) && l.conn.status.Receiving? && Settled(l.conn)
    requires Flatten(a) == Flatten(b)
    ensures InTime(l, a) && InTime(l, b) ==> DeliverAll(l, a).conn == DeliverAll(l, b).conn
    ensures InTime(l, a) ==> DeliverAll(l, a).conn.log <= DeliverAll(l, b).conn.log
  {
    FeedChunks(l.conn, a);
    FeedChunks(l.conn, b);
    UpToTheOutcome(l, b);
    if InTime(l, a) {
      InTimeIsFeed(l, a);
    }
    if InTime(l, b) {
      InTimeIsFeed(l, b);
    }
  }

  /** The events of a stream are those of the parser that reads it whole; more can follow only
      if readable events follow the outcome. */
  lemma {:induction false} LiveIsParse(s: Conn, chunks: seq<string>)
    ensures var t := DeliverAll(Fresh(s), chunks);
      && s.log + ParseRequest(Flatten(chunks)) <= t.conn.log
      && (InTime(Fresh(s), chunks) ==>
            t.conn.log == s.log + ParseRequest(Flatten(chunks)) && HeadRead(t.conn, Flatten(chunks)))
  {
    ReceiveIsParse(s, chunks);
    UpToTheOutcome(Fresh(s), chunks);
    if InTime(Fresh(s), chunks) {
      InTimeIsFeed(Fresh(s), chunks);
    }
  }

  // ---- whether the stream has reached its outcome can be read off the stream ----

  predicate HasOutcome(events: seq<Event>) {
    exists i :: 0 <= i < |events| && IsOutcome(events[i])
  }

  /** How a connection stands is told by what it emitted since `n`. */
  predicate Tells(t: Conn, n: nat)
    requires n <= |t.log|
  {
    if t.status.Receiving? then !HasOutcome(t.log[n..])
    else n < |t.log| && match t.log[|t.log| - 1]
      case Process(env) => t.status.Processing? && env == t.env
      case Close => t.status.Closed?
      case Throw => t.status.Threw?
      case _ => false
  }

  lemma FireTells(p: Conn)
    requires WellFormed(p) && p.status.Receiving? && Ready(p)
    ensures p.log <= Fire(p).log && Tells(Fire(p), |p.log|)
  {
    FireShrinks(p);
    if p.status.wait.Head? {
      var s1 := TakeHead(Inside(p), TokenEnd(p));
      assert s1.log[|p.log|..] == [HeadText(p.buf[..TokenEnd(p)])];
      if "Content-Length" in s1.env.header {
        BodyTells(s1, ParseInt(s1.env.header["Content-Length"]), |p.log|);
      }
    }
  }

  lemma BodyTells(s: Conn, length: Number, n: nat)
    requires n <= |s.log| && !HasOutcome(s.log[n..])
    ensures s.log <= BodyStep(s, length).log && Tells(BodyStep(s, length), n)
  {
    BodyShape(s, length);
  }

  lemma {:induction false} SettleTells(s: Conn, n: nat)
    requires WellFormed(s) && LastValid(s) && n <= |s.log| && Tells(s, n)
    ensures n <= |Settle(s).log| && Tells(Settle(s), n)
    decreases |s.buf|, s.status.Receiving?
  {
    if s.status.Receiving? {
      var p := Probe(s);
      if Ready(p) {
        FireShrinks(p);
        FireTells(p);
        var t := Fire(p);
        if t.status.Receiving? {
          assert t.log[n..] == s.log[n..] + t.log[|s.log|..];
        }
        SettleTells(t, n);
      }
    }
  }

  lemma Told(t: Conn, n: nat, events: seq<Event>)
    requires n <= |t.log| && t.log[n..] == events && Tells(t, n)
    ensures t.status.Receiving? <==> !HasOutcome(events)
    ensures t.status.Processing? <==> events != [] && events[|events| - 1].Process?
  {
    if t.status.Receiving? {
      assert events != [] ==> !IsOutcome(events[|events| - 1]);
    } else {
      assert events[|events| - 1] == t.log[|t.log| - 1];
      assert IsOutcome(events[|events| - 1]);
    }
  }

  lemma {:induction false} FreshTells(s: Conn, chunks: seq<string>)
    ensures var t := FeedAll(Start(s), chunks); |s.log| <= |t.log| && Tells(t, |s.log|)
  {
    StartIsSettled(s);
    FeedChunks(Start(s), chunks);
    SettleTells(Start(s).(buf := Start(s).buf + Flatten(chunks)), |s.log|);
  }

  /** On a fresh connection. */
  lemma {:induction false} OutcomeTells(s: Conn, chunks: seq<string>)
    ensures var t := FeedAll(Start(s), chunks); var events := ParseRequest(Flatten(chunks));
      && (t.status.Receiving? <==> !HasOutcome(events))
      && (t.status.Processing? <==> events != [] && events[|events| - 1].Process?)
  {
    ReceiveIsParse(s, chunks);
    FreshTells(s, chunks);
    Told(FeedAll(Start(s), chunks), |s.log|, ParseRequest(Flatten(chunks)));
  }

  /** So the bytes tell whether any event comes too late: all but the last chunk must not
      complete the request. */
  lemma {:induction false} InTimeMeans(s: Conn, front: seq<string>, last: string)
    ensures InTime(Fresh(s), front + [last]) <==> !HasOutcome(ParseRequest(Flatten(front)))
  {
    OutcomeTells(s, front);
    InTimeFront(Fresh(s), front, last);
  }

  lemma {:induction false} InTimeFront(l: Live, front: seq<string>, last: string)
    requires Sound(l) && l.conn.status.Receiving?
    ensures InTime(l, front + [last]) <==> FeedAll(l.conn, front).status.Receiving?
    decreases |front|
  {
    if front != [] {
      DeliverIsFeed(l, front[0]);
      var t := Deliver(l, front[0]);
      assert (front + [last])[1..] == front[1..] + [last];
      if t.conn.status.Receiving? {
        InTimeFront(t, front[1..], last);
      } else {
        NoMoreFeed(t.conn, front[1..]);
      }
    }
  }

  /** An incomplete request: no event can have come too late. */
  lemma {:induction false} WhileIncomplete(s: Conn, chunks: seq<string>)
    requires !HasOutcome(ParseRequest(Flatten(chunks)))
    ensures InTime(Fresh(s), chunks)
    ensures DeliverAll(Fresh(s), chunks).conn.log == s.log + ParseRequest(Flatten(chunks))
  {
    OutcomeTells(s, chunks);
    UpToTheOutcome(Fresh(s), chunks);
    LiveIsParse(s, chunks);
  }

  // ---- bytes in the same event as the end ----

  lemma {:induction false} CascadeAppend(s: Conn, h: Handler, more: string)
    requires WellFormed(s) && LastValid(s) && s.status.Receiving? && Keepable(s, h)
    requires !Settle(s).status.Receiving?
    ensures LastValid(s.(buf := s.buf + more)) && Keepable(s.(buf := s.buf + more), h)
    ensures Cascade(s.(buf := s.buf + more), h) == Cascade(s, h)
    decreases |s.buf|
  {
    var p := Probe(s);
    ProbeAppend(s, more);
    FireShrinks(p);
    FireAppend(p, more);
    FireKeepable(p, h);
    if Fire(p).status.Receiving? {
      CascadeAppend(Fire(p), Registered(p, h), more);
    }
  }

  lemma Regroup(a: string, b: string, c: string)
    ensures (a + b) + c == a + (b + c)
  {
  }

  lemma CascadeWithout(s: Conn, h: Handler, more: string, all: string)
    requires WellFormed(s) && LastValid(s) && s.status.Receiving? && Keepable(s, h)
    requires !Settle(s).status.Receiving? && all == s.buf + more
    ensures LastValid(s.(buf := all)) && Keepable(s.(buf := all), h)
    ensures Cascade(s.(buf := all), h) == Cascade(s, h)
  {
    CascadeAppend(s, h, more);
  }

  /** Bytes that come in one event with the end of a request are dropped: nothing at all is
      different without them. */
  lemma {:induction false} ExcessIsDropped(l: Live, request: string, excess: string)
    requires Sound(l) && l.conn.status.Receiving?
    requires !Deliver(l, request).conn.status.Receiving?
    ensures Deliver(l, request + excess) == Deliver(l, request)
  {
    DeliverIsCascade(l, request);
    DeliverIsCascade(l, request + excess);
    Regroup(l.conn.buf, request, excess);
    CascadeWithout(l.conn.(buf := l.conn.buf + request), l.handler, excess, l.conn.buf + (request + excess));
  }
}
