/** Between `process` and `end`: when the handler that is still registered runs a callback again. */
module HttpStale {
  import opened Search
  import opened Text
  import opened HttpHead
  import opened HeaderValues
  import opened HttpReceive
  import opened HttpReference
  import opened HttpLive
  import opened HttpMultipart

  /** What can happen to a connection before `end` or `flush` is called. */
  datatype Step = Arrives(bytes: string) | Writes(bytes: string)

  ghost function Take(l: Live, step: Step): (t: Live)
    requires Sound(l)
    ensures Sound(t)
  {
    if step.Arrives? then Deliver(l, step.bytes) else Write(l, step.bytes)
  }

  ghost function TakeAll(l: Live, steps: seq<Step>): (t: Live)
    requires Sound(l)
    ensures Sound(t)
    decreases |steps|
  {
    if steps == [] then l else TakeAll(Take(l, steps[0]), steps[1..])
  }

  predicate AnyArrival(steps: seq<Step>) {
    steps != [] && (steps[0].Arrives? || AnyArrival(steps[1..]))
  }

  /** The bytes that are in the buffer when the first readable event is handled. */
  function FirstSeen(steps: seq<Step>): string
    requires AnyArrival(steps)
  {
    if steps[0].Arrives? then steps[0].bytes else steps[0].bytes + FirstSeen(steps[1..])
  }

  /** The bytes that are in the buffer when the last readable event is handled. */
  function AllSeen(steps: seq<Step>): string
    requires AnyArrival(steps)
  {
    steps[0].bytes + if AnyArrival(steps[1..]) then AllSeen(steps[1..]) else ""
  }

  /** The registered condition on the bytes `seen`: enough of them, or the token at or after the
      position where the search for it resumes. */
  predicate Met(l: Live, seen: string, resume: nat)
    requires l.handler.On?
  {
    match l.handler.wait
    case Body(length) => AtLeast(|seen|, length)
    case Pair => |seen| >= 2
    case _ => IndexOf(seen, Delim(Waiting(l, "")), resume).Some?
  }

  /** The registered condition holds by the last event. Right after `process` the buffer is empty,
      and a search resumes at most at the end of what the first event sees. */
  predicate Fires(l: Live, steps: seq<Step>) {
    l.handler.On? && AnyArrival(steps) &&
    Met(l, l.conn.buf + AllSeen(steps), Min(l.handler.last, |l.conn.buf + FirstSeen(steps)|))
  }

  /** What a handler does that outlived its request: the callback of a body or of the closing
      line processes the request again, that of a head reads another head. */
  function Again(p: Conn): Event
    requires p.status.Receiving? && Ready(p)
  {
    if p.status.wait.Head? then HeadText(p.buf[..TokenEnd(p)]) else Process(p.env)
  }

  lemma StaleFires(l: Live, chunk: string)
    requires Sound(l) && l.conn.status.Processing? && l.handler.On?
    ensures var p := Probe(Waiting(l, chunk));
      if Ready(p) then l.conn.log + [Again(p)] <= Deliver(l, chunk).conn.log
      else Deliver(l, chunk) ==
             Live(l.conn.(buf := l.conn.buf + chunk), On(l.handler.wait, p.status.last))
  {
    var p := Probe(Waiting(l, chunk));
    if Ready(p) {
      FireAgain(p);
      FireShrinks(p);
      SettleGrows(Fire(p));
    } else {
      SameConn(Deliver(l, chunk).conn, l.conn.(buf := l.conn.buf + chunk));
    }
  }

  lemma FireAgain(p: Conn)
    requires WellFormed(p) && p.status.Receiving? && Ready(p) && CanBeStale(p.status.wait)
    ensures p.log + [Again(p)] <= Fire(p).log
  {
    if p.status.wait.Head? {
      var s1 := TakeHead(Inside(p), TokenEnd(p));
      if "Content-Length" in s1.env.header {
        BodyShape(s1, ParseInt(s1.env.header["Content-Length"]));
      }
    }
  }

  lemma MetIsReady(l: Live, chunk: string)
    requires Sound(l) && l.handler.On?
    ensures var seen := l.conn.buf + chunk; var p := Probe(Waiting(l, chunk));
      && (Ready(p) <==> Met(l, seen, Min(l.handler.last, |seen|)))
      && (IsToken(l.handler.wait) ==>
            p.status.last == Stop(seen, Delim(Waiting(l, "")), Min(l.handler.last, |seen|)))
  {
    var s := Waiting(l, chunk);
    if IsToken(l.handler.wait) {
      assert Delim(s) == Delim(Waiting(l, "")) == Delim(Probe(s));
      StopFindsFirst(s.buf, Delim(s), s.status.last);
    }
  }

  /** Once met, always met. */
  lemma MetStays(l: Live, seen: string, more: string, resume: nat)
    requires l.handler.On? && Met(l, seen, resume)
    ensures Met(l, seen + more, resume)
  {
    if IsToken(l.handler.wait) {
      var d := Delim(Waiting(l, ""));
      FirstOccurrence(seen, d, resume);
      OccursPrefix(seen, more, d, IndexOf(seen, d, resume).value);
      FirstOccurrence(seen + more, d, resume);
    }
  }

  /** A search that failed may be resumed where it stopped. */
  lemma MetResumes(l: Live, t: Live, seen: string, more: string, resume: nat)
    requires l.handler.On? && t.handler.On? && t.handler.wait == l.handler.wait
    requires t.conn.boundary == l.conn.boundary && resume <= |seen|
    requires IsToken(l.handler.wait) ==> t.handler.last == Stop(seen, Delim(Waiting(l, "")), resume)
    ensures IsToken(l.handler.wait) ==>
      t.handler.last <= |seen| && (Met(t, seen + more, t.handler.last) <==> Met(l, seen + more, resume))
  {
    if IsToken(l.handler.wait) {
      var d := Delim(Waiting(l, ""));
      assert Delim(Waiting(t, "")) == d;
      ResumeIsRestart(seen, more, d, resume);
      StopFindsFirst(seen + more, d, resume);
      StopFindsFirst(seen + more, d, t.handler.last);
    }
  }

  lemma {:induction false} TakeAllGrows(l: Live, steps: seq<Step>)
    requires Sound(l)
    ensures l.conn.log <= TakeAll(l, steps).conn.log
    decreases |steps|
  {
    if steps != [] {
      if steps[0].Arrives? {
        DeliverGrows(l, steps[0].bytes);
      }
      TakeAllGrows(Take(l, steps[0]), steps[1..]);
    }
  }

  /** Before the first event nothing but the buffer changes. */
  lemma FiresAfterWrite(l: Live, steps: seq<Step>)
    requires steps != [] && steps[0].Writes?
    ensures Fires(l, steps) <==> Fires(Write(l, steps[0].bytes), steps[1..])
  {
    var t := Write(l, steps[0].bytes);
    if l.handler.On? && AnyArrival(steps) {
      var first, all := FirstSeen(steps[1..]), AllSeen(steps[1..]);
      assert l.conn.buf + (steps[0].bytes + all) == t.conn.buf + all;
      assert l.conn.buf + (steps[0].bytes + first) == t.conn.buf + first;
      assert IsToken(l.handler.wait) ==> Delim(Waiting(t, "")) == Delim(Waiting(l, ""));
    }
  }

  lemma FiresAfterEvent(l: Live, steps: seq<Step>)
    requires Sound(l) && l.conn.status.Processing? && l.handler.On?
    requires steps != [] && steps[0].Arrives?
    ensures var chunk := steps[0].bytes;
      Fires(l, steps) <==> Ready(Probe(Waiting(l, chunk))) || Fires(Deliver(l, chunk), steps[1..])
  {
    var chunk, rest := steps[0].bytes, steps[1..];
    var seen := l.conn.buf + chunk;
    var resume := Min(l.handler.last, |seen|);
    var all := if AnyArrival(rest) then AllSeen(rest) else "";
    MetIsReady(l, chunk);
    StaleFires(l, chunk);
    assert l.conn.buf + (chunk + all) == seen + all;
    if Met(l, seen, resume) {
      MetStays(l, seen, all, resume);
    } else {
      var t := Deliver(l, chunk);
      if AnyArrival(rest) {
        MetResumes(l, t, seen, all, resume);
      } else {
        assert seen + all == seen;
      }
    }
  }

  /** For all that can happen before `end`: something more is emitted exactly when the condition
      of the handler that was left registered comes true. */
  lemma {:induction false} QuietUntilFired(l: Live, steps: seq<Step>)
    requires Sound(l) && !l.conn.status.Receiving?
    ensures TakeAll(l, steps).conn.log == l.conn.log <==> !Fires(l, steps)
    decreases |steps|
  {
    if steps != [] {
      if steps[0].Writes? {
        FiresAfterWrite(l, steps);
        QuietUntilFired(Write(l, steps[0].bytes), steps[1..]);
      } else {
        var t := Deliver(l, steps[0].bytes);
        if l.handler.On? {
          StaleFires(l, steps[0].bytes);
          FiresAfterEvent(l, steps);
          if Ready(Probe(Waiting(l, steps[0].bytes))) {
            TakeAllGrows(t, steps[1..]);
          } else {
            QuietUntilFired(t, steps[1..]);
          }
        } else {
          QuietUntilFired(t, steps[1..]);
        }
      }
    }
  }

  // ---- from the first byte of a request on ----

  lemma {:induction false} Deaf(l: Live, later: seq<string>)
    requires Sound(l) && l.handler.Off?
    ensures DeliverAll(l, later) == l
    decreases |later|
  {
    if later != [] {
      Deaf(l, later[1..]);
    }
  }

  lemma {:induction false} SettleClears(s: Conn)
    requires WellFormed(s) && LastValid(s) && (s.status.Processing? ==> s.buf == "")
    ensures Settle(s).status.Processing? ==> Settle(s).buf == ""
    decreases |s.buf|, s.status.Receiving?
  {
    if s.status.Receiving? && Ready(Probe(s)) {
      FireShrinks(Probe(s));
      SettleClears(Fire(Probe(s)));
    }
  }

  /** `process` leaves an empty buffer and a registered handler. */
  lemma {:induction false} ProcessLeaves(l: Live, chunks: seq<string>)
    requires Sound(l) && l.conn.status.Receiving? && InTime(l, chunks)
    ensures var t := DeliverAll(l, chunks);
      t.conn.status.Processing? ==> t.conn.buf == "" && t.handler.On? && CanBeStale(t.handler.wait)
    decreases |chunks|
  {
    if chunks != [] {
      var t := Deliver(l, chunks[0]);
      DeliverIsFeed(l, chunks[0]);
      AppendKeepsLast(l.conn, chunks[0]);
      SettleClears(l.conn.(buf := l.conn.buf + chunks[0]));
      if t.conn.status.Receiving? {
        ProcessLeaves(t, chunks[1..]);
      }
    }
  }

  /** The outcome of a request is emitted once and is the last event, whatever happens until
      `end` or `flush` and whatever arrives afterwards, exactly when the condition that was left
      registered does not come true before `end` or `flush`. */
  lemma {:induction false} OneOutcome(s: Conn, chunks: seq<string>, steps: seq<Step>, later: seq<string>)
    requires InTime(Fresh(s), chunks) && HasOutcome(ParseRequest(Flatten(chunks)))
    ensures var t := DeliverAll(Fresh(s), chunks); var events := ParseRequest(Flatten(chunks));
      && t.conn.log == s.log + events && OutcomeLast(events)
      && (t.conn.status.Processing? ==> t.conn.buf == "" && t.handler.On?)
      && (DeliverAll(Out(TakeAll(t, steps)), later).conn.log == t.conn.log <==> !Fires(t, steps))
      && (steps == [] ==> !Fires(t, steps))
  {
    LiveIsParse(s, chunks);
    OutcomeComesLast(Flatten(chunks));
    ProcessLeaves(Fresh(s), chunks);
    OutcomeTells(s, chunks);
    InTimeIsFeed(Fresh(s), chunks);
    var t := DeliverAll(Fresh(s), chunks);
    QuietUntilFired(t, steps);
    Deaf(Out(TakeAll(t, steps)), later);
  }

  // ---- which handler that is ----

  /** A request that has no body for its receiver, or one that is not multipart. */
  predicate IsPlain(env: Env) {
    "Content-Length" in env.header ==>
      "Content-Type" in env.header && !IsMultipart(env.header["Content-Type"])
  }

  /** What is left to wait for once the head is known and `rest` follows it. */
  function BodyWait(env: Env, rest: string): Option<Wait> {
    if "Content-Length" !in env.header then None
    else
      var length := ParseInt(env.header["Content-Length"]);
      if AtLeast(|rest|, length) then None else Some(Body(length))
  }

  lemma ProbeFromStart(s: Conn)
    requires WellFormed(s) && LastValid(s) && s.status.Receiving? && s.status.wait.Head?
    ensures var p := Probe(s); var c := Cut(s.buf, HEADER_DELIM);
      && (Ready(p) <==> c.Some?)
      && (Ready(p) ==> TokenEnd(p) == |c.value.piece| && c.value == Halves(s.buf[..TokenEnd(p)], s.buf[TokenEnd(p)..]))
  {
    var last := Stop(s.buf, HEADER_DELIM, s.status.last);
    assert IsStop(s.buf, HEADER_DELIM, 0, last);
    StopUnique(s.buf, HEADER_DELIM, 0, last);
    StopFindsFirst(s.buf, HEADER_DELIM, 0);
  }

  /** One event while the head is awaited, for a plain request. */
  lemma AtHead(l: Live, chunk: string)
    requires Sound(l) && l.conn.status.Receiving? && l.conn.status.wait.Head?
    requires var c := Cut(l.conn.buf + chunk, HEADER_DELIM); c.Some? ==> IsPlain(ParseHead(c.value.piece))
    ensures var c := Cut(l.conn.buf + chunk, HEADER_DELIM); var t := Deliver(l, chunk);
      match c
      case None => t.conn.status.Receiving? && t.conn.status.wait.Head? && t.conn.buf == l.conn.buf + chunk
      case Some(Halves(head, rest)) =>
        match BodyWait(ParseHead(head), rest)
        case None => t.conn.status.Processing? && t.handler == On(Head, |head| - |HEADER_DELIM|)
        case Some(w) => t.conn.status == Receiving(w, 0) && t.conn.buf == rest
  {
    DeliverIsFeed(l, chunk);
    AppendKeepsLast(l.conn, chunk);
    var s := l.conn.(buf := l.conn.buf + chunk);
    SameConn(Waiting(l, chunk), s);
    ProbeFromStart(s);
    var p := Probe(s);
    if Ready(p) {
      FireShrinks(p);
      AfterHead(p);
    }
  }

  /** The callback for the head of a plain request. */
  lemma AfterHead(p: Conn)
    requires WellFormed(p) && p.status.Receiving? && p.status.wait.Head? && Ready(p)
    requires IsPlain(ParseHead(p.buf[..TokenEnd(p)]))
    ensures WellFormed(Fire(p)) && LastValid(Fire(p))
    ensures var h := On(Head, p.status.last); var t := Fire(p); var rest := p.buf[TokenEnd(p)..];
      && Keepable(t, h)
      && match BodyWait(ParseHead(p.buf[..TokenEnd(p)]), rest)
         case None => Cascade(t, h).conn.status.Processing? && Cascade(t, h).handler == h
         case Some(w) => Cascade(t, h).conn == t.(status := Receiving(w, 0)) && t.buf == rest
  {
    FireShrinks(p);
    var h, t := On(Head, p.status.last), Fire(p);
    FireKeepable(p, h);
    if t.status.Receiving? && Ready(t) {
      assert Fire(t) == ProcessStep(Inside(t));
    }
  }

  /** Where a plain request stands that is not complete. */
  predicate StandsAt(c: Conn, stream: string) {
    c.status.Receiving? &&
    match Cut(stream, HEADER_DELIM)
    case None => c.status.wait.Head? && c.buf == stream
    case Some(Halves(head, rest)) =>
      c.status.last == 0 && BodyWait(ParseHead(head), rest) == Some(c.status.wait) && c.buf == rest
  }

  lemma {:induction false} BeforeTheLast(s: Conn, front: seq<string>)
    requires !HasOutcome(ParseRequest(Flatten(front)))
    requires var c := Cut(Flatten(front), HEADER_DELIM); c.Some? ==> IsPlain(ParseHead(c.value.piece))
    ensures InTime(Fresh(s), front)
    ensures StandsAt(DeliverAll(Fresh(s), front).conn, Flatten(front))
  {
    OutcomeTells(s, front);
    UpToTheOutcome(Fresh(s), front);
    InTimeIsFeed(Fresh(s), front);
    StartIsSettled(s);
    FeedChunks(Start(s), front);
    DeliverIsFeed(Fresh(s), Flatten(front));
    assert Start(s).buf + Flatten(front) == Flatten(front);
    AtHead(Fresh(s), Flatten(front));
  }

  /** Before `last` came the request was incomplete; with it, it is a plain request that consists
      of `head` and enough bytes of `rest`. */
  predicate CompletedBy(before: string, last: string, head: string, rest: string) {
    && !HasOutcome(ParseRequest(before))
    && Cut(before + last, HEADER_DELIM) == Some(Halves(head, rest)) && |head| >= |HEADER_DELIM|
    && IsPlain(ParseHead(head)) && BodyWait(ParseHead(head), rest).None?
  }

  /** The handler such a request leaves registered: the one that waited for its body, if the head
      was complete before the last event, otherwise the one that waited for its head. */
  function HandlerLeft(before: string, head: string): Handler
    requires |head| >= |HEADER_DELIM|
  {
    var header := ParseHead(head).header;
    if "Content-Length" in header && Contains(before, HEADER_DELIM) then On(Body(ParseInt(header["Content-Length"])), 0)
    else On(Head, |head| - |HEADER_DELIM|)
  }

  lemma CutBefore(before: string, last: string, head: string, rest: string)
    requires CompletedBy(before, last, head, rest)
    ensures var c := Cut(before, HEADER_DELIM);
      && (c.Some? <==> Contains(before, HEADER_DELIM))
      && (c.Some? ==> c.value.piece == head && rest == c.value.rest + last)
  {
    if Contains(before, HEADER_DELIM) {
      CutGrows(before, last, HEADER_DELIM);
    }
  }

  /** The event that brings the last of the announced bytes. */
  lemma BodyEnds(l: Live, chunk: string)
    requires Sound(l) && l.handler.On? && l.handler.wait.Body?
    requires AtLeast(|l.conn.buf + chunk|, l.handler.wait.length)
    ensures var t := Deliver(l, chunk);
      && t.conn == ProcessStep(l.conn.(status := Processing))
      && t.handler == l.handler
  {
    assert Ready(Probe(Waiting(l, chunk)));
    SameConn(Deliver(l, chunk).conn, ProcessStep(l.conn.(status := Processing)));
  }

  lemma LastEvent(l: Live, before: string, last: string, head: string, rest: string)
    requires Sound(l) && CompletedBy(before, last, head, rest) && StandsAt(l.conn, before)
    ensures var t := Deliver(l, last); t.conn.status.Processing? && t.handler == HandlerLeft(before, head)
  {
    CutBefore(before, last, head, rest);
    if l.conn.status.wait.Head? {
      AtHead(l, last);
    } else {
      BodyEnds(l, last);
    }
  }

  lemma {:induction false} LeavesHandler(s: Conn, front: seq<string>, last: string, head: string, rest: string)
    requires CompletedBy(Flatten(front), last, head, rest)
    ensures InTime(Fresh(s), front) && StandsAt(DeliverAll(Fresh(s), front).conn, Flatten(front))
    ensures var t := Deliver(DeliverAll(Fresh(s), front), last);
      t.conn.status.Processing? && t.handler == HandlerLeft(Flatten(front), head)
  {
    CutBefore(Flatten(front), last, head, rest);
    BeforeTheLast(s, front);
    LastEvent(DeliverAll(Fresh(s), front), Flatten(front), last, head, rest);
  }

  /** A request whose body came in a later event than its head is processed again when as many
      bytes as its body has arrive before `end`. */
  lemma {:induction false} ProcessedTwice(s: Conn, front: seq<string>, last: string, head: string, rest: string,
                                          more: string)
    requires CompletedBy(Flatten(front), last, head, rest)
    requires var h := HandlerLeft(Flatten(front), head); h.wait.Body? && AtLeast(|more|, h.wait.length)
    ensures InTime(Fresh(s), front)
    ensures Deliver(Deliver(DeliverAll(Fresh(s), front), last), more).conn.log
      == s.log + (ParseRequest(Flatten(front) + last) + [Process(ParseHead(head))])
  {
    Completed(s, front, last, head, rest);
    StaleBody(Deliver(DeliverAll(Fresh(s), front), last), more);
    LogSnoc(s.log, ParseRequest(Flatten(front) + last), Process(ParseHead(head)));
  }

  lemma LogSnoc(log: seq<Event>, tail: seq<Event>, e: Event)
    ensures (log + tail) + [e] == log + (tail + [e])
  {
  }

  /** A plain request is complete: what is emitted, and what is left. */
  lemma {:induction false} Completed(s: Conn, front: seq<string>, last: string, head: string, rest: string)
    requires CompletedBy(Flatten(front), last, head, rest)
    ensures InTime(Fresh(s), front)
    ensures var t := Deliver(DeliverAll(Fresh(s), front), last);
      && t.conn.status.Processing? && t.handler == HandlerLeft(Flatten(front), head)
      && t.conn.log == s.log + ParseRequest(Flatten(front) + last)
      && t.conn.env == ParseHead(head) && t.conn.buf == ""
  {
    LeavesHandler(s, front, last, head, rest);
    OneEvent(s, front, last);
  }

  lemma StaleBody(l: Live, chunk: string)
    requires Sound(l) && l.handler.On? && l.handler.wait.Body? && l.conn.buf == ""
    requires AtLeast(|chunk|, l.handler.wait.length)
    ensures Deliver(l, chunk).conn.log == l.conn.log + [Process(l.conn.env)]
  {
    BodyEnds(l, chunk);
  }

  lemma {:induction false} OneEvent(s: Conn, front: seq<string>, last: string)
    requires InTime(Fresh(s), front) && DeliverAll(Fresh(s), front).conn.status.Receiving?
    requires Cut(Flatten(front) + last, HEADER_DELIM).Some?
    ensures var t := Deliver(DeliverAll(Fresh(s), front), last);
      && t.conn.log == s.log + ParseRequest(Flatten(front) + last)
      && t.conn.env == ParseHead(Cut(Flatten(front) + last, HEADER_DELIM).value.piece)
      && (t.conn.status.Processing? ==> t.conn.buf == "")
  {
    InTimeIsFeed(Fresh(s), front);
    StartIsSettled(s);
    FeedChunks(Start(s), front);
    DeliverIsFeed(DeliverAll(Fresh(s), front), last);
    FeedTwice(Start(s), Flatten(front), last);
    var s0 := Start(s).(buf := Flatten(front) + last);
    assert Start(s).buf + (Flatten(front) + last) == s0.buf;
    SettleHead(s0);
    SettleReadsHead(s0);
    SettleClears(s0);
  }

  /** The response is written into the buffer that requests are read from. With the handler of a
      head left registered, any byte that arrives before `end` makes the client take its own
      response for the next request, if its empty line is not before `last`. */
  lemma OwnResponseIsRead(l: Live, response: string, chunk: string, p: nat)
    requires Sound(l) && l.conn.status.Processing? && l.handler.On? && l.handler.wait.Head? && l.conn.buf == ""
    requires IndexOf(response, HEADER_DELIM, l.handler.last) == Some(p)
    ensures l.conn.log + [HeadText(response[..p + |HEADER_DELIM|])]
      <= TakeAll(l, [Writes(response), Arrives(chunk)]).conn.log
  {
    WriteThenEvent(l, response, chunk);
    ResponseIsFound(Write(l, response), response, chunk, p);
    HeadAgain(Write(l, response), chunk, p);
    assert (response + chunk)[..p + |HEADER_DELIM|] == response[..p + |HEADER_DELIM|];
  }

  lemma ResponseIsFound(l: Live, response: string, chunk: string, p: nat)
    requires Sound(l) && l.handler.On? && l.handler.wait.Head? && l.conn.buf == "" + response
    requires IndexOf(response, HEADER_DELIM, l.handler.last) == Some(p)
    ensures var q := Probe(Waiting(l, chunk));
      q.status == Receiving(Head, p) && q.buf == response + chunk && p + |HEADER_DELIM| <= |response|
  {
    assert l.conn.buf == response;
    FoundWithMore(response, chunk, HEADER_DELIM, l.handler.last);
    ProbeIs(Waiting(l, chunk), p);
  }

  lemma HeadIsReady(q: Conn, p: nat)
    requires q.status == Receiving(Head, p) && p + |HEADER_DELIM| <= |q.buf|
    ensures Ready(q) && Again(q) == HeadText(q.buf[..p + |HEADER_DELIM|])
  {
  }

  lemma HeadAgain(l: Live, chunk: string, p: nat)
    requires Sound(l) && l.conn.status.Processing? && l.handler.On?
    requires var q := Probe(Waiting(l, chunk));
      q.status == Receiving(Head, p) && p + |HEADER_DELIM| <= |q.buf|
    ensures l.conn.log + [HeadText(Probe(Waiting(l, chunk)).buf[..p + |HEADER_DELIM|])] <= Deliver(l, chunk).conn.log
  {
    HeadIsReady(Probe(Waiting(l, chunk)), p);
    StaleFires(l, chunk);
  }

  lemma WriteThenEvent(l: Live, text: string, chunk: string)
    requires Sound(l)
    ensures TakeAll(l, [Writes(text), Arrives(chunk)]) == Deliver(Write(l, text), chunk)
  {
    var steps := [Writes(text), Arrives(chunk)];
    assert steps[1..] == [Arrives(chunk)] && steps[1..][1..] == [];
    assert TakeAll(Take(l, steps[0]), steps[1..]) == TakeAll(Take(Take(l, steps[0]), steps[1]), []);
  }

  /** What a search from `from` finds, it finds in a longer text. */
  lemma FoundWithMore(text: string, more: string, sep: string, from: nat)
    requires IndexOf(text, sep, from).Some?
    ensures var p := IndexOf(text, sep, from).value;
      && from <= |text + more| && Stop(text + more, sep, from) == p
      && (text + more)[..p + |sep|] == text[..p + |sep|]
  {
    StopFindsFirst(text, sep, from);
    FoundStays(text, more, sep, from);
  }

  // ---- the smallest example ----

  const POST := Request("POST", "/", "HTTP/1.1", [Field("Content-Type", "text/plain"), Field("Content-Length", "5")])

  lemma Absent(text: string, sep: string)
    requires sep != "" && sep[0] !in text
    ensures !Contains(text, sep)
  {
    FirstOccurrence(text, sep, 0);
  }

  lemma PostFields()
    ensures FieldMap(POST.fields) == map["Content-Type" := "text/plain", "Content-Length" := "5"]
  {
    var f := POST.fields;
    assert f[..1] == [f[0]] && f[..1][..0] == [];
  }

  lemma PostPieces()
    ensures !Contains(POST.verb, SPACE) && !Contains(POST.uri, SPACE)
    ensures PlainField(POST.fields[0]) && PlainField(POST.fields[1])
  {
    Absent("POST", SPACE);
    Absent("/", SPACE);
    Absent("Content-Type", COLON);
    Absent("text/plain", COLON);
    Absent("Content-Length", COLON);
    Absent("5", COLON);
  }

  lemma OneLine(a: string, b: string, c: string)
    requires '\r' !in a && '\r' !in b && '\r' !in c
    ensures !Contains(a + b + c, CRLF)
  {
    Absent(a + b + c, CRLF);
  }

  lemma PostLines()
    ensures !Contains(RequestLine(POST), CRLF)
    ensures !Contains(RenderField(POST.fields[0]), CRLF) && !Contains(RenderField(POST.fields[1]), CRLF)
  {
    OneLine("POST" + SPACE + "/", SPACE, "HTTP/1.1");
    OneLine("Content-Type", COLON, "text/plain");
    OneLine("Content-Length", COLON, "5");
  }

  lemma PostIsPlain()
    ensures PlainRequest(POST)
  {
    PostPieces();
    PostLines();
    var lines := Lines(POST);
    assert |lines| == 3 && lines[0] == RequestLine(POST);
    assert lines[1] == RenderField(POST.fields[0]) && lines[2] == RenderField(POST.fields[1]);
    forall i | 0 <= i < |lines| ensures !Contains(lines[i], CRLF) {
    }
  }

  /** Its head, then "hello". */
  lemma PostCompletes()
    ensures var head := RenderHead(POST);
      && CompletedBy(head, "hello", head, "hello")
      && ParseHead(head) == Env("POST", Some("/"), FieldMap(POST.fields))
      && HandlerLeft(head, head) == On(Body(Num(5)), 0)
      && ParseRequest(head + "hello") == [HeadText(head), Process(ParseHead(head))]
  {
    var head := RenderHead(POST);
    PostIsPlain();
    PostFields();
    ParseIntOfDecimal(5);
    assert Decimal(5) == "5";
    HeadFirst(POST, "");
    HeadFirst(POST, "hello");
    assert head + "" == head;
    assert ParseRequest(head) == [HeadText(head)];
  }

  /** Head, then "hello", then five more bytes before `end`: the user's callback runs twice. */
  lemma HelloTwice(s: Conn)
    ensures var head := RenderHead(POST); var env := Env("POST", Some("/"), FieldMap(POST.fields));
      DeliverAll(Fresh(s), [head, "hello", "again"]).conn.log == s.log + [HeadText(head), Process(env), Process(env)]
  {
    PostCompletes();
    var head := RenderHead(POST);
    assert Flatten([head]) == head;
    ProcessedTwice(s, [head], "hello", head, "hello", "again");
    ThreeEvents(Fresh(s), head, "hello", "again");
  }

  lemma ThreeEvents(l: Live, a: string, b: string, c: string)
    requires Sound(l)
    ensures DeliverAll(l, [a, b, c]) == Deliver(Deliver(DeliverAll(l, [a]), b), c)
  {
    var t := Deliver(l, a);
    assert [a][1..] == [] && [c][1..] == [] && [b, c][1..] == [c] && [a, b, c][1..] == [b, c];
    assert DeliverAll(l, [a]) == DeliverAll(t, []) == t;
    assert DeliverAll(Deliver(t, b), [c]) == DeliverAll(Deliver(Deliver(t, b), c), []);
    assert DeliverAll(t, [b, c]) == DeliverAll(Deliver(t, b), [c]);
  }
}