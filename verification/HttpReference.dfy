/** What a request means, read straight off the whole stream, and the proof that the receive
    machine, which stops at the outcome, computes just that from any fragmentation of it. */
module HttpReference {
  import opened Search
  import opened Text
  import opened HttpHead
  import opened HeaderValues
  import opened HttpReceive

  /** After the preamble or a part's content: the boundary, then either a line end and another
      part header, or two other bytes and the rest of the closing line. */
  function ParseParts(env: Env, boundary: string, stream: string): seq<Event>
    requires boundary != ""
    decreases |stream|
  {
    match Cut(stream, boundary)
    case None => []
    case Some(Halves(_, rest)) =>
      if |rest| < 2 then []
      else if rest[..2] == CRLF then
        match Cut(rest[2..], HEADER_DELIM)
        case None => []
        case Some(Halves(head, more)) => [PartText(head)] + ParseParts(env, boundary, more)
      else if Cut(rest[2..], CRLF).Some? then [Process(env)]
      else []
  }

  function ParseBody(env: Env, length: Number, stream: string): seq<Event> {
    if "Content-Type" !in env.header then [Throw]
    else if !IsMultipart(env.header["Content-Type"]) then
      if AtLeast(|stream|, length) then [Process(env)] else []
    else
      match BoundaryOf(env.header["Content-Type"])
      case None => [Close]
      case Some(b) => ParseParts(env, "--" + b, stream)
  }

  /** The events of one request. */
  function ParseRequest(stream: string): seq<Event> {
    match Cut(stream, HEADER_DELIM)
    case None => []
    case Some(Halves(head, rest)) =>
      var env := ParseHead(head);
      [HeadText(head)] +
      if "Content-Length" in env.header
      then ParseBody(env, ParseInt(env.header["Content-Length"]), rest)
      else [Process(env)]
  }

  // ---- the machine computes it ----

  lemma TokenCut(s: Conn)
    requires WellFormed(s) && s.status.Receiving? && IsToken(s.status.wait) && s.status.last == 0
    ensures var p := Probe(s); var c := Cut(s.buf, Delim(s));
      && (Ready(p) <==> c.Some?)
      && (Ready(p) ==>
            var n := p.status.last + |Delim(p)|;
            n <= |s.buf| && c.value == Halves(s.buf[..n], s.buf[n..]))
  {
    assert Delim(Probe(s)) == Delim(s);
    StopFindsFirst(s.buf, Delim(s), 0);
  }

  /** One step of the cascade. */
  lemma {:induction false} SettleStep(s: Conn)
    requires WellFormed(s) && LastValid(s) && s.status.Receiving?
    ensures Ready(Probe(s)) ==>
      WellFormed(Fire(Probe(s))) && LastValid(Fire(Probe(s))) && Settle(s) == Settle(Fire(Probe(s)))
    ensures !Ready(Probe(s)) ==> Settle(s).log == s.log
  {
    if Ready(Probe(s)) {
      FireShrinks(Probe(s));
    }
  }

  lemma SettleTail(s: Conn)
    requires WellFormed(s) && s.status == Receiving(Tail, 0)
    ensures Settle(s).log == s.log + if Cut(s.buf, CRLF).Some? then [Process(s.env)] else []
  {
    TokenCut(s);
    SettleStep(s);
  }

  lemma {:induction false} SettleParts(s: Conn)
    requires WellFormed(s) && s.status == Receiving(Boundary, 0)
    ensures Settle(s).log == s.log + ParseParts(s.env, s.boundary, s.buf)
    decreases |s.buf|
  {
    TokenCut(s);
    SettleStep(s);
    if Ready(Probe(s)) {
      var s1 := Fire(Probe(s));
      SettleStep(s1);
      if Ready(s1) {
        var s2 := Fire(s1);
        if s2.status.wait == Tail {
          SettleTail(s2);
        } else {
          SettlePartHead(s2);
        }
      }
    }
  }

  lemma {:induction false} SettlePartHead(s: Conn)
    requires WellFormed(s) && s.status == Receiving(PartHead, 0)
    ensures Settle(s).log == s.log +
      match Cut(s.buf, HEADER_DELIM)
      case None => []
      case Some(Halves(head, more)) => [PartText(head)] + ParseParts(s.env, s.boundary, more)
    decreases |s.buf|
  {
    TokenCut(s);
    SettleStep(s);
    if Ready(Probe(s)) {
      var t := Fire(Probe(s));
      SettleParts(t);
      LogCons(s.log, t.log[|s.log|], ParseParts(s.env, s.boundary, t.buf));
    }
  }

  lemma LogCons(log: seq<Event>, e: Event, tail: seq<Event>)
    ensures (log + [e]) + tail == log + ([e] + tail)
  {
  }

  lemma SettleBody(s: Conn, length: Number)
    ensures WellFormed(BodyStep(s, length)) && LastValid(BodyStep(s, length))
    ensures Settle(BodyStep(s, length)).log == s.log + ParseBody(s.env, length, s.buf)
  {
    var t := BodyStep(s, length);
    if t.status.Receiving? {
      if t.status.wait.Boundary? {
        SettleParts(t);
      } else {
        SettleStep(t);
      }
    }
  }

  lemma {:induction false} SettleHeadStep(s: Conn, n: nat)
    requires n <= |s.buf|
    ensures var t := HeadStep(s, n); var env := ParseHead(s.buf[..n]);
      && WellFormed(t) && LastValid(t)
      && Settle(t).log == s.log + ([HeadText(s.buf[..n])] +
           if "Content-Length" in env.header
           then ParseBody(env, ParseInt(env.header["Content-Length"]), s.buf[n..])
           else [Process(env)])
  {
    var s1 := TakeHead(s, n);
    if "Content-Length" in s1.env.header {
      var length := ParseInt(s1.env.header["Content-Length"]);
      SettleBody(s1, length);
      LogCons(s.log, HeadText(s.buf[..n]), ParseBody(s1.env, length, s1.buf));
    } else {
      LogCons(s.log, HeadText(s.buf[..n]), [Process(s1.env)]);
    }
  }

  /** After the head, nothing touches what was read from it. */
  lemma {:induction false} SettleKeepsHead(s: Conn)
    requires WellFormed(s) && LastValid(s) && (s.status.Receiving? ==> s.status.wait != Head)
    ensures Settle(s).env == s.env && Settle(s).isClosed == s.isClosed
    decreases |s.buf|, s.status.Receiving?
  {
    if s.status.Receiving? {
      SettleStep(s);
      if Ready(Probe(s)) {
        FireShrinks(Probe(s));
        SettleKeepsHead(Fire(Probe(s)));
      }
    }
  }

  /** What the head of a stream says about the connection. */
  ghost predicate HeadRead(s: Conn, stream: string) {
    match Cut(stream, HEADER_DELIM)
    case None => true
    case Some(Halves(head, _)) =>
      s.env == ParseHead(head) && s.isClosed == !KeepAlive(ParseHead(head).header)
  }

  lemma {:induction false} SettleHead(s: Conn)
    requires s.status == Receiving(Head, 0)
    ensures Settle(s).log == s.log + ParseRequest(s.buf)
  {
    TokenCut(s);
    SettleStep(s);
    var p := Probe(s);
    if Ready(p) {
      SettleHeadStep(Inside(p), TokenEnd(p));
    }
  }

  lemma {:induction false} SettleReadsHead(s: Conn)
    requires s.status == Receiving(Head, 0)
    ensures HeadRead(Settle(s), s.buf)
  {
    TokenCut(s);
    SettleStep(s);
    var p := Probe(s);
    if Ready(p) {
      var t := HeadStep(Inside(p), TokenEnd(p));
      HeadStepReads(Inside(p), TokenEnd(p));
      SettleKeepsHead(t);
    }
  }

  lemma HeadStepReads(s: Conn, n: nat)
    requires n <= |s.buf|
    ensures var t := HeadStep(s, n); var env := ParseHead(s.buf[..n]);
      && WellFormed(t) && LastValid(t) && (t.status.Receiving? ==> t.status.wait != Head)
      && t.env == env && t.isClosed == !KeepAlive(env.header)
  {
    var s1 := TakeHead(s, n);
    if "Content-Length" in s1.env.header {
      BodyShape(s1, ParseInt(s1.env.header["Content-Length"]));
    }
  }

  lemma StartIsSettled(s: Conn)
    ensures WellFormed(Start(s)) && LastValid(Start(s)) && Settled(Start(s))
  {
  }

  /** However the stream is cut, the events are those of the stream itself, and so is what is
      known of the request. */
  lemma {:induction false} ReceiveIsParse(s: Conn, chunks: seq<string>)
    ensures WellFormed(Start(s)) && LastValid(Start(s))
    ensures FeedAll(Start(s), chunks).log == s.log + ParseRequest(Flatten(chunks))
    ensures HeadRead(FeedAll(Start(s), chunks), Flatten(chunks))
  {
    var s0 := Start(s);
    StartIsSettled(s);
    FeedChunks(s0, chunks);
    assert s0.buf + Flatten(chunks) == Flatten(chunks);
    SettleHead(s0.(buf := Flatten(chunks)));
    SettleReadsHead(s0.(buf := Flatten(chunks)));
  }

  // ---- at most one outcome, and it is last ----

  predicate IsOutcome(e: Event) { e.Process? || e.Close? || e.Throw? }

  predicate OutcomeLast(log: seq<Event>) {
    forall i :: 0 <= i < |log| - 1 ==> !IsOutcome(log[i])
  }

  lemma {:induction false} OutcomeStaysLast(e: Event, tail: seq<Event>)
    requires !IsOutcome(e) && OutcomeLast(tail)
    ensures OutcomeLast([e] + tail)
  {
    assert forall i :: 1 <= i < 1 + |tail| ==> ([e] + tail)[i] == tail[i - 1];
  }

  lemma {:induction false} PartsOutcomeLast(env: Env, boundary: string, stream: string)
    requires boundary != ""
    ensures OutcomeLast(ParseParts(env, boundary, stream))
    decreases |stream|
  {
    match Cut(stream, boundary)
    case None =>
    case Some(Halves(_, rest)) =>
      if |rest| >= 2 && rest[..2] == CRLF {
        match Cut(rest[2..], HEADER_DELIM)
        case None =>
        case Some(Halves(head, more)) =>
          PartsOutcomeLast(env, boundary, more);
          OutcomeStaysLast(PartText(head), ParseParts(env, boundary, more));
      }
  }

  /** A stream means at most one outcome, and nothing after it. */
  lemma {:induction false} OutcomeComesLast(stream: string)
    ensures OutcomeLast(ParseRequest(stream))
  {
    match Cut(stream, HEADER_DELIM)
    case None =>
    case Some(Halves(head, rest)) =>
      var env := ParseHead(head);
      if "Content-Length" in env.header && "Content-Type" in env.header {
        var boundary := BoundaryOf(env.header["Content-Type"]);
        if boundary.Some? {
          PartsOutcomeLast(env, "--" + boundary.value, rest);
        }
        OutcomeStaysLast(HeadText(head), ParseBody(env, ParseInt(env.header["Content-Length"]), rest));
      }
  }
}
