/** The receive machine of `Client` in coffee/net/http.coffee, as a function on values, from the
    head of a request to its outcome.
    A closure handed to `readToken` or `readSize` becomes a `Wait`; the position `readToken`
    keeps between readable events becomes `last`. */
module HttpReceive {
  import opened Search
  import opened Text
  import opened HttpHead
  import opened HeaderValues

  /** What the connection waits for. `Body` and `Pair` wait for a size, the others for a token. */
  datatype Wait = Head | Body(length: Number) | Boundary | Pair | PartHead | Tail

  datatype Status =
    | Receiving(wait: Wait, last: nat)
    | Processing
    | Closed
    | Threw

  /** `HeadText`: a head was parsed. `PartText`: a part header was printed. `Process`: the user's
      callback ran. `Close`: the client closed the connection. `Throw`: a missing Content-Type. */
  datatype Event = HeadText(text: string) | PartText(text: string) | Process(env: Env) | Close | Throw

  /** A connection. `buf` holds the bytes received and not consumed; `process` clears it. */
  datatype Conn = Conn(
    buf: string, status: Status, env: Env, isClosed: bool, boundary: string, log: seq<Event>)

  predicate IsToken(w: Wait) { !w.Body? && !w.Pair? }

  predicate InMultipart(w: Wait) { w.Boundary? || w.Pair? || w.PartHead? || w.Tail? }

  function Delim(s: Conn): (d: string)
    requires s.status.Receiving? && IsToken(s.status.wait)
    ensures WellFormed(s) ==> |d| >= 2
  {
    match s.status.wait
    case Boundary => s.boundary
    case Tail => CRLF
    case _ => HEADER_DELIM
  }

  /** A boundary always starts with the two dashes the client wrote. */
  predicate WellFormed(s: Conn) {
    s.status.Receiving? && InMultipart(s.status.wait) ==> |s.boundary| >= 2
  }

  /** What `last` promises: no delimiter starts before it. */
  ghost predicate LastValid(s: Conn) {
    s.status.Receiving? && IsToken(s.status.wait) ==>
      s.status.last <= |s.buf| && Skipped(s.buf, Delim(s), 0, s.status.last)
  }

  /** The condition of `readUntil`, first half: move `last` on. */
  ghost function Probe(s: Conn): Conn
    requires s.status.Receiving? && (IsToken(s.status.wait) ==> s.status.last <= |s.buf|)
  {
    if IsToken(s.status.wait)
    then s.(status := s.status.(last := Stop(s.buf, Delim(s), s.status.last)))
    else s
  }

  lemma ProbeIs(s: Conn, last: nat)
    requires s.status.Receiving? && IsToken(s.status.wait) && s.status.last <= |s.buf|
    requires last == Stop(s.buf, Delim(s), s.status.last)
    ensures Probe(s) == s.(status := Receiving(s.status.wait, last))
  {
  }

  /** The condition of `readUntil`, second half. */
  predicate Ready(s: Conn)
    requires s.status.Receiving?
  {
    match s.status.wait
    case Body(length) => AtLeast(|s.buf|, length)
    case Pair => |s.buf| >= 2
    case _ => TokenEnd(s) <= |s.buf|
  }

  // ---- the callbacks ----

  /** `process`: the buffer is cleared and the user's callback runs. */
  function ProcessStep(s: Conn): Conn {
    s.(buf := "", status := Processing, log := s.log + [Process(s.env)])
  }

  function WaitFor(s: Conn, w: Wait): Conn { s.(status := Receiving(w, 0)) }

  /** `recvBody`. */
  function BodyStep(s: Conn, length: Number): Conn {
    var header := s.env.header;
    if "Content-Type" !in header then s.(buf := "", status := Threw, log := s.log + [Throw])
    else if !IsMultipart(header["Content-Type"]) then WaitFor(s, Body(length))
    else match BoundaryOf(header["Content-Type"])
      case None => s.(buf := "", status := Closed, log := s.log + [Close])
      case Some(b) => WaitFor(s.(boundary := "--" + b), Boundary)
  }

  /** `n` bytes are taken as the head and parsed. */
  function TakeHead(s: Conn, n: nat): Conn
    requires n <= |s.buf|
  {
    var env := ParseHead(s.buf[..n]);
    s.(buf := s.buf[n..], env := env, isClosed := !KeepAlive(env.header), log := s.log + [HeadText(s.buf[..n])])
  }

  /** What the head says comes next. */
  function HeadNext(s: Conn): Conn {
    if "Content-Length" in s.env.header
    then BodyStep(s, ParseInt(s.env.header["Content-Length"]))
    else ProcessStep(s)
  }

  /** The callback of `recvHeader`. */
  function HeadStep(s: Conn, n: nat): Conn
    requires n <= |s.buf|
  {
    HeadNext(TakeHead(s, n))
  }

  function BoundaryStep(s: Conn, n: nat): Conn
    requires n <= |s.buf|
  {
    WaitFor(s.(buf := s.buf[n..]), Pair)
  }

  function PairStep(s: Conn): Conn
    requires |s.buf| >= 2
  {
    WaitFor(s.(buf := s.buf[2..]), if s.buf[..2] == CRLF then PartHead else Tail)
  }

  function PartStep(s: Conn, n: nat): Conn
    requires n <= |s.buf|
  {
    WaitFor(s.(buf := s.buf[n..], log := s.log + [PartText(s.buf[..n])]), Boundary)
  }

  /** Inside a callback nothing is waited for. */
  function Inside(s: Conn): Conn { s.(status := Processing) }

  /** Where the awaited token ends. */
  function TokenEnd(s: Conn): nat
    requires s.status.Receiving? && IsToken(s.status.wait)
  {
    s.status.last + |Delim(s)|
  }

  /** The callback that the wait in `s` was registered with. */
  function Fire(s: Conn): Conn
    requires s.status.Receiving? && Ready(s)
  {
    match s.status.wait
    case Head => HeadStep(Inside(s), TokenEnd(s))
    case Body(_) => ProcessStep(Inside(s))
    case Boundary => BoundaryStep(Inside(s), TokenEnd(s))
    case Pair => PairStep(Inside(s))
    case PartHead => PartStep(Inside(s), TokenEnd(s))
    case Tail => ProcessStep(Inside(s))
  }

  /** `recvBody` consumes nothing, and ends receiving or waits with a proper boundary. */
  lemma BodyShape(s: Conn, length: Number)
    ensures var t := BodyStep(s, length);
      WellFormed(t) && LastValid(t) && |t.buf| <= |s.buf| && s.log <= t.log
  {
  }

  /** Every callback either ends receiving or consumes at least two bytes, so the cascade set
      off by one readable event terminates. */
  lemma {:induction false} FireShrinks(s: Conn)
    requires WellFormed(s) && s.status.Receiving? && Ready(s)
    ensures var t := Fire(s);
      && WellFormed(t) && LastValid(t)
      && (t.status.Receiving? ==> |t.buf| + 2 <= |s.buf|)
      && |t.buf| <= |s.buf|
      && s.log <= t.log
  {
    if s.status.wait.Head? {
      var s1 := TakeHead(Inside(s), TokenEnd(s));
      if "Content-Length" in s1.env.header {
        BodyShape(s1, ParseInt(s1.env.header["Content-Length"]));
      }
    }
  }

  /** The cascade: run callbacks as long as the condition of the current wait holds. */
  ghost function Settle(s: Conn): (t: Conn)
    requires WellFormed(s) && LastValid(s)
    ensures WellFormed(t) && LastValid(t)
    ensures t.status.Receiving? ==> Probe(t) == t && !Ready(t)
    decreases |s.buf|, s.status.Receiving?
  {
    if !s.status.Receiving? then s
    else
      var p := Probe(s);
      if Ready(p) then FireShrinks(p); Settle(Fire(p)) else p
  }

  /** One readable event that delivers `chunk`, up to the outcome of the request. What the handler
      that is left registered does with bytes that come later is the subject of `HttpLive`. */
  ghost function Feed(s: Conn, chunk: string): (t: Conn)
    requires WellFormed(s) && LastValid(s)
    ensures WellFormed(t) && LastValid(t)
  {
    if s.status.Receiving? then
      assert LastValid(s.(buf := s.buf + chunk)) by {
        if IsToken(s.status.wait) {
          SkippedStays(s.buf, chunk, Delim(s), 0, s.status.last);
        }
      }
      Settle(s.(buf := s.buf + chunk))
    else s
  }

  ghost function FeedAll(s: Conn, chunks: seq<string>): (t: Conn)
    requires WellFormed(s) && LastValid(s)
    ensures WellFormed(t) && LastValid(t)
    decreases |chunks|
  {
    if chunks == [] then s else FeedAll(Feed(s, chunks[0]), chunks[1..])
  }

  /** `start`, then the first check of the condition on an empty buffer. */
  function Start(s: Conn): Conn { WaitFor(s.(buf := ""), Head) }

  /** The callback of `end`, once the response is written: close, or start over. */
  function Responded(s: Conn): Conn {
    if s.isClosed then s.(buf := "", status := Closed, log := s.log + [Close]) else Start(s)
  }

  // ---- independence of the way the stream is cut ----

  /** The same connection with more bytes in its buffer; a connection that is no longer
      receiving takes none. */
  function Grow(s: Conn, more: string): Conn {
    if s.status.Receiving? then s.(buf := s.buf + more) else s
  }

  lemma BodyAppend(s: Conn, length: Number, more: string)
    ensures BodyStep(s.(buf := s.buf + more), length) == Grow(BodyStep(s, length), more)
  {
  }

  lemma HeadAppend(s: Conn, n: nat, more: string)
    requires n <= |s.buf|
    ensures HeadStep(s.(buf := s.buf + more), n) == Grow(HeadStep(s, n), more)
  {
    assert (s.buf + more)[..n] == s.buf[..n];
    assert (s.buf + more)[n..] == s.buf[n..] + more;
    var s1 := TakeHead(s, n);
    assert TakeHead(s.(buf := s.buf + more), n) == s1.(buf := s1.buf + more);
    if "Content-Length" in s1.env.header {
      BodyAppend(s1, ParseInt(s1.env.header["Content-Length"]), more);
    }
  }

  lemma TokenAppend(s: Conn, n: nat, more: string)
    requires n <= |s.buf|
    ensures BoundaryStep(s.(buf := s.buf + more), n) == Grow(BoundaryStep(s, n), more)
    ensures PartStep(s.(buf := s.buf + more), n) == Grow(PartStep(s, n), more)
    ensures n == 2 ==> PairStep(s.(buf := s.buf + more)) == Grow(PairStep(s), more)
  {
    assert (s.buf + more)[..n] == s.buf[..n];
    assert (s.buf + more)[n..] == s.buf[n..] + more;
  }

  /** A callback that is due does not look at bytes past what it waited for. */
  lemma FireAppend(s: Conn, more: string)
    requires s.status.Receiving? && Ready(s)
    ensures Ready(s.(buf := s.buf + more))
    ensures Fire(s.(buf := s.buf + more)) == Grow(Fire(s), more)
  {
    var w, t := s.status.wait, s.(buf := s.buf + more);
    assert Inside(t) == Inside(s).(buf := s.buf + more) && t.status == s.status;
    if IsToken(w) {
      assert Delim(t) == Delim(s) && TokenEnd(t) == TokenEnd(s);
      if w.Head? {
        HeadAppend(Inside(s), TokenEnd(s), more);
      } else {
        TokenAppend(Inside(s), TokenEnd(s), more);
      }
    } else if w.Pair? {
      TokenAppend(Inside(s), 2, more);
    }
  }

  lemma AppendKeepsLast(s: Conn, more: string)
    requires LastValid(s)
    ensures LastValid(s.(buf := s.buf + more))
  {
    if s.status.Receiving? && IsToken(s.status.wait) {
      SkippedStays(s.buf, more, Delim(s), 0, s.status.last);
    }
  }

  lemma ProbeKeepsLast(s: Conn)
    requires s.status.Receiving? && LastValid(s)
    ensures LastValid(Probe(s))
  {
    if IsToken(s.status.wait) {
      var last, d := s.status.last, Delim(s);
      assert IsStop(s.buf, d, last, Stop(s.buf, d, last));
      assert Delim(Probe(s)) == d;
    }
  }

  /** Checking the condition early is harmless: the position kept in `last` only saves work. */
  lemma ProbeAppend(s: Conn, more: string)
    requires WellFormed(s) && LastValid(s) && s.status.Receiving?
    ensures LastValid(s.(buf := s.buf + more)) && LastValid(Probe(s)) && LastValid(Probe(s).(buf := s.buf + more))
    ensures Probe(s.(buf := s.buf + more)) == Probe(Probe(s).(buf := s.buf + more))
    ensures Ready(Probe(s)) ==> Probe(s.(buf := s.buf + more)) == Probe(s).(buf := s.buf + more)
  {
    var p := Probe(s);
    AppendKeepsLast(s, more);
    ProbeKeepsLast(s);
    AppendKeepsLast(p, more);
    if IsToken(s.status.wait) {
      var d := Delim(s);
      assert Delim(p) == d && Delim(s.(buf := s.buf + more)) == d && Delim(p.(buf := s.buf + more)) == d;
      ResumeIsRestart(s.buf, more, d, s.status.last);
      if Ready(p) {
        FoundStays(s.buf, more, d, s.status.last);
      }
    }
  }

  /** Bytes may arrive before or after the cascade they do not belong to. */
  lemma {:induction false} SettleAppend(s: Conn, more: string)
    requires WellFormed(s) && LastValid(s) && s.status.Receiving?
    ensures LastValid(s.(buf := s.buf + more))
    ensures Settle(s.(buf := s.buf + more)) == Feed(Settle(s), more)
    decreases |s.buf|
  {
    var p := Probe(s);
    ProbeAppend(s, more);
    if Ready(p) {
      FireShrinks(p);
      FireAppend(p, more);
      if Fire(p).status.Receiving? {
        SettleAppend(Fire(p), more);
      }
    }
  }

  lemma SameConn(a: Conn, b: Conn)
    requires a.buf == b.buf && a.status == b.status && a.env == b.env
    requires a.isClosed == b.isClosed && a.boundary == b.boundary && a.log == b.log
    ensures a == b
  {
  }

  /** Two readable events are as good as one. */
  lemma {:induction false} FeedTwice(s: Conn, a: string, b: string)
    requires WellFormed(s) && LastValid(s)
    ensures Feed(Feed(s, a), b) == Feed(s, a + b)
  {
    if s.status.Receiving? {
      AppendKeepsLast(s, a);
      var s1, s2 := s.(buf := s.buf + a), s.(buf := s.buf + (a + b));
      assert (s.buf + a) + b == s.buf + (a + b);
      SameConn(s1.(buf := s1.buf + b), s2);
      SettleAppend(s1, b);
    }
  }

  ghost predicate Settled(s: Conn)
    requires WellFormed(s) && LastValid(s)
  {
    s.status.Receiving? ==> Probe(s) == s && !Ready(s)
  }

  lemma {:induction false} FeedChunks(s: Conn, chunks: seq<string>)
    requires WellFormed(s) && LastValid(s) && Settled(s)
    ensures FeedAll(s, chunks) == Feed(s, Flatten(chunks))
    decreases |chunks|
  {
    if chunks == [] {
      assert s.buf + "" == s.buf;
    } else {
      FeedChunks(Feed(s, chunks[0]), chunks[1..]);
      FeedTwice(s, chunks[0], Flatten(chunks[1..]));
    }
  }
}
