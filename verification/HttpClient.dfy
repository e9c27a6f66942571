/** `Client` of coffee/net/http.coffee: the object whose methods and callbacks receive a
    request. A callback is named by the `Wait` it was registered for, and `last` is the
    position that the condition of `readToken` keeps. */
module HttpClient {
  import opened Search
  import opened Buffers
  import opened SocketRead
  import opened HttpHead
  import opened HeaderValues
  import opened HttpReceive
  import opened HttpLive

  datatype Phase = InReceive | InProcess | AtClosed | AtThrew

  /** A delimiter buffer is given by its bytes: the two static ones never change, and the
      boundary buffer is written once, when it is made. */
  class Client {
    const headerDelim := HEADER_DELIM
    const boundaryDelim := CRLF
    const buffer: Buffer
    var boundary: string
    var req: Env
    var isClosed: bool
    var contentLength: Number
    // What `$in` has registered, as long as `$out` and `$del` have not been called since.
    var listening: bool
    var waiting: Wait
    var last: nat
    // What the outside sees: printed part headers, the user's callback, the close.
    var phase: Phase
    var log: seq<Event>

    /** The connection inside a callback. */
    ghost function View(): Conn
      reads `req, `isClosed, `boundary, `log, buffer`content
    {
      Conn(buffer.content, Processing, req, isClosed, boundary, log)
    }

    ghost function Registration(): Handler
      reads `listening, `waiting, `last
    {
      if listening then On(waiting, last) else Off
    }

    /** The connection as the machine sees it. */
    ghost function Abs(): Live
      reads `req, `isClosed, `boundary, `log, `phase, `listening, `waiting, `last, buffer`content
    {
      Live(match phase
        case InReceive => View().(status := Receiving(waiting, last))
        case InProcess => View()
        case AtClosed => View().(buf := "", status := Closed)
        case AtThrew => View().(buf := "", status := Threw), Registration())
    }

    ghost predicate Valid()
      reads this, buffer, buffer.data
    {
      buffer.Valid() && Sound(Abs())
    }

    /** A callback may go on as the machine does from `t`. */
    ghost predicate MayGoOn(t: Conn)
      reads this
    {
      WellFormed(t) && LastValid(t) && Keepable(t, Registration())
    }

    constructor (buffer: Buffer)
      requires buffer.Valid()
      ensures Valid() && phase == InProcess && !listening && log == []
      ensures this.buffer == buffer
    {
      this.buffer := buffer;
      boundary := "";
      req, isClosed := Env("", None, map[]), true;
      phase, listening, waiting, last, contentLength := InProcess, false, Head, 0, NaN;
      log := [];
    }

    method ClearBuffer()
      requires buffer.Valid()
      modifies buffer`cursor, buffer`size, buffer`used, buffer`content
      ensures buffer.Valid() && View() == old(View()).(buf := "")
    {
      ghost var v := View();
      buffer.Clear();
      SameConn(View(), v.(buf := ""));
    }

    /** `process`. What is registered stays registered. */
    method Process()
      requires buffer.Valid()
      modifies this`phase, this`log, buffer`cursor, buffer`size, buffer`used, buffer`content
      ensures buffer.Valid() && Abs() == Live(ProcessStep(old(View())), old(Registration()))
    {
      ghost var t := ProcessStep(View());
      ClearBuffer();
      phase := InProcess;
      log := log + [Event.Process(req)];
      SameConn(View(), t);
    }

    /** The delimiter that is waited for. */
    function Awaited(): (deli: string)
      reads `waiting, `boundary
    {
      match waiting
      case Boundary => boundary
      case Tail => boundaryDelim
      case _ => headerDelim
    }

    /** The condition of `readToken`, on a connection that waits as `s` does. */
    method Condition(ghost s: Conn) returns (found: bool)
      requires buffer.Valid() && IsToken(waiting) && Awaited() != ""
      requires s.buf == buffer.content && s.boundary == boundary
      requires s.status == Receiving(waiting, Min(last, buffer.size))
      modifies this`last
      ensures Probe(s) == s.(status := Receiving(waiting, last))
      ensures found <==> Ready(Probe(s))
    {
      assert Awaited() == Delim(s);
      var pos, met, _, _ := TokenCondition(buffer, Awaited(), last);
      ProbeIs(s, pos);
      last, found := pos, met;
    }

    // ---- waiting ----

    /** Install the condition with `last` at zero, and test it. */
    method Register(w: Wait) returns (found: bool)
      requires buffer.Valid() && IsToken(w) && MayGoOn(WaitFor(View(), w))
      modifies this`waiting, this`last, this`listening, this`phase
      ensures View() == old(View()) && listening && phase == InReceive && waiting == w
      ensures var t := WaitFor(View(), w);
        && WellFormed(t) && LastValid(t)
        && View().(status := Receiving(waiting, last)) == Probe(t)
        && (found <==> Ready(Probe(t)))
    {
      ghost var t := WaitFor(View(), w);
      waiting, last, listening, phase := w, 0, true, InReceive;
      assert Awaited() == Delim(t);
      found := Condition(t);
      SameConn(View().(status := Receiving(waiting, last)), Probe(t));
    }

    /** `Socket.readToken @fd, @buffer, deli, callback`: register, and call back at once if the
        condition holds. */
    method ReadToken(w: Wait)
      requires buffer.Valid() && IsToken(w) && MayGoOn(WaitFor(View(), w))
      modifies this, buffer`cursor, buffer`size, buffer`used, buffer`content
      ensures Valid()
      ensures var t, h := WaitFor(old(View()), w), old(Registration());
        WellFormed(t) && LastValid(t) && Keepable(t, h) && Abs() == Cascade(t, h)
      decreases buffer.size, 3
    {
      ghost var t, h := WaitFor(View(), w), Registration();
      var found := Register(w);
      CascadeStep(t, h);
      if found {
        Callback();
      }
    }

    /** `Socket.readSize`: call back at once if the bytes are there, otherwise wait for them. */
    method ReadSize(w: Wait)
      requires buffer.Valid() && !IsToken(w) && MayGoOn(WaitFor(View(), w))
      modifies this, buffer`cursor, buffer`size, buffer`used, buffer`content
      ensures Valid()
      ensures var t, h := WaitFor(old(View()), w), old(Registration());
        WellFormed(t) && LastValid(t) && Keepable(t, h) && Abs() == Cascade(t, h)
      decreases buffer.size, 3
    {
      ghost var t, h := WaitFor(View(), w), Registration();
      var enough := if w.Body? then AtLeast(buffer.size, w.length) else buffer.size >= 2;
      if enough {
        FireShrinks(t);
        FireKeepable(t, h);
        if w.Body? {
          Process();
        } else {
          PairReceived();
        }
      } else {
        waiting, last, listening, phase := w, 0, true, InReceive;
        SameConn(Abs().conn, t);
      }
    }

    /** Run the callback of the handler that is registered; its condition just held. */
    method Callback()
      requires buffer.Valid() && listening
      requires var p := View().(status := Receiving(waiting, last));
        WellFormed(p) && Ready(p) && Keepable(p, Registration())
      modifies this, buffer`cursor, buffer`size, buffer`used, buffer`content
      ensures Valid()
      ensures var t, h := Fire(old(View().(status := Receiving(waiting, last)))), old(Registration());
        WellFormed(t) && LastValid(t) && Keepable(t, h) && Abs() == Cascade(t, h)
      decreases buffer.size, 2
    {
      ghost var p := View().(status := Receiving(waiting, last));
      FireShrinks(p);
      FireKeepable(p, Registration());
      var n := last + |Awaited()|;
      assert View() == Inside(p) && (IsToken(waiting) ==> n == TokenEnd(p));
      match waiting
      case Head => HeadReceived(n);
      case Body(_) => Process();
      case Boundary => BoundaryReceived(n);
      case Pair => PairReceived();
      case PartHead => PartReceived(n);
      case Tail => Process();
    }

    // ---- the callbacks ----

    method BoundaryReceived(n: nat)
      requires buffer.Valid() && 2 <= n <= buffer.size && MayGoOn(BoundaryStep(View(), n))
      modifies this, buffer`cursor, buffer`size, buffer`used, buffer`content
      ensures Valid()
      ensures var t, h := BoundaryStep(old(View()), n), old(Registration());
        WellFormed(t) && LastValid(t) && Keepable(t, h) && Abs() == Cascade(t, h)
      decreases buffer.size, 1
    {
      ghost var t := View();
      buffer.Consume(n);
      SameConn(View(), t.(buf := t.buf[n..]));
      ReadSize(Pair);
    }

    method PairReceived()
      requires buffer.Valid() && buffer.size >= 2 && MayGoOn(PairStep(View()))
      modifies this, buffer`cursor, buffer`size, buffer`used, buffer`content
      ensures Valid()
      ensures var t, h := PairStep(old(View())), old(Registration());
        WellFormed(t) && LastValid(t) && Keepable(t, h) && Abs() == Cascade(t, h)
      decreases buffer.size, 1
    {
      ghost var v := View();
      var str := buffer.ReadUtf8(2);
      assert str == v.buf[..2] && buffer.content == v.buf[2..];
      if str == CRLF {
        ReadToken(PartHead);
      } else {
        ReadToken(Tail);
      }
    }

    method PartReceived(n: nat)
      requires buffer.Valid() && 2 <= n <= buffer.size && MayGoOn(PartStep(View(), n))
      modifies this, buffer`cursor, buffer`size, buffer`used, buffer`content
      ensures Valid()
      ensures var t, h := PartStep(old(View()), n), old(Registration());
        WellFormed(t) && LastValid(t) && Keepable(t, h) && Abs() == Cascade(t, h)
      decreases buffer.size, 1
    {
      ghost var v := View();
      var header := buffer.ReadUtf8(n);
      assert header == v.buf[..n] && buffer.content == v.buf[n..];
      log := log + [PartText(header)];
      RecvMultiPart();
    }

    method RecvMultiPart()
      requires buffer.Valid() && MayGoOn(WaitFor(View(), Boundary))
      modifies this, buffer`cursor, buffer`size, buffer`used, buffer`content
      ensures Valid()
      ensures var t, h := WaitFor(old(View()), Boundary), old(Registration());
        WellFormed(t) && LastValid(t) && Keepable(t, h) && Abs() == Cascade(t, h)
      decreases buffer.size, 4
    {
      ReadToken(Boundary);
    }

    /** The exception of a missing Content-Type ends the event loop. */
    method RecvBody()
      requires buffer.Valid() && MayGoOn(BodyStep(View(), contentLength))
      modifies this, buffer`cursor, buffer`size, buffer`used, buffer`content
      ensures Valid()
      ensures var t, h := BodyStep(old(View()), old(contentLength)), old(Registration());
        WellFormed(t) && LastValid(t) && Keepable(t, h) && Abs() == Cascade(t, h)
      decreases buffer.size, 5
    {
      if "Content-Type" !in req.header {
        phase, listening := AtThrew, false;
        log := log + [Throw];
        return;
      }
      var contentType := req.header["Content-Type"];
      if IsMultipart(contentType) {
        var m := BoundaryOf(contentType);
        if m.None? {
          Close();
          return;
        }
        boundary := "--" + m.value;
        RecvMultiPart();
      } else {
        ReadSize(Body(contentLength));
      }
    }

    method ReadHead(n: nat)
      requires buffer.Valid() && n <= buffer.size
      modifies this`req, this`isClosed, this`log, buffer`cursor, buffer`size, buffer`used, buffer`content
      ensures buffer.Valid() && View() == TakeHead(old(View()), n)
      ensures buffer.size == old(buffer.size) - n
    {
      ghost var v := View();
      var header := buffer.ReadUtf8(n);
      assert v.buf == header + v.buf[n..];
      req := ParseHeader(header);
      ghost var t := TakeHead(v, n);
      assert req == t.env;
      isClosed := !KeepAlive(req.header);
      log := log + [HeadText(header)];
      SameConn(View(), t);
    }

    method HeadReceived(n: nat)
      requires buffer.Valid() && 2 <= n <= buffer.size && MayGoOn(HeadStep(View(), n))
      modifies this, buffer`cursor, buffer`size, buffer`used, buffer`content
      ensures Valid()
      ensures var t, h := HeadStep(old(View()), n), old(Registration());
        WellFormed(t) && LastValid(t) && Keepable(t, h) && Abs() == Cascade(t, h)
      decreases buffer.size, 1
    {
      ReadHead(n);
      ActOnHead();
    }

    /** The rest of that callback, once the head is parsed. */
    method ActOnHead()
      requires buffer.Valid() && MayGoOn(HeadNext(View()))
      modifies this, buffer`cursor, buffer`size, buffer`used, buffer`content
      ensures Valid()
      ensures var t, h := HeadNext(old(View())), old(Registration());
        WellFormed(t) && LastValid(t) && Keepable(t, h) && Abs() == Cascade(t, h)
      decreases buffer.size, 6
    {
      if "Content-Length" in req.header {
        contentLength := ParseInt(req.header["Content-Length"]);
        RecvBody();
      } else {
        Process();
      }
    }

    /** `recvHeader`, which is all that `start` does. */
    method RecvHeader()
      requires buffer.Valid() && !listening
      modifies this, buffer`cursor, buffer`size, buffer`used, buffer`content
      ensures Valid() && Abs() == Fresh(old(View()))
    {
      NothingToSettle(View());
      ClearBuffer();
      ReadToken(Head);
    }

    /** `close`: the descriptor and its handlers are gone. */
    method Close()
      requires buffer.Valid()
      modifies this`phase, this`listening, this`log
      ensures buffer.Valid() && Valid()
      ensures Abs() == Live(old(View()).(buf := "", status := Closed, log := old(log) + [Event.Close]), Off)
    {
      phase, listening := AtClosed, false;
      log := log + [Event.Close];
    }

    // ---- the response ----

    /** `write`. */
    method Write(text: string)
      requires Valid() && (phase == InReceive || phase == InProcess)
      modifies buffer, buffer.data, buffer.meter
      ensures Valid() && Abs() == HttpLive.Write(old(Abs()), text)
    {
      ghost var t := HttpLive.Write(Abs(), text);
      buffer.Write(text);
      SameConn(Abs().conn, t.conn);
    }

    /** How `end` and `flush` begin: `$out` replaces the handler. */
    method Out()
      requires Valid()
      modifies this`listening, this`phase
      ensures Valid() && Abs() == HttpLive.Out(old(Abs()))
    {
      ghost var t := HttpLive.Out(Abs());
      listening := false;
      if phase == InReceive {
        phase := InProcess;
      }
      SameConn(Abs().conn, t.conn);
    }

    /** The callback of `end`, called when the response is written. */
    method Responded()
      requires Valid() && phase == InProcess && !listening
      modifies this, buffer`cursor, buffer`size, buffer`used, buffer`content
      ensures Valid() && Abs() == Answered(old(Abs()))
    {
      if isClosed {
        Close();
      } else {
        RecvHeader();
      }
    }

    // ---- a readable event ----

    /** The condition of whatever is registered. */
    method Check() returns (met: bool)
      requires buffer.Valid() && listening && HasBoundary(boundary, Registration())
      modifies this`last
      ensures View() == old(View())
      ensures var p := Probe(old(Waiting(Live(View(), Registration()), "")));
        && View().(status := Receiving(waiting, last)) == p
        && (met <==> Ready(p))
    {
      ghost var s := Waiting(Live(View(), Registration()), "");
      assert s.buf == buffer.content && (IsToken(waiting) ==> Awaited() == Delim(s));
      match waiting
      case Body(length) => met := AtLeast(buffer.size, length);
      case Pair => met := buffer.size >= 2;
      case _ => met := Condition(s);
      SameConn(View().(status := Receiving(waiting, last)), Probe(s));
    }

    /** The bytes of a readable event arrive. */
    method Receive(r: Recv) returns (n: int)
      requires buffer.Valid()
      requires r.Data? ==> r.bytes != ""
      modifies buffer, buffer.data, buffer.meter
      ensures buffer.Valid()
      ensures n == -1 <==> !r.Data?
      ensures n == -1 ==> View() == old(View())
      ensures n != -1 ==> 0 < n <= |r.bytes| && View() == old(View()).(buf := old(View()).buf + r.bytes[..n])
    {
      ghost var before := View();
      n := ReadBuffer(buffer, r);
      SameConn(View(), if n == -1 then before else before.(buf := before.buf + r.bytes[..n]));
    }

    /** One readable event: the `$in` handler of `readUntil`, and the whole cascade of callbacks
        it sets off. A read error closes the connection. */
    method OnReadable(r: Recv) returns (n: int)
      requires Valid() && listening
      requires r.Data? ==> r.bytes != ""
      modifies this, buffer, buffer.data, buffer.meter
      ensures Valid()
      ensures n == -1 <==> !r.Data?
      ensures n == -1 ==>
        Abs() == Live(old(View()).(buf := "", status := Closed, log := old(log) + [Event.Close]), Off)
      ensures n != -1 ==> 0 < n <= |r.bytes|
      ensures n != -1 ==> Sound(old(Abs())) && Abs() == Deliver(old(Abs()), r.bytes[..n])
    {
      ghost var before := Abs();
      n := Receive(r);
      if n == -1 {
        Close();
        return;
      }
      ghost var s := Waiting(before, r.bytes[..n]);
      SameConn(Waiting(Live(View(), Registration()), ""), s);
      var met := Check();
      if met {
        Callback();
      } else {
        SameConn(Abs().conn, Deliver(before, r.bytes[..n]).conn);
      }
    }
  }

  lemma NothingToSettle(s: Conn)
    ensures var t := Start(s);
      WellFormed(t) && LastValid(t) && Keepable(t, Off) && Cascade(t, Off) == Fresh(s)
  {
  }
}
