/** The handler that a multipart request leaves registered. */
module HttpUpload {
  import opened Search
  import opened Text
  import opened HttpHead
  import opened HeaderValues
  import opened HttpReceive
  import opened HttpReference
  import opened HttpMultipart
  import opened HttpLive
  import opened HttpStale

  // ---- read off the stream ----

  /** How far into the closing line, after its first two bytes, the line end is. */
  function ClosingEnd(boundary: string, stream: string): Option<nat>
    requires boundary != ""
    decreases |stream|
  {
    match Cut(stream, boundary)
    case None => None
    case Some(Halves(_, rest)) =>
      if |rest| < 2 then None
      else if rest[..2] == CRLF then
        match Cut(rest[2..], HEADER_DELIM)
        case None => None
        case Some(Halves(_, more)) => ClosingEnd(boundary, more)
      else IndexOf(rest[2..], CRLF, 0)
  }

  /** The head of a multipart request. */
  predicate IsUploadHead(head: string) {
    var header := ParseHead(head).header;
    && "Content-Length" in header && "Content-Type" in header
    && IsMultipart(header["Content-Type"]) && BoundaryOf(header["Content-Type"]).Some?
  }

  predicate IsUpload(stream: string) {
    var c := Cut(stream, HEADER_DELIM);
    c.Some? ==> IsUploadHead(c.value.piece)
  }

  function UploadBoundary(head: string): string
    requires IsUploadHead(head)
  {
    "--" + BoundaryOf(ParseHead(head).header["Content-Type"]).value
  }

  // ---- one cascade ----

  /** The cascade has processed the request and left the handler of the closing line. */
  ghost predicate LeavesTail(l: Live, end: Option<nat>) {
    && (l.conn.status.Processing? <==> end.Some?)
    && (end.Some? ==> l.handler == On(Tail, end.value))
  }

  lemma CascadeTail(s: Conn, h: Handler)
    requires WellFormed(s) && s.status == Receiving(Tail, 0) && Keepable(s, h)
    ensures LeavesTail(Cascade(s, h), IndexOf(s.buf, CRLF, 0))
  {
    CascadeStep(s, h);
    StopFindsFirst(s.buf, CRLF, 0);
  }

  lemma {:induction false} CascadeParts(s: Conn, h: Handler)
    requires WellFormed(s) && s.status == Receiving(Boundary, 0) && Keepable(s, h)
    ensures LeavesTail(Cascade(s, h), ClosingEnd(s.boundary, s.buf))
    decreases |s.buf|
  {
    TokenCut(s);
    CascadeStep(s, h);
    var p := Probe(s);
    if Ready(p) {
      var s1, h1 := Fire(p), On(Boundary, p.status.last);
      CascadePair(s1, h1);
    }
  }

  lemma {:induction false} CascadePair(s: Conn, h: Handler)
    requires WellFormed(s) && s.status == Receiving(Pair, 0) && Keepable(s, h)
    ensures LeavesTail(Cascade(s, h),
      if |s.buf| < 2 then None
      else if s.buf[..2] == CRLF then
        match Cut(s.buf[2..], HEADER_DELIM)
        case None => None
        case Some(Halves(_, more)) => ClosingEnd(s.boundary, more)
      else IndexOf(s.buf[2..], CRLF, 0))
    decreases |s.buf|
  {
    if Ready(s) {
      FireShrinks(s);
      FireKeepable(s, h);
      var t := Fire(s);
      if t.status.wait.Tail? {
        CascadeTail(t, h);
      } else {
        CascadePartHead(t, h);
      }
    }
  }

  lemma {:induction false} CascadePartHead(s: Conn, h: Handler)
    requires WellFormed(s) && s.status == Receiving(PartHead, 0) && Keepable(s, h)
    ensures LeavesTail(Cascade(s, h),
      match Cut(s.buf, HEADER_DELIM)
      case None => None
      case Some(Halves(_, more)) => ClosingEnd(s.boundary, more))
    decreases |s.buf|
  {
    TokenCut(s);
    CascadeStep(s, h);
    var p := Probe(s);
    if Ready(p) {
      CascadeParts(Fire(p), On(PartHead, p.status.last));
    }
  }

  // ---- any number of events ----

  /** From here on only multipart waits follow. */
  ghost predicate Uploads(s: Conn)
    requires WellFormed(s) && LastValid(s)
  {
    s.status.Receiving? &&
    (InMultipart(s.status.wait) ||
     (s.status.wait.Head? &&
      (Ready(Probe(s)) ==> var t := Fire(Probe(s)); t.status.Receiving? && InMultipart(t.status.wait))))
  }

  lemma TokenIgnores(s: Conn, h: Handler, k: Handler)
    requires WellFormed(s) && LastValid(s) && s.status.Receiving? && IsToken(s.status.wait)
    requires Keepable(s, h) && Keepable(s, k)
    ensures Cascade(s, h) == Cascade(s, k)
  {
    CascadeStep(s, h);
    CascadeStep(s, k);
  }

  /** Nor does it matter in a multipart wait which handler was registered before. */
  lemma {:induction false} UploadIgnores(s: Conn, h: Handler, k: Handler)
    requires WellFormed(s) && LastValid(s) && s.status.Receiving? && (s.status.wait.Pair? || IsToken(s.status.wait))
    requires Keepable(s, h) && Keepable(s, k)
    ensures Cascade(s, h) == Cascade(s, k)
  {
    if IsToken(s.status.wait) {
      TokenIgnores(s, h, k);
    } else if Ready(s) {
      FireShrinks(s);
      FireKeepable(s, h);
      FireKeepable(s, k);
      TokenIgnores(Fire(s), h, k);
    }
  }

  lemma FireUploads(p: Conn)
    requires WellFormed(p) && p.status.Receiving? && Ready(p) && InMultipart(p.status.wait)
    ensures Fire(p).status.Receiving? ==> InMultipart(Fire(p).status.wait)
  {
  }

  /** A cascade that stopped for lack of bytes goes on, when they come, as if they had been there. */
  lemma {:induction false} CascadeResumes(s: Conn, h: Handler, more: string)
    requires WellFormed(s) && LastValid(s) && Keepable(s, h) && s.status.Receiving?
    requires LastValid(s.(buf := s.buf + more)) && Uploads(s.(buf := s.buf + more))
    requires Settle(s).status.Receiving?
    ensures Keepable(s.(buf := s.buf + more), h)
    ensures Deliver(Cascade(s, h), more) == Cascade(s.(buf := s.buf + more), h)
    decreases |s.buf|
  {
    var p, t := Probe(s), s.(buf := s.buf + more);
    ProbeAppend(s, more);
    if Ready(p) {
      FireShrinks(p);
      FireAppend(p, more);
      FireKeepable(p, h);
      var n := Fire(p);
      assert Probe(t) == p.(buf := p.buf + more) && Fire(Probe(t)) == n.(buf := n.buf + more);
      if !s.status.wait.Head? {
        FireUploads(p);
      }
      AppendKeepsLast(n, more);
      CascadeResumes(n, Registered(p, h), more);
    } else {
      Resumed(s, h, more);
    }
  }

  lemma Resumed(s: Conn, h: Handler, more: string)
    requires WellFormed(s) && LastValid(s) && Keepable(s, h) && s.status.Receiving? && !s.status.wait.Body?
    requires !Ready(Probe(s))
    ensures LastValid(s.(buf := s.buf + more)) && Keepable(s.(buf := s.buf + more), h)
    ensures Deliver(Cascade(s, h), more) == Cascade(s.(buf := s.buf + more), h)
  {
    var p, t := Probe(s), s.(buf := s.buf + more);
    var k := On(p.status.wait, p.status.last);
    ProbeAppend(s, more);
    DeliverIsCascade(Live(p, k), more);
    var q := p.(buf := p.buf + more);
    if IsToken(s.status.wait) {
      CascadeStep(q, k);
      CascadeStep(t, h);
    } else {
      SameConn(q, t);
      UploadIgnores(t, h, k);
    }
  }

  // ---- from a fresh connection ----

  lemma FreshUploads(s: Conn, stream: string)
    requires IsUpload(stream)
    ensures var t := Start(s).(buf := stream); LastValid(t) && Uploads(t)
  {
    var t := Start(s).(buf := stream);
    ProbeFromStart(t);
    if Ready(Probe(t)) {
      var p := Probe(t);
      assert p.buf[..TokenEnd(p)] == Cut(stream, HEADER_DELIM).value.piece;
    }
  }

  lemma FreshDeliver(s: Conn, stream: string)
    ensures var t := Start(s).(buf := stream);
      LastValid(t) && Keepable(t, On(Head, 0)) && Deliver(Fresh(s), stream) == Cascade(t, On(Head, 0))
  {
    DeliverIsCascade(Fresh(s), stream);
    assert Start(s).buf + stream == stream;
  }

  /** One event is as good as two, handler included. */
  lemma UploadTwice(s: Conn, a: string, b: string)
    requires IsUpload(a + b) && Deliver(Fresh(s), a).conn.status.Receiving?
    ensures Deliver(Deliver(Fresh(s), a), b) == Deliver(Fresh(s), a + b)
  {
    FreshDeliver(s, a);
    FreshDeliver(s, a + b);
    FreshUploads(s, a + b);
    CascadeResumes(Start(s).(buf := a), On(Head, 0), b);
  }

  lemma UploadPrefix(a: string, b: string)
    requires IsUpload(a + b)
    ensures IsUpload(a)
  {
    if Cut(a, HEADER_DELIM).Some? {
      CutGrows(a, b, HEADER_DELIM);
    }
  }

  lemma NothingElse(l: Live, chunks: seq<string>)
    requires Sound(l) && |chunks| == 0
    ensures DeliverAll(l, chunks) == l && Flatten(chunks) == ""
  {
  }

  lemma {:induction false} UploadFrom(s: Conn, a: string, chunks: seq<string>)
    requires IsUpload(a + Flatten(chunks)) && Deliver(Fresh(s), a).conn.status.Receiving?
    requires InTime(Deliver(Fresh(s), a), chunks)
    ensures DeliverAll(Deliver(Fresh(s), a), chunks) == Deliver(Fresh(s), a + Flatten(chunks))
    decreases |chunks|
  {
    if chunks == [] {
      assert a + "" == a;
    } else {
      var b, rest := a + chunks[0], Flatten(chunks[1..]);
      Regroup(a, chunks[0], rest);
      UploadPrefix(b, rest);
      UploadTwice(s, a, chunks[0]);
      if |chunks| > 1 {
        UploadFrom(s, b, chunks[1..]);
      } else {
        NothingElse(Deliver(Fresh(s), b), chunks[1..]);
        assert b + rest == b;
      }
    }
  }

  /** A multipart request, cut in any way: not even the handler that it leaves registered depends
      on the cut. (For a plain body it does.) */
  lemma {:induction false} UploadIsOneEvent(s: Conn, chunks: seq<string>)
    requires IsUpload(Flatten(chunks)) && InTime(Fresh(s), chunks)
    ensures DeliverAll(Fresh(s), chunks) == Deliver(Fresh(s), Flatten(chunks))
  {
    FreshDeliver(s, "");
    assert Deliver(Fresh(s), "") == Fresh(s);
    assert "" + Flatten(chunks) == Flatten(chunks);
    UploadFrom(s, "", chunks);
  }

  /** One event with all of it. */
  lemma UploadAtOnce(s: Conn, head: string, rest: string, stream: string)
    requires Cut(stream, HEADER_DELIM) == Some(Halves(head, rest)) && IsUploadHead(head)
    ensures UploadBoundary(head) != ""
    ensures LeavesTail(Deliver(Fresh(s), stream), ClosingEnd(UploadBoundary(head), rest))
  {
    var t := Start(s).(buf := stream);
    FreshDeliver(s, stream);
    ProbeFromStart(t);
    CascadeStep(t, On(Head, 0));
    var p := Probe(t);
    CascadeParts(Fire(p), On(Head, p.status.last));
  }

  /** The handler that a multipart request leaves: that of its closing line, with `last` where the
      line ends. */
  lemma {:induction false} UploadLeavesTail(s: Conn, chunks: seq<string>, head: string, rest: string)
    requires Cut(Flatten(chunks), HEADER_DELIM) == Some(Halves(head, rest)) && IsUploadHead(head)
    requires InTime(Fresh(s), chunks)
    ensures UploadBoundary(head) != ""
    ensures LeavesTail(DeliverAll(Fresh(s), chunks), ClosingEnd(UploadBoundary(head), rest))
  {
    UploadIsOneEvent(s, chunks);
    UploadAtOnce(s, head, rest, Flatten(chunks));
  }

  // ---- requests as clients send them ----

  lemma EndAfterPart(boundary: string, text: string, head: string, more: string)
    requires boundary != "" && EndsCleanly(text, boundary) && EndsAtDelim(head)
    ensures ClosingEnd(boundary, (text + boundary) + (CRLF + (head + more))) == ClosingEnd(boundary, more)
  {
    var rest := CRLF + (head + more);
    CutAfter(text + boundary, boundary, rest);
    assert rest[..2] == CRLF && rest[2..] == head + more;
    CutAfter(head, HEADER_DELIM, more);
  }

  lemma EndOfClosing(boundary: string, text: string, epilogue: string)
    requires boundary != "" && EndsCleanly(text, boundary)
    ensures ClosingEnd(boundary, (text + boundary) + ((CLOSING + CRLF) + epilogue)) == Some(0)
  {
    var rest := (CLOSING + CRLF) + epilogue;
    CutAfter(text + boundary, boundary, rest);
    assert rest[..2] == CLOSING && rest[2..] == CRLF + epilogue;
    assert OccursAt(CRLF + epilogue, CRLF, 0);
    IndexOfIs(CRLF + epilogue, CRLF, 0);
  }

  lemma {:induction false} RenderedEnd(boundary: string, text: string, parts: seq<Part>, epilogue: string)
    requires boundary != "" && Sendable(text, boundary, parts)
    ensures ClosingEnd(boundary, RenderParts(text, boundary, parts) + epilogue) == Some(0)
    decreases |parts|
  {
    RenderThen(text, boundary, parts, epilogue);
    if parts == [] {
      EndOfClosing(boundary, text, epilogue);
    } else {
      var p := parts[0];
      EndAfterPart(boundary, text, p.head, RenderParts(p.content, boundary, parts[1..]) + epilogue);
      RenderedEnd(boundary, p.content, parts[1..], epilogue);
    }
  }

  /** A rendered multipart request leaves the handler of its closing line with `last` at zero, and
      so any later event with a line end in it, before `end`, processes the request again. */
  lemma {:induction false} UploadProcessedTwice(s: Conn, r: Request, b: string, text: string, parts: seq<Part>,
                                                epilogue: string, chunks: seq<string>, more: string)
    requires IsMultipartRequest(r, b) && Sendable(text, "--" + b, parts)
    requires Flatten(chunks) == RenderHead(r) + (RenderParts(text, "--" + b, parts) + epilogue)
    requires InTime(Fresh(s), chunks)
    ensures var t := DeliverAll(Fresh(s), chunks); var u := Deliver(t, more);
      var env := Env(r.verb, Some(r.uri), FieldMap(r.fields));
      && t.conn.status.Processing? && t.handler == On(Tail, 0)
      && u.conn.log == if Contains(more, CRLF) then t.conn.log + [Process(env)] else t.conn.log
  {
    var body := RenderParts(text, "--" + b, parts) + epilogue;
    HeadFirst(r, body);
    UploadLeavesTail(s, chunks, RenderHead(r), body);
    RenderedEnd("--" + b, text, parts, epilogue);
    ProcessLeaves(Fresh(s), chunks);
    LiveIsParse(s, chunks);
    TailAgain(DeliverAll(Fresh(s), chunks), more);
  }

  lemma TailAgain(l: Live, chunk: string)
    requires Sound(l) && l.conn.status.Processing? && l.handler == On(Tail, 0) && l.conn.buf == ""
    ensures Deliver(l, chunk).conn.log ==
      if Contains(chunk, CRLF) then l.conn.log + [Process(l.conn.env)] else l.conn.log
  {
    TailReady(l, chunk);
    if Contains(chunk, CRLF) {
      TailEnds(l, chunk);
    } else {
      StaleFires(l, chunk);
    }
  }

  lemma TailReady(l: Live, chunk: string)
    requires Sound(l) && l.conn.status.Processing? && l.handler == On(Tail, 0) && l.conn.buf == ""
    ensures Ready(Probe(Waiting(l, chunk))) <==> Contains(chunk, CRLF)
  {
    MetIsReady(l, chunk);
    assert l.conn.buf + chunk == chunk;
    assert Delim(Waiting(l, "")) == CRLF;
  }

  lemma TailEnds(l: Live, chunk: string)
    requires Sound(l) && l.handler.On? && l.handler.wait.Tail? && Ready(Probe(Waiting(l, chunk)))
    ensures Deliver(l, chunk).conn.log == l.conn.log + [Process(l.conn.env)]
  {
    var p := Probe(Waiting(l, chunk));
    assert Fire(p) == ProcessStep(Inside(p));
  }
}
