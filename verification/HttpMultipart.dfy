/** Requests as clients send them, received in any fragmentation. */
module HttpMultipart {
  import opened Search
  import opened Text
  import opened HttpHead
  import opened HeaderValues
  import opened HttpReceive
  import opened HttpReference
  import opened HttpLive

  /** `head` ends with the empty line; `content` runs up to the next boundary. */
  datatype Part = Part(head: string, content: string)

  const CLOSING := "--"

  /** A multipart body, section 5.1.1 of RFC 2046: text, boundary, then a part or the closing line. */
  function RenderParts(text: string, boundary: string, parts: seq<Part>): string
    decreases |parts|
  {
    text + boundary +
    if parts == [] then CLOSING + CRLF
    else CRLF + parts[0].head + RenderParts(parts[0].content, boundary, parts[1..])
  }

  function PartEvents(parts: seq<Part>): (log: seq<Event>)
    ensures |log| == |parts|
    ensures forall i :: 0 <= i < |parts| ==> log[i] == PartText(parts[i].head)
  {
    seq(|parts|, i requires 0 <= i < |parts| => PartText(parts[i].head))
  }

  /** No boundary starts before the one that ends the text, and each head ends at its first
      empty line. */
  predicate Sendable(text: string, boundary: string, parts: seq<Part>) {
    && EndsCleanly(text, boundary)
    && forall i :: 0 <= i < |parts| ==> EndsCleanly(parts[i].content, boundary) && EndsAtDelim(parts[i].head)
  }

  lemma CutAfter(piece: string, delim: string, rest: string)
    requires delim != "" && |piece| >= |delim|
    requires IndexOf(piece, delim, 0) == Some(|piece| - |delim|)
    ensures Cut(piece + rest, delim) == Some(Halves(piece, rest))
  {
    IndexOfPrefix(piece, rest, delim);
    assert (piece + rest)[..|piece|] == piece && (piece + rest)[|piece|..] == rest;
  }

  lemma NoCutBefore(piece: string, delim: string, k: nat)
    requires delim != "" && k < |piece| && |piece| >= |delim|
    requires IndexOf(piece, delim, 0) == Some(|piece| - |delim|)
    ensures Cut(piece[..k], delim).None?
  {
    IndexOfPrefix(piece[..k], piece[k..], delim);
    assert piece[..k] + piece[k..] == piece;
  }

  // ---- one round of the multipart loop ----

  lemma PartRound(env: Env, boundary: string, text: string, head: string, more: string)
    requires boundary != "" && EndsCleanly(text, boundary) && EndsAtDelim(head)
    ensures ParseParts(env, boundary, (text + boundary) + (CRLF + (head + more)))
      == [PartText(head)] + ParseParts(env, boundary, more)
  {
    var rest := CRLF + (head + more);
    CutAfter(text + boundary, boundary, rest);
    assert rest[..2] == CRLF && rest[2..] == head + more;
    CutAfter(head, HEADER_DELIM, more);
  }

  lemma ClosingRound(env: Env, boundary: string, text: string, epilogue: string)
    requires boundary != "" && EndsCleanly(text, boundary)
    ensures ParseParts(env, boundary, (text + boundary) + ((CLOSING + CRLF) + epilogue)) == [Process(env)]
  {
    var rest := (CLOSING + CRLF) + epilogue;
    CutAfter(text + boundary, boundary, rest);
    assert rest[..2] == CLOSING && rest[2..] == CRLF + epilogue;
    assert OccursAt(CRLF + epilogue, CRLF, 0);
    FirstOccurrence(CRLF + epilogue, CRLF, 0);
  }

  lemma AfterLineEnd(rest: string, head: string)
    requires rest <= CRLF + head && |rest| >= 2
    ensures rest[..2] == CRLF && rest[2..] == head[..|rest| - 2]
  {
    assert rest == (CRLF + head)[..|rest|];
  }

  lemma ShortPart(env: Env, boundary: string, text: string, head: string, rest: string)
    requires boundary != "" && EndsCleanly(text, boundary)
    requires EndsAtDelim(head) && rest < CRLF + head
    ensures ParseParts(env, boundary, (text + boundary) + rest) == []
  {
    CutAfter(text + boundary, boundary, rest);
    if |rest| >= 2 {
      AfterLineEnd(rest, head);
      NoCutBefore(head, HEADER_DELIM, |rest| - 2);
    }
  }

  lemma ShortClosing(env: Env, boundary: string, text: string, rest: string)
    requires boundary != "" && EndsCleanly(text, boundary)
    requires rest < CLOSING + CRLF
    ensures ParseParts(env, boundary, (text + boundary) + rest) == []
  {
    CutAfter(text + boundary, boundary, rest);
    if |rest| >= 2 {
      assert rest == (CLOSING + CRLF)[..|rest|];
      assert rest[..2] == CLOSING;
    }
  }

  // ---- whole bodies ----

  lemma RenderStep(text: string, boundary: string, parts: seq<Part>)
    ensures RenderParts(text, boundary, parts) == (text + boundary) +
      if parts == [] then CLOSING + CRLF
      else CRLF + (parts[0].head + RenderParts(parts[0].content, boundary, parts[1..]))
  {
  }

  lemma RenderThen(text: string, boundary: string, parts: seq<Part>, epilogue: string)
    ensures RenderParts(text, boundary, parts) + epilogue == (text + boundary) +
      if parts == [] then (CLOSING + CRLF) + epilogue
      else CRLF + (parts[0].head + (RenderParts(parts[0].content, boundary, parts[1..]) + epilogue))
  {
    RenderStep(text, boundary, parts);
  }

  lemma PartEventsCons(parts: seq<Part>)
    requires parts != []
    ensures PartEvents(parts) == [PartText(parts[0].head)] + PartEvents(parts[1..])
  {
  }

  /** Every part header is printed, in order, then the request is processed; what follows the
      closing line plays no part. */
  lemma {:induction false} AllParts(env: Env, boundary: string, text: string, parts: seq<Part>, epilogue: string)
    requires boundary != "" && Sendable(text, boundary, parts)
    ensures ParseParts(env, boundary, RenderParts(text, boundary, parts) + epilogue)
      == PartEvents(parts) + [Process(env)]
    decreases |parts|
  {
    RenderThen(text, boundary, parts, epilogue);
    if parts == [] {
      ClosingRound(env, boundary, text, epilogue);
    } else {
      var p := parts[0];
      PartRound(env, boundary, text, p.head, RenderParts(p.content, boundary, parts[1..]) + epilogue);
      AllParts(env, boundary, p.content, parts[1..], epilogue);
      PartEventsCons(parts);
    }
  }

  /** Before its last byte is there, a body has printed some of its part headers, in order,
      and has not been processed. */
  lemma {:induction false} NotBeforeTheEnd(env: Env, boundary: string, text: string, parts: seq<Part>, k: nat)
    returns (seen: nat)
    requires boundary != "" && Sendable(text, boundary, parts)
    requires k < |RenderParts(text, boundary, parts)|
    ensures seen <= |parts|
    ensures ParseParts(env, boundary, RenderParts(text, boundary, parts)[..k]) == PartEvents(parts[..seen])
    decreases |parts|
  {
    RenderStep(text, boundary, parts);
    var start, whole := text + boundary, RenderParts(text, boundary, parts);
    seen := 0;
    if k < |start| {
      NoCutBefore(start, boundary, k);
      assert whole[..k] == start[..k];
      return;
    }
    var rest, m := whole[|start|..], k - |start|;
    assert whole[..k] == start + rest[..m];
    if parts == [] || m < 2 + |parts[0].head| {
      if parts == [] {
        ShortClosing(env, boundary, text, rest[..m]);
      } else {
        ShortPart(env, boundary, text, parts[0].head, rest[..m]);
      }
      return;
    }
    var p := parts[0];
    var more, j := RenderParts(p.content, boundary, parts[1..]), m - 2 - |p.head|;
    assert rest[..m] == CRLF + (p.head + more[..j]);
    PartRound(env, boundary, text, p.head, more[..j]);
    var n := NotBeforeTheEnd(env, boundary, p.content, parts[1..], j);
    seen := n + 1;
    PartEventsCons(parts[..seen]);
    assert parts[..seen][1..] == parts[1..][..n];
  }

  // ---- whole requests ----

  /** The machine reads the rendered head as one piece. */
  lemma HeadFirst(r: Request, body: string)
    requires PlainRequest(r)
    ensures ParseHead(RenderHead(r)) == Env(r.verb, Some(r.uri), FieldMap(r.fields))
    ensures EndsAtDelim(RenderHead(r))
    ensures Cut(RenderHead(r) + body, HEADER_DELIM) == Some(Halves(RenderHead(r), body))
  {
    ParseOfRender(r);
    HeadEndsAtDelim(r);
    CutAfter(RenderHead(r), HEADER_DELIM, body);
  }

  /** The events of a run are `events`, and nothing but what late events may add after them. */
  ghost predicate Emits(s: Conn, chunks: seq<string>, events: seq<Event>) {
    var log := DeliverAll(Fresh(s), chunks).conn.log;
    s.log + events <= log && (InTime(Fresh(s), chunks) ==> log == s.log + events)
  }

  /** As long as there is no empty line, nothing happens. */
  lemma {:induction false} NoHead(s: Conn, chunks: seq<string>)
    requires !Contains(Flatten(chunks), "\r\n\r\n")
    ensures DeliverAll(Fresh(s), chunks).conn.log == s.log
  {
    WhileIncomplete(s, chunks);
  }

  /** The type differs in some character from the one that multipart types begin with. */
  predicate IsOtherType(contentType: string) {
    |contentType| < 19 || exists i :: 0 <= i < 19 && contentType[i] != "multipart/form-data"[i]
  }

  lemma OtherTypeIsPlain(contentType: string)
    ensures IsOtherType(contentType) <==> !IsMultipart(contentType)
  {
    MultipartType(contentType);
  }

  /** The events of any head at all, and any bytes after it but a multipart body. */
  lemma AnyParse(head: string, body: string)
    requires EndsAtDelim(head)
    ensures var env := ParseHead(head); var header := env.header; var events := ParseRequest(head + body);
      if "Content-Length" !in header then events == [HeadText(head), Process(env)]
      else if "Content-Type" !in header then events == [HeadText(head), Throw]
      else if IsOtherType(header["Content-Type"]) then
        var length := ParseInt(header["Content-Length"]);
        events == if length.Num? && |body| >= length.n then [HeadText(head), Process(env)] else [HeadText(head)]
      else !Contains(header["Content-Type"], "boundary=") ==> events == [HeadText(head), Close]
  {
    CutAfter(head, HEADER_DELIM, body);
    var header := ParseHead(head).header;
    if "Content-Length" in header && "Content-Type" in header {
      OtherTypeIsPlain(header["Content-Type"]);
      AnyBoundary(header["Content-Type"]);
    }
  }

  /** Without a length a request is processed with its head; with one but no type the client throws;
      with a type that is not multipart it is processed exactly when as many bytes are there as the
      length says, read as `parseInt` reads it, so never if that is no number; and a multipart type
      without a boundary closes the connection. */
  lemma {:induction false} AnyRequest(s: Conn, head: string, body: string, chunks: seq<string>)
    requires EndsAtDelim(head) && Flatten(chunks) == head + body
    ensures var env := ParseHead(head); var header := env.header; var t := DeliverAll(Fresh(s), chunks).conn;
      && (InTime(Fresh(s), chunks) ==> t.isClosed == !KeepAlive(header))
      && if "Content-Length" !in header then Emits(s, chunks, [HeadText(head), Process(env)])
         else if "Content-Type" !in header then Emits(s, chunks, [HeadText(head), Throw])
         else if IsOtherType(header["Content-Type"]) then
           var length := ParseInt(header["Content-Length"]);
           if length.Num? && |body| >= length.n then Emits(s, chunks, [HeadText(head), Process(env)])
           else t.log == s.log + [HeadText(head)] && t.isClosed == !KeepAlive(header)
         else !Contains(header["Content-Type"], "boundary=") ==> Emits(s, chunks, [HeadText(head), Close])
  {
    AnyParse(head, body);
    CutAfter(head, HEADER_DELIM, body);
    LiveIsParse(s, chunks);
    if !HasOutcome([HeadText(head)]) && ParseRequest(Flatten(chunks)) == [HeadText(head)] {
      WhileIncomplete(s, chunks);
    }
  }

  predicate IsMultipartRequest(r: Request, b: string) {
    var header := FieldMap(r.fields);
    && PlainRequest(r)
    && "Content-Length" in header && "Content-Type" in header
    && IsMultipart(header["Content-Type"]) && BoundaryOf(header["Content-Type"]) == Some(b)
  }

  /** Any head that announces a multipart body, cut in any way: its head, every part header in order,
      then one `process` with what the head says. */
  lemma {:induction false} AnyMultipart(s: Conn, head: string, b: string, text: string, parts: seq<Part>,
                                        epilogue: string, chunks: seq<string>)
    requires EndsAtDelim(head) && Sendable(text, "--" + b, parts)
    requires var header := ParseHead(head).header;
      && "Content-Length" in header && "Content-Type" in header
      && IsMultipart(header["Content-Type"]) && BoundaryOf(header["Content-Type"]) == Some(b)
    requires Flatten(chunks) == head + (RenderParts(text, "--" + b, parts) + epilogue)
    ensures Emits(s, chunks, [HeadText(head)] + (PartEvents(parts) + [Process(ParseHead(head))]))
  {
    LiveIsParse(s, chunks);
    CutAfter(head, HEADER_DELIM, RenderParts(text, "--" + b, parts) + epilogue);
    AllParts(ParseHead(head), "--" + b, text, parts, epilogue);
  }

  /** So a rendered one is processed with its own method, URI and fields. */
  lemma {:induction false} MultipartReceived(s: Conn, r: Request, b: string, text: string, parts: seq<Part>,
                                             epilogue: string, chunks: seq<string>)
    requires IsMultipartRequest(r, b) && Sendable(text, "--" + b, parts)
    requires Flatten(chunks) == RenderHead(r) + (RenderParts(text, "--" + b, parts) + epilogue)
    ensures Emits(s, chunks,
      [HeadText(RenderHead(r))] + (PartEvents(parts) + [Process(Env(r.verb, Some(r.uri), FieldMap(r.fields)))]))
  {
    HeadFirst(r, "");
    AnyMultipart(s, RenderHead(r), b, text, parts, epilogue, chunks);
  }

  /** As long as the last byte of such a request is missing, it is not processed: the events are
      its head and some of its part headers, in order. */
  lemma {:induction false} MultipartNotEarly(s: Conn, r: Request, b: string, text: string, parts: seq<Part>, k: nat,
                                             chunks: seq<string>) returns (seen: nat)
    requires IsMultipartRequest(r, b) && Sendable(text, "--" + b, parts)
    requires k < |RenderParts(text, "--" + b, parts)|
    requires Flatten(chunks) == RenderHead(r) + RenderParts(text, "--" + b, parts)[..k]
    ensures seen <= |parts|
    ensures DeliverAll(Fresh(s), chunks).conn.log
      == s.log + ([HeadText(RenderHead(r))] + PartEvents(parts[..seen]))
  {
    HeadFirst(r, RenderParts(text, "--" + b, parts)[..k]);
    seen := NotBeforeTheEnd(ParseHead(RenderHead(r)), "--" + b, text, parts, k);
    assert !HasOutcome([HeadText(RenderHead(r))] + PartEvents(parts[..seen]));
    WhileIncomplete(s, chunks);
  }

  /** A request with a plain body is processed exactly when as many body bytes are there as its
      Content-Length says, read as `parseInt` reads it: never, if that is no number. */
  lemma {:induction false} BodyReceived(s: Conn, r: Request, body: string, chunks: seq<string>)
    requires PlainRequest(r)
    requires var header := FieldMap(r.fields);
      "Content-Length" in header && "Content-Type" in header && IsOtherType(header["Content-Type"])
    requires Flatten(chunks) == RenderHead(r) + body
    ensures var header := FieldMap(r.fields); var t := DeliverAll(Fresh(s), chunks).conn;
      var length := ParseInt(header["Content-Length"]);
      if length.Num? && |body| >= length.n
      then && Emits(s, chunks, [HeadText(RenderHead(r)), Process(Env(r.verb, Some(r.uri), header))])
           && (InTime(Fresh(s), chunks) ==> t.isClosed == !KeepAlive(header))
      else t.log == s.log + [HeadText(RenderHead(r))] && t.isClosed == !KeepAlive(header)
  {
    HeadFirst(r, body);
    AnyRequest(s, RenderHead(r), body, chunks);
  }

  /** So with the length written in decimal, it is processed with the last announced byte. */
  lemma {:induction false} DecimalBodyReceived(s: Conn, r: Request, n: nat, body: string, chunks: seq<string>)
    requires PlainRequest(r)
    requires var header := FieldMap(r.fields);
      && "Content-Length" in header && header["Content-Length"] == Decimal(n)
      && "Content-Type" in header && IsOtherType(header["Content-Type"])
    requires Flatten(chunks) == RenderHead(r) + body
    ensures if |body| >= n
      then Emits(s, chunks, [HeadText(RenderHead(r)), Process(Env(r.verb, Some(r.uri), FieldMap(r.fields)))])
      else DeliverAll(Fresh(s), chunks).conn.log == s.log + [HeadText(RenderHead(r))]
  {
    BodyReceived(s, r, body, chunks);
    ParseIntOfDecimal(n);
  }

  /** A part header is printed whole exactly when its first empty line ends it. A part with no
      header fields (a bare line end, which RFC 2046 allows) is not printed as such: what
      is taken for its header runs on into the content. */
  lemma PartHeadIsExact(head: string, more: string)
    ensures (var c := Cut(head + more, HEADER_DELIM); c.Some? && c.value.piece == head) <==> EndsAtDelim(head)
    ensures !EndsAtDelim(CRLF)
  {
    if EndsAtDelim(head) {
      CutAfter(head, HEADER_DELIM, more);
    }
    var c := Cut(head + more, HEADER_DELIM);
    if c.Some? && c.value.piece == head {
      IndexOfPrefix(head, more, HEADER_DELIM);
    }
  }

  // ---- where the code's notion of a delimiter line is not that of RFC 2046 ----

  /** After a boundary, anything but a line end is taken for the closing line. */
  lemma OtherwiseCloses(env: Env, boundary: string, text: string, rest: string)
    requires boundary != "" && EndsCleanly(text, boundary)
    requires |rest| >= 2 && rest[..2] != CRLF
    ensures ParseParts(env, boundary, (text + boundary) + rest)
      == if Contains(rest[2..], CRLF) then [Process(env)] else []
  {
    CutAfter(text + boundary, boundary, rest);
  }

  /** So white space after the boundary, which section 5.1.1 of RFC 2046 allows, ends the body: the
      part that it begins is not seen. */
  lemma PaddingCloses(env: Env, boundary: string, text: string, padding: char, head: string, more: string)
    requires boundary != "" && EndsCleanly(text, boundary)
    requires (padding == ' ' || padding == '\t') && EndsAtDelim(head)
    ensures ParseParts(env, boundary, (text + boundary) + ([padding] + CRLF + (head + more))) == [Process(env)]
  {
    var rest := [padding] + CRLF + (head + more);
    assert rest[..2] == [padding, '\r'];
    var at := |head| - 3;
    assert rest[2..] == ['\n'] + (head + more);
    FirstOccurrence(head, HEADER_DELIM, 0);
    assert head[at - 1..at + 3] == HEADER_DELIM;
    assert rest[2..][at..at + 2] == head[at - 1..at + 1] == head[at - 1..at + 3][..2];
    assert HEADER_DELIM[..2] == CRLF;
    FirstOccurrence(rest[2..], CRLF, 0);
    assert OccursAt(rest[2..], CRLF, at);
    OtherwiseCloses(env, boundary, text, rest);
  }

  /** And the boundary text need not stand at the beginning of a line: inside a line of content,
      which the standard allows it to be, it is taken for a delimiter all the same. */
  lemma AnywhereInALine(env: Env, boundary: string, text: string, rest: string)
    requires boundary != "" && EndsCleanly(text, boundary)
    ensures ParseParts(env, boundary, (text + boundary) + rest) == ParseParts(env, boundary, boundary + rest)
  {
    CutAfter(text + boundary, boundary, rest);
    assert OccursAt(boundary, boundary, 0);
    IndexOfIs(boundary, boundary, 0);
    CutAfter(boundary, boundary, rest);
  }
}
