/** Several requests on one connection, each answered as soon as it is processed. */
module HttpServe {
  import opened Search
  import opened Text
  import opened HttpHead
  import opened HeaderValues
  import opened HttpReceive
  import opened HttpReference
  import opened HttpLive

  /** The user's callback ends the response before it returns. What arrives until the response
      is written stays in the socket: it comes with a later event. */
  ghost function Answer(l: Live): (t: Live)
    requires Sound(l)
    ensures Sound(t)
  {
    if l.conn.status.Processing? then Answered(Out(l)) else l
  }

  ghost function Serve(l: Live, chunks: seq<string>): (t: Live)
    requires Sound(l)
    ensures Sound(t)
    decreases |chunks|
  {
    if chunks == [] then l else Serve(Answer(Deliver(l, chunks[0])), chunks[1..])
  }

  // ---- requests that each come in events of their own ----

  function Flat(requests: seq<seq<string>>): seq<string> {
    if requests == [] then [] else requests[0] + Flat(requests[1..])
  }

  /** The stream holds a request up to its outcome. */
  predicate IsComplete(stream: string) { HasOutcome(ParseRequest(stream)) }

  /** It is one that is processed. */
  predicate IsProcessed(stream: string) {
    var events := ParseRequest(stream);
    events != [] && events[|events| - 1].Process?
  }

  predicate HeadKeepsAlive(stream: string) {
    var c := Cut(stream, HEADER_DELIM);
    c.Some? && KeepAlive(ParseHead(c.value.piece).header)
  }

  /** Another request may follow this one. */
  predicate GoesOn(stream: string) { IsProcessed(stream) && HeadKeepsAlive(stream) }

  /** One request and its response: the connection is closed unless the request asks to keep it. */
  function Exchange(stream: string): seq<Event> {
    ParseRequest(stream) + if IsProcessed(stream) && !HeadKeepsAlive(stream) then [Close] else []
  }

  /** What several requests mean: each its own events, up to one after which none can follow. */
  function Meaning(requests: seq<seq<string>>): seq<Event> {
    if requests == [] then []
    else Exchange(Flatten(requests[0])) + if GoesOn(Flatten(requests[0])) then Meaning(requests[1..]) else []
  }

  /** Each request ends with the last event it is cut into, and all but the last request end. */
  predicate InTurn(requests: seq<seq<string>>) {
    requests == [] ||
    (&& Punctual(requests[0])
     && (|requests| > 1 ==> IsComplete(Flatten(requests[0])))
     && InTurn(requests[1..]))
  }

  predicate Punctual(chunks: seq<string>) {
    chunks != [] && !IsComplete(Flatten(chunks[..|chunks| - 1]))
  }

  lemma {:induction false} ServeSplit(l: Live, a: seq<string>, b: seq<string>)
    requires Sound(l)
    ensures Serve(l, a + b) == Serve(Serve(l, a), b)
    decreases |a|
  {
    if a == [] {
      assert a + b == b;
    } else {
      assert (a + b)[1..] == a[1..] + b;
      ServeSplit(Answer(Deliver(l, a[0])), a[1..], b);
    }
  }

  /** Within one request only the last event can call for an answer. */
  lemma {:induction false} ServeOne(l: Live, chunks: seq<string>)
    requires Sound(l) && l.conn.status.Receiving? && chunks != [] && InTime(l, chunks)
    ensures Serve(l, chunks) == Answer(DeliverAll(l, chunks))
    decreases |chunks|
  {
    var t := Deliver(l, chunks[0]);
    if |chunks| > 1 {
      ServeOne(t, chunks[1..]);
    } else {
      assert chunks[1..] == [];
    }
  }

  lemma {:induction false} ServeDeaf(l: Live, chunks: seq<string>)
    requires Sound(l) && l.handler.Off? && !l.conn.status.Processing?
    ensures Serve(l, chunks) == l
    decreases |chunks|
  {
    if chunks != [] {
      ServeDeaf(l, chunks[1..]);
    }
  }

  /** How a connection stands when the last event of a request was handled. */
  lemma {:induction false} Received(s: Conn, chunks: seq<string>)
    requires Punctual(chunks)
    ensures InTime(Fresh(s), chunks)
    ensures var stream := Flatten(chunks); var t := DeliverAll(Fresh(s), chunks).conn;
      && t.log == s.log + ParseRequest(stream)
      && (t.status.Processing? <==> IsProcessed(stream))
      && (t.status.Processing? ==> t.isClosed == !HeadKeepsAlive(stream))
      && (t.status.Receiving? <==> !IsComplete(stream))
  {
    var n := |chunks| - 1;
    assert chunks == chunks[..n] + [chunks[n]];
    InTimeMeans(s, chunks[..n], chunks[n]);
    LiveIsParse(s, chunks);
    InTimeIsFeed(Fresh(s), chunks);
    OutcomeTells(s, chunks);
    if IsComplete(Flatten(chunks)) {
      ProcessHasHead(Flatten(chunks));
    }
  }

  /** What an answer makes of such a connection. */
  lemma AnswerFollows(l: Live, processed: bool, keeps: bool, complete: bool)
    requires Sound(l) && (l.conn.status.Processing? <==> processed) && (l.conn.status.Receiving? <==> !complete)
    requires processed ==> l.conn.isClosed == !keeps
    ensures var t := Answer(l);
      && t.conn.log == l.conn.log + (if processed && !keeps then [Close] else [])
      && (processed && keeps ==> t == Fresh(t.conn))
      && (!(processed && keeps) && complete ==> t.handler.Off? && !t.conn.status.Processing?)
  {
  }

  /** One whole request on a connection that waits for its head. */
  lemma {:induction false} OneRequest(s: Conn, chunks: seq<string>)
    requires Punctual(chunks)
    ensures var stream := Flatten(chunks); var t := Serve(Fresh(s), chunks);
      && t.conn.log == s.log + Exchange(stream)
      && (GoesOn(stream) ==> t == Fresh(t.conn))
      && (!GoesOn(stream) && IsComplete(stream) ==> t.handler.Off? && !t.conn.status.Processing?)
  {
    var stream, l := Flatten(chunks), DeliverAll(Fresh(s), chunks);
    Received(s, chunks);
    ServeOne(Fresh(s), chunks);
    AnswerFollows(l, IsProcessed(stream), HeadKeepsAlive(stream), IsComplete(stream));
    LogJoin(s.log, ParseRequest(stream), if IsProcessed(stream) && !HeadKeepsAlive(stream) then [Close] else []);
  }

  lemma LogJoin(a: seq<Event>, b: seq<Event>, c: seq<Event>)
    ensures (a + b) + c == a + (b + c)
  {
  }

  lemma ProcessHasHead(stream: string)
    requires HasOutcome(ParseRequest(stream))
    ensures Cut(stream, HEADER_DELIM).Some?
  {
  }

  /** Requests that take turns with their responses are all served, in order, up to the first that
      does not keep the connection. */
  lemma {:induction false} ServesInTurn(s: Conn, requests: seq<seq<string>>)
    requires InTurn(requests)
    ensures Serve(Fresh(s), Flat(requests)).conn.log == s.log + Meaning(requests)
    decreases |requests|
  {
    if requests != [] {
      var first, rest := requests[0], requests[1..];
      OneRequest(s, first);
      var t, stream := Serve(Fresh(s), first), Flatten(first);
      assert Serve(Fresh(s), Flat(requests)) == Serve(t, Flat(rest)) by {
        ServeSplit(Fresh(s), first, Flat(rest));
      }
      if GoesOn(stream) {
        ServesInTurn(t.conn, rest);
        LogJoin(s.log, Exchange(stream), Meaning(rest));
      } else {
        assert Serve(t, Flat(rest)) == t by {
          if rest != [] {
            ServeDeaf(t, Flat(rest));
          }
        }
        assert Meaning(requests) == Exchange(stream);
      }
    }
  }

  // ---- a request that comes in one event with the end of another ----

  /** The bytes of a second request that come with the end of a first one are lost. For the
      connection after the first response this makes no difference, whatever comes later,
      exactly when there are none. */
  lemma {:induction false} PipeliningDependsOnTheCut(l: Live, first: string, second: string)
    requires Sound(l) && l.conn.status.Receiving?
    requires Deliver(l, first).conn.status.Processing? && !Deliver(l, first).conn.isClosed
    ensures var together := Answer(Deliver(l, first + second)); var apart := Answer(Deliver(l, first));
      (forall third :: Deliver(together, third).conn.log == Deliver(Deliver(apart, second), third).conn.log)
        <==> second == ""
  {
    ExcessIsDropped(l, first, second);
    var c := Out(Deliver(l, first)).conn;
    assert Answer(Deliver(l, first)) == Fresh(c);
    if second == "" {
      EmptyEvent(c);
    } else if Contains(second, HEADER_DELIM) {
      FreshEvent(c, second);
      DeliverGrows(Deliver(Fresh(c), second), "");
      EmptyEvent(c);
    } else {
      LostByte(c, second);
    }
  }

  /** As far as the events at once are concerned, it makes none exactly when the second request's
      head is not complete yet. */
  lemma {:induction false} PipeliningShows(l: Live, first: string, second: string)
    requires Sound(l) && l.conn.status.Receiving?
    requires Deliver(l, first).conn.status.Processing? && !Deliver(l, first).conn.isClosed
    ensures var together := Answer(Deliver(l, first + second)); var apart := Answer(Deliver(l, first));
      together.conn.log == Deliver(apart, second).conn.log <==> !Contains(second, HEADER_DELIM)
  {
    ExcessIsDropped(l, first, second);
    var c := Out(Deliver(l, first)).conn;
    assert Answer(Deliver(l, first)) == Fresh(c);
    FreshEvent(c, second);
  }

  lemma NotAcross(whole: string, q: nat, k: nat)
    requires q <= k < q + 4 && k < |whole| && whole[k] == 'x'
    ensures !OccursAt(whole, HEADER_DELIM, q)
  {
    if q + 4 <= |whole| {
      assert whole[q..q + 4][k - q] == 'x';
    }
  }

  lemma NotBeforeLine(text: string, line: string, q: nat)
    requires !Contains(text, HEADER_DELIM) && |line| > 0 && line[0] == 'x' && q <= |text|
    ensures !OccursAt(text + line, HEADER_DELIM, q)
  {
    if q + 4 <= |text| {
      FirstOccurrence(text, HEADER_DELIM, 0);
      OccursPrefix(text, line, HEADER_DELIM, q);
    } else {
      NotAcross(text + line, q, |text|);
    }
  }

  /** No empty line can run from text that holds none into a line that is not empty. */
  lemma LineAfter(text: string, line: string)
    requires !Contains(text, HEADER_DELIM) && |line| == 5 && line[0] == 'x' && line[1..] == HEADER_DELIM
    ensures IndexOf(text + line, HEADER_DELIM, 0) == Some(|text| + 1)
  {
    var whole, p := text + line, |text| + 1;
    assert whole[p..p + 4] == line[1..];
    forall q | 0 <= q < p ensures !OccursAt(whole, HEADER_DELIM, q) {
      NotBeforeLine(text, line, q);
    }
    IndexOfIs(whole, HEADER_DELIM, p);
  }

  /** A second request that was cut in its head: its lost bytes are missing from what is read. */
  lemma LostByte(c: Conn, second: string)
    requires second != "" && !Contains(second, HEADER_DELIM)
    ensures var third := "x" + HEADER_DELIM;
      Deliver(Fresh(c), third).conn.log != Deliver(Deliver(Fresh(c), second), third).conn.log
  {
    var third := "x" + HEADER_DELIM;
    FreshEvent(c, second);
    FreshEvent(c, third);
    TwoEvents(c, second, third);
    FreshEvent(c, second + third);
    assert third[1..] == HEADER_DELIM;
    LineAfter(second, third);
    FirstOccurrence("", HEADER_DELIM, 0);
    LineAfter("", third);
    assert "" + third == third;
    var a, b := ParseRequest(third), ParseRequest(second + third);
    assert a[0] != b[0];
    assert (c.log + a)[|c.log|] == a[0] && (c.log + b)[|c.log|] == b[0];
  }

  /** An event that completes no request and the next one are as good as one. */
  lemma TwoEvents(c: Conn, a: string, b: string)
    requires ParseRequest(a) == []
    ensures Deliver(Deliver(Fresh(c), a), b).conn == Deliver(Fresh(c), a + b).conn
  {
    DeliverIsFeed(Fresh(c), a);
    OutcomeTells(c, [a]);
    assert Flatten([a]) == a;
    assert FeedAll(Start(c), [a]) == Feed(Start(c), a);
    DeliverIsFeed(Deliver(Fresh(c), a), b);
    FeedTwice(Start(c), a, b);
    DeliverIsFeed(Fresh(c), a + b);
  }

  lemma EmptyEvent(c: Conn)
    ensures Deliver(Fresh(c), "") == Fresh(c)
  {
  }

  /** A fresh connection emits the head of what arrives, once it is complete. */
  lemma FreshEvent(c: Conn, stream: string)
    ensures Deliver(Fresh(c), stream).conn.log == c.log + ParseRequest(stream)
    ensures match Cut(stream, HEADER_DELIM)
      case None => ParseRequest(stream) == [] && !Contains(stream, HEADER_DELIM)
      case Some(Halves(head, _)) =>
        ParseRequest(stream) != [] && ParseRequest(stream)[0] == HeadText(head) && Contains(stream, HEADER_DELIM)
  {
    DeliverIsFeed(Fresh(c), stream);
    assert Start(c).buf + stream == stream;
    SettleHead(Start(c).(buf := stream));
  }
}
