/** Reading from a socket into a buffer: `Socket::_read_buffer` of src/socket.cc and
    `readToken` of coffee/core/socket.coffee. */
module SocketRead {
  import opened Search
  import opened Text
  import opened Buffers

  const READ_SIZE := 8192

  /** What `recv` has to offer: some bytes, the end of the stream, or an error. */
  datatype Recv = Data(bytes: string) | Shutdown | Failed

  /** `_read_buffer`: room for at least 8192 bytes is made and filled as far as it goes. */
  method ReadBuffer(buffer: Buffer, r: Recv) returns (n: int)
    requires buffer.Valid()
    requires r.Data? ==> r.bytes != ""
    modifies buffer`data, buffer`reserve, buffer`copied, buffer`demands, buffer`size, buffer`used, buffer`content
    modifies buffer.data, buffer.meter
    ensures buffer.Valid()
    ensures buffer.data == old(buffer.data) || fresh(buffer.data)
    ensures old(buffer.Accounted()) ==> buffer.Accounted()
    ensures old(buffer.Reported() && buffer.meter.Balanced()) ==> buffer.Reported() && buffer.meter.Balanced()
    ensures n == -1 <==> !r.Data?
    ensures n == -1 ==> buffer.content == old(buffer.content)
    ensures n != -1 ==>
      && Min(|r.bytes|, READ_SIZE) <= n <= |r.bytes| && 0 < n
      && buffer.content == old(buffer.content) + r.bytes[..n]
  {
    buffer.Prepare(READ_SIZE);
    match r
    case Data(bytes) =>
      var room := buffer.Remain();
      n := Min(|bytes|, room);
      buffer.Store(bytes[..n]);
      buffer.Commit(n);
    case _ =>
      n := -1;
  }

  /** What the condition closure of `readToken` does with the `last` it captured: search on, and
      see whether the search met the token. */
  method TokenCondition(buffer: Buffer, token: string, last: nat)
    returns (pos: nat, found: bool, ghost tried: nat, ghost compared: nat)
    requires buffer.Valid() && token != ""
    ensures var from := Min(last, buffer.size);
      && pos == Stop(buffer.content, token, from)
      && tried == Tried(buffer.content, from, pos)
      && compared == Work(buffer.content[from..], token, 0, tried)
    ensures found <==> pos + |token| <= buffer.size
  {
    pos, tried, compared := buffer.FindPartial(token, last);
    found := buffer.IsFound(pos, |token|);
  }

  /** The condition closure of `readToken`: it keeps `last` from one readable event to the next.
      `calls`, `tried` and `compared` count its calls, the positions they tried and the bytes
      they compared. */
  class TokenWait {
    const buffer: Buffer
    const token: string
    var last: nat
    ghost var calls: nat
    ghost var tried: nat
    ghost var compared: nat

    ghost predicate Valid()
      reads this, buffer, buffer.data
    {
      && buffer.Valid() && token != ""
      && last <= buffer.size && Skipped(buffer.content, token, 0, last)
      && tried <= last + calls
      && compared <= tried * |token|
    }

    /** `deli` is the delimiter buffer; nobody writes to it while it is searched for. */
    constructor (buffer: Buffer, deli: Buffer)
      requires buffer.Valid() && deli.Valid() && deli.content != ""
      ensures Valid() && last == 0 && calls == 0
      ensures this.buffer == buffer && token == deli.content
    {
      this.buffer := buffer;
      token := deli.data[deli.cursor..deli.cursor + deli.size];
      last := 0;
      calls, tried, compared := 0, 0, 0;
    }

    /** One evaluation of the condition. It holds just when the token is there, and then `last`
        is where the token starts first. */
    method Condition() returns (found: bool)
      requires Valid()
      modifies this`last, this`calls, this`tried, this`compared
      ensures Valid() && calls == old(calls) + 1
      ensures last == Stop(buffer.content, token, old(last))
      ensures found <==> last + |token| <= buffer.size
      ensures IndexOf(buffer.content, token, 0) == if found then Some(last) else None
    {
      var pos, met, positions, bytes := TokenCondition(buffer, token, last);
      assert Min(last, buffer.size) == last;
      SearchStep(buffer.content, token, last, pos, positions, bytes);
      Account(tried, compared, positions, bytes, |token|);
      tried, compared, calls := tried + positions, compared + bytes, calls + 1;
      last, found := pos, met;
    }

    /** Resumption bounds the work: after `k` calls on a buffer of `N` bytes at most `N + k`
        positions were tried and `(N + k) * |token|` bytes compared. */
    lemma WorkIsLinear()
      requires Valid()
      ensures tried <= buffer.size + calls
      ensures compared <= (buffer.size + calls) * |token|
    {
      Monotone(tried, buffer.size + calls, |token|);
    }
  }

  /** A search resumed at `last` ends where a search from the start would, tries each position
      it passes once, and compares at most the token's length at each. */
  lemma SearchStep(hay: string, token: string, last: nat, pos: nat, positions: nat, bytes: nat)
    requires last <= |hay| && Skipped(hay, token, 0, last)
    requires pos == Stop(hay, token, last)
    requires positions == Tried(hay, last, pos) && bytes == Work(hay[last..], token, 0, positions)
    ensures IsStop(hay, token, 0, pos)
    ensures IndexOf(hay, token, 0) == if pos + |token| <= |hay| then Some(pos) else None
    ensures positions <= pos - last + 1
    ensures bytes <= positions * |token|
  {
    assert IsStop(hay, token, 0, pos);
    StopUnique(hay, token, 0, pos);
    StopFindsFirst(hay, token, 0);
    WorkBound(hay[last..], token, 0, positions);
  }

  lemma Distribute(a: nat, b: nat, c: nat)
    ensures (a + b) * c == a * c + b * c
  {
  }

  lemma Account(tried: nat, compared: nat, positions: nat, bytes: nat, k: nat)
    requires compared <= tried * k && bytes <= positions * k
    ensures compared + bytes <= (tried + positions) * k
  {
    Distribute(tried, positions, k);
  }

  lemma Monotone(a: nat, b: nat, c: nat)
    requires a <= b
    ensures a * c <= b * c
  {
  }

  /** The outcome of one readable event. */
  datatype Readable = Error | Pending | Found(n: nat)

  /** The `$in` handler that `readToken` installs through `readUntil`. */
  method OnReadable(wait: TokenWait, r: Recv) returns (outcome: Readable, n: int)
    requires wait.Valid()
    requires r.Data? ==> r.bytes != ""
    modifies wait, wait.buffer, wait.buffer.data, wait.buffer.meter
    ensures wait.Valid()
    ensures wait.buffer.data == old(wait.buffer.data) || fresh(wait.buffer.data)
    ensures n == -1 <==> !r.Data?
    ensures n == -1 ==> outcome == Error && wait.buffer.content == old(wait.buffer.content)
    ensures n != -1 ==>
      && 0 < n <= |r.bytes| && wait.buffer.content == old(wait.buffer.content) + r.bytes[..n]
      && outcome == match IndexOf(wait.buffer.content, wait.token, 0)
                    case None => Pending
                    case Some(p) => Found(p + |wait.token|)
  {
    ghost var before := wait.buffer.content;
    n := ReadBuffer(wait.buffer, r);
    if n == -1 {
      return Error, n;
    }
    SkippedStays(before, r.bytes[..n], wait.token, 0, wait.last);
    var found := wait.Condition();
    outcome := if found then Found(wait.last + |wait.token|) else Pending;
  }

  // ---- the work of a whole wait, on values ----

  /** Positions tried by one wait for `token` as `chunks` arrive one by one. */
  ghost function TotalTried(buf: string, last: nat, chunks: seq<string>, token: string): nat
    requires last <= |buf|
    decreases |chunks|
  {
    if chunks == [] then 0
    else
      var seen := buf + chunks[0];
      var p := Stop(seen, token, last);
      Tried(seen, last, p) + TotalTried(seen, p, chunks[1..], token)
  }

  ghost function TotalCompared(buf: string, last: nat, chunks: seq<string>, token: string): nat
    requires last <= |buf|
    decreases |chunks|
  {
    if chunks == [] then 0
    else
      var seen := buf + chunks[0];
      var p := Stop(seen, token, last);
      Work(seen[last..], token, 0, Tried(seen, last, p)) + TotalCompared(seen, p, chunks[1..], token)
  }

  lemma {:induction false} TriedIsLinear(buf: string, last: nat, chunks: seq<string>, token: string)
    requires last <= |buf|
    ensures TotalTried(buf, last, chunks, token) <= |buf| + |Flatten(chunks)| - last + |chunks|
    decreases |chunks|
  {
    if chunks != [] {
      var seen := buf + chunks[0];
      var p := Stop(seen, token, last);
      TriedIsLinear(seen, p, chunks[1..], token);
    }
  }

  /** However small the chunks, a wait is linear in the bytes received plus the number of checks. */
  lemma {:induction false} WaitIsLinear(buf: string, last: nat, chunks: seq<string>, token: string)
    requires last <= |buf|
    ensures TotalTried(buf, last, chunks, token) <= |buf| + |Flatten(chunks)| - last + |chunks|
    ensures TotalCompared(buf, last, chunks, token) <= TotalTried(buf, last, chunks, token) * |token|
    decreases |chunks|
  {
    TriedIsLinear(buf, last, chunks, token);
    if chunks != [] {
      var seen, rest := buf + chunks[0], chunks[1..];
      var p := Stop(seen, token, last);
      var t := Tried(seen, last, p);
      WaitIsLinear(seen, p, rest, token);
      WorkBound(seen[last..], token, 0, t);
      Account(t, Work(seen[last..], token, 0, t), TotalTried(seen, p, rest, token),
              TotalCompared(seen, p, rest, token), |token|);
    }
  }
}
