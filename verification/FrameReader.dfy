/** `readToken` and `readUtf8` in turn, as they run: each callback takes its piece and waits for the
    next token. */
module FrameReader {
  import opened Search
  import opened Buffers
  import opened SocketRead
  import opened Framing

  class Reader {
    const buffer: Buffer
    const token: string
    var last: nat
    var pieces: seq<string>

    ghost function Abs(): Framer
      reads this, buffer
    {
      Framer(buffer.content, last, pieces)
    }

    ghost predicate Valid()
      reads this, buffer, buffer.data
    {
      buffer.Valid() && token != "" && LastValid(Abs(), token)
    }

    constructor (buffer: Buffer, token: string)
      requires buffer.Valid() && buffer.content == "" && token != ""
      ensures Valid() && Abs() == FeedAll([], token)
      ensures this.buffer == buffer && this.token == token
    {
      this.buffer, this.token := buffer, token;
      last, pieces := 0, [];
    }

    /** Test the condition, and call back if it holds. */
    method Check()
      requires Valid()
      modifies this`last, this`pieces, buffer`cursor, buffer`size, buffer`used, buffer`content
      ensures Valid() && Abs() == Settle(old(Abs()), token)
      decreases buffer.size, 1
    {
      ghost var f := Abs();
      SearchFromLast(f, token);
      var pos, found, _, _ := TokenCondition(buffer, token, last);
      last := pos;
      if found {
        Taken(pos + |token|);
      }
    }

    /** The callback: take the piece and wait for the next token. */
    method Taken(n: nat)
      requires buffer.Valid() && token != "" && |token| <= n <= buffer.size
      modifies this`last, this`pieces, buffer`cursor, buffer`size, buffer`used, buffer`content
      ensures Valid()
      ensures var f := Framer(old(buffer.content)[n..], 0, old(pieces) + [old(buffer.content)[..n]]);
        LastValid(f, token) && Abs() == Settle(f, token)
      decreases buffer.size, 0
    {
      ghost var before := buffer.content;
      var piece := buffer.ReadUtf8(n);
      assert piece == before[..n] && buffer.content == before[n..];
      pieces := pieces + [piece];
      last := 0;
      Check();
    }

    /** One readable event. */
    method OnReadable(r: Recv) returns (n: int)
      requires Valid()
      requires r.Data? ==> r.bytes != ""
      modifies this, buffer, buffer.data, buffer.meter
      ensures Valid()
      ensures n == -1 <==> !r.Data?
      ensures n == -1 ==> Abs() == old(Abs())
      ensures n != -1 ==>
        0 < n <= |r.bytes| && LastValid(old(Abs()), token) && Abs() == Feed(old(Abs()), r.bytes[..n], token)
    {
      ghost var f := Abs();
      n := ReadBuffer(buffer, r);
      if n != -1 {
        SkippedStays(f.buf, r.bytes[..n], token, 0, f.last);
        Check();
      }
    }
  }
}
