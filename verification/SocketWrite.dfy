/** The write side as it runs: `Socket::_write_buffer`, `Socket.writeBuffer` and
    `Socket.writeUtf8`, on a buffer that may have to go back to the pool. */
module SocketWrite {
  import opened Search
  import opened Buffers
  import opened Pool
  import Drain

  /** One message being written to one descriptor. `script` is what `send` will answer. */
  class Writer {
    const pool: BufferPool
    const buffer: Buffer
    var wire: string
    var script: seq<Drain.Send>
    var phase: Drain.Phase
    var callbacks: nat
    var errors: nat
    var released: nat
    // The bytes not sent; once the buffer is back in the pool it is no longer ours to look at.
    ghost var left: string

    ghost predicate Valid()
      reads this, pool, pool.buffers, pool.held, buffer, buffer.data
    {
      && pool.Valid() && buffer.meter == pool.meter
      && Drain.Legal(script)
      && (phase == Drain.Retrying ==>
            buffer.Valid() && left == buffer.content && (buffer.temporary ==> buffer in pool.held))
    }

    ghost function Abs(): Drain.Writing
      reads this, buffer
    {
      Drain.Writing(left, wire, script, phase, phase == Drain.Retrying && buffer.temporary,
                    callbacks, errors, released)
    }

    /** A message in `buffer` is about to be written. A temporary buffer is held for the writer. */
    constructor (pool: BufferPool, buffer: Buffer, script: seq<Drain.Send>)
      requires pool.Valid() && buffer.Valid() && buffer.meter == pool.meter
      requires buffer.temporary ==> buffer in pool.held
      requires Drain.Legal(script)
      ensures Valid() && Abs() == Drain.Initial(buffer.content, script, buffer.temporary)
      ensures this.pool == pool && this.buffer == buffer
    {
      this.pool, this.buffer, this.script := pool, buffer, script;
      wire, left, phase := "", buffer.content, Drain.Retrying;
      callbacks, errors, released := 0, 0, 0;
    }

    /** `send` took up to `k` bytes from the front of the buffer. */
    method Taken(k: nat) returns (n: nat)
      requires buffer.Valid()
      modifies this`wire, buffer`cursor, buffer`size, buffer`used, buffer`content
      ensures buffer.Valid() && n == Min(k, |old(buffer.content)|)
      ensures wire == old(wire) + old(buffer.content)[..n] && buffer.content == old(buffer.content)[n..]
    {
      n := Min(k, buffer.size);
      var bytes := buffer.PeekUtf8(n);
      wire := wire + bytes;
      buffer.Consume(n);
    }

    /** `_write_buffer`: the send loop. */
    method SendAll() returns (n: int)
      requires buffer.Valid() && Drain.Legal(script)
      modifies this`wire, this`script, buffer`cursor, buffer`size, buffer`used, buffer`content
      ensures buffer.Valid() && Drain.Legal(script)
      ensures Drain.Burst(buffer.content, wire, script, n) == old(Drain.SendLoop(buffer.content, wire, script, 0))
    {
      n := 0;
      ghost var whole := Drain.SendLoop(buffer.content, wire, script, 0);
      while buffer.size > 0
        invariant buffer.Valid() && Drain.Legal(script)
        invariant Drain.SendLoop(buffer.content, wire, script, n) == whole
        decreases |script|
      {
        if script == [] {
          return 0;
        }
        var answer := script[0];
        script := script[1..];
        match answer
        case Sent(k) =>
          n := Taken(k);
        case Again =>
          return 0;
        case Failed =>
          return -1;
      }
    }

    /** The send loop, seen with the pool: nothing there changes. */
    method SendWhatFits() returns (n: int)
      requires Valid() && phase == Drain.Retrying
      modifies this`wire, this`script, this`left, buffer`cursor, buffer`size, buffer`used, buffer`content
      ensures Valid() && (old(pool.Accounted()) ==> pool.Accounted())
      ensures Drain.Burst(left, wire, script, n) == old(Drain.SendLoop(left, wire, script, 0))
    {
      n := SendAll();
      left := buffer.content;
    }

    /** A temporary buffer goes back to the pool. */
    method Release()
      requires pool.Valid() && buffer.Valid() && buffer.meter == pool.meter
      requires buffer.temporary ==> buffer in pool.held
      modifies this`released, buffer`temporary, buffer`pushed, buffer`open, pool, pool.meter
      ensures pool.Valid() && !buffer.temporary
      ensures old(pool.Accounted()) ==> pool.Accounted()
      ensures pool.held == if old(buffer.temporary) then old(pool.held) - {buffer} else old(pool.held)
      ensures released == old(released) + if old(buffer.temporary) then 1 else 0
    {
      if buffer.temporary {
        buffer.temporary := false;
        pool.Push(buffer);
        released := released + 1;
      }
    }

    /** `writeBuffer`. */
    method WriteBuffer()
      requires Valid() && phase == Drain.Retrying
      modifies this, buffer, pool, pool.meter
      ensures Valid() && Abs() == Drain.WriteBuffer(old(Abs()))
      ensures old(pool.Accounted()) ==> pool.Accounted()
      ensures pool.held ==
        if phase != Drain.Retrying && old(buffer.temporary) then old(pool.held) - {buffer} else old(pool.held)
    {
      ghost var t := Drain.WriteBuffer(Abs());
      var n := SendWhatFits();
      assert left == t.content && wire == t.wire && script == t.script;
      if n == -1 || buffer.size == 0 {
        Finish();
      }
      Same(Abs(), t);
    }

    /** The write ends: the callback, or the error trigger if bytes are left. */
    method Finish()
      requires Valid() && phase == Drain.Retrying
      modifies this`phase, this`callbacks, this`errors, this`released, buffer`temporary, buffer`pushed, buffer`open
      modifies pool, pool.meter
      ensures Valid()
      ensures old(pool.Accounted()) ==> pool.Accounted()
      ensures Abs() == old(Abs()).(
        temporary := false,
        released := old(released) + (if old(buffer.temporary) then 1 else 0),
        phase := if left == "" then Drain.Done else Drain.Errored,
        callbacks := old(callbacks) + (if left == "" then 1 else 0),
        errors := old(errors) + (if left == "" then 0 else 1))
      ensures pool.held == if old(buffer.temporary) then old(pool.held) - {buffer} else old(pool.held)
    {
      var size := buffer.size;
      Release();
      if size == 0 {
        phase, callbacks := Drain.Done, callbacks + 1;
      } else {
        phase, errors := Drain.Errored, errors + 1;
      }
    }

    /** The `$out` handler: it retries until the message is done. */
    method OnWritable()
      requires Valid()
      modifies this, buffer, pool, pool.meter
      ensures Valid() && Abs() == Drain.OnWritable(old(Abs()))
      ensures old(pool.Accounted()) ==> pool.Accounted()
      ensures pool.held ==
        if phase != Drain.Retrying && old(phase == Drain.Retrying && buffer.temporary)
        then old(pool.held) - {buffer} else old(pool.held)
    {
      if phase == Drain.Retrying {
        WriteBuffer();
      }
    }
  }

  lemma Same(a: Drain.Writing, b: Drain.Writing)
    requires a.content == b.content && a.wire == b.wire && a.script == b.script && a.phase == b.phase
    requires a.temporary == b.temporary && a.callbacks == b.callbacks
    requires a.errors == b.errors && a.released == b.released
    ensures a == b
  {
  }

  /** A held buffer is written to. Nothing else in the pool's story is touched: the block is the
      buffer's own, or a new one. */
  method Fill(pool: BufferPool, buffer: Buffer, text: string)
    requires pool.Valid() && buffer.Valid() && buffer in pool.held
    modifies buffer`data, buffer`reserve, buffer`copied, buffer`demands, buffer`size, buffer`used, buffer`content
    modifies buffer.data, pool.meter
    ensures pool.Valid() && buffer.Valid() && buffer.content == old(buffer.content) + text
    ensures old(pool.Accounted()) ==> pool.Accounted()
  {
    assert buffer !in pool.buffers;
    buffer.Write(text);
  }

  method Mark(pool: BufferPool, buffer: Buffer)
    requires pool.Valid() && buffer.Valid() && buffer in pool.held
    modifies buffer`temporary
    ensures pool.Valid() && buffer.Valid() && buffer.temporary
    ensures old(pool.Accounted()) ==> pool.Accounted()
  {
    buffer.temporary := true;
  }

  /** `writeUtf8`: a buffer from the pool is filled and marked as temporary. */
  method TakeTemporary(pool: BufferPool, text: string) returns (buffer: Buffer)
    requires pool.Valid()
    modifies pool, pool.buffers, pool.meter, set b | b in pool.buffers :: b.data
    ensures pool.Valid() && (old(pool.Accounted()) ==> pool.Accounted())
    ensures buffer.Valid() && buffer.content == text && buffer.temporary && buffer.meter == pool.meter
    ensures buffer in old(pool.buffers) || fresh(buffer)
    ensures buffer !in old(pool.held) && pool.held == old(pool.held) + {buffer}
  {
    buffer := pool.Pop();
    Fill(pool, buffer, text);
    Mark(pool, buffer);
    assert "" + text == text;
  }

  method Begin(pool: BufferPool, text: string, script: seq<Drain.Send>) returns (w: Writer)
    requires pool.Valid() && Drain.Legal(script)
    modifies pool, pool.buffers, pool.meter, set b | b in pool.buffers :: b.data
    ensures fresh(w) && w.Valid() && w.pool == pool && (old(pool.Accounted()) ==> pool.Accounted())
    ensures w.buffer in old(pool.buffers) || fresh(w.buffer)
    ensures w.buffer !in old(pool.held) && pool.held == old(pool.held) + {w.buffer}
    ensures w.Abs() == Drain.Retries(Drain.Initial(text, script, true), 0)
    ensures w.phase == Drain.Retrying && w.buffer.temporary
  {
    var buffer := TakeTemporary(pool, text);
    w := new Writer(pool, buffer, script);
  }

  /** `writeUtf8` from beginning to end: the first attempt, and one more each time the socket
      becomes writable. The pool is owed one buffer until the write ends and none afterwards. */
  method WriteUtf8(pool: BufferPool, text: string, script: seq<Drain.Send>, events: nat) returns (w: Writer)
    requires pool.Valid() && Drain.Legal(script)
    modifies pool, pool.buffers, pool.meter, set b | b in pool.buffers :: b.data
    ensures w.Valid() && w.pool == pool && w.buffer !in old(pool.held)
    ensures old(pool.Accounted()) ==> pool.Accounted()
    ensures w.Abs() == Drain.Retries(Drain.Initial(text, script, true), events + 1)
    ensures Drain.Sound(w.Abs(), text, true)
    ensures pool.held == if w.phase == Drain.Retrying then old(pool.held) + {w.buffer} else old(pool.held)
  {
    w := Begin(pool, text, script);
    Drain.EveryRunIsSound(text, script, true, events + 1);
    w.WriteBuffer();
    Retry(w, Drain.Initial(text, script, true), events);
  }

  /** The socket becomes writable `events` times after the first attempt. */
  method Retry(w: Writer, ghost start: Drain.Writing, events: nat)
    requires w.Valid() && Drain.Legal(start.script) && w.Abs() == Drain.Retries(start, 1)
    modifies w, w.buffer, w.pool, w.pool.meter
    ensures w.Valid() && w.Abs() == Drain.Retries(start, events + 1)
    ensures old(w.pool.Accounted()) ==> w.pool.Accounted()
    ensures w.pool.held ==
      if w.phase != Drain.Retrying && old(w.phase == Drain.Retrying && w.buffer.temporary)
      then old(w.pool.held) - {w.buffer} else old(w.pool.held)
  {
    var i := 0;
    while i < events
      invariant 0 <= i <= events
      invariant w.Valid() && w.Abs() == Drain.Retries(start, i + 1)
      invariant old(w.pool.Accounted()) ==> w.pool.Accounted()
      invariant w.phase == Drain.Retrying ==> old(w.phase == Drain.Retrying) && w.buffer.temporary == old(w.buffer.temporary)
      invariant w.pool.held ==
        if w.phase != Drain.Retrying && old(w.phase == Drain.Retrying && w.buffer.temporary)
        then old(w.pool.held) - {w.buffer} else old(w.pool.held)
    {
      w.OnWritable();
      i := i + 1;
    }
  }
}
