/** The pool of reusable buffers, coffee/core/buffer.coffee. */
module Pool {
  import opened Buffers

  /** `held` names the buffers handed out and not given back: only their holders push them. */
  class BufferPool {
    const limit: nat
    const reserveLimit: nat
    const meter: MemoryMeter
    var buffers: seq<Buffer>
    ghost var held: set<Buffer>

    /** The buffers in the pool. */
    ghost predicate Stocked()
      reads this, buffers
    {
      && |buffers| <= limit + 1
      && (forall i, j :: 0 <= i < j < |buffers| ==> buffers[i] != buffers[j] && buffers[i].data != buffers[j].data)
      && (forall b :: b in buffers ==> b.Shaped() && b.pushed && b.reserve <= reserveLimit && b.meter == meter)
    }

    /** The buffers handed out; they share nothing with each other or with the pool. */
    ghost predicate Lent()
      reads this, buffers, held
    {
      && (forall b :: b in held ==> b.open && !b.pushed && b.meter == meter)
      && (forall a, b :: a in held && b in held && a != b ==> a.data != b.data)
      && (forall a, b :: a in held && b in buffers ==> a.data != b.data)
    }

    ghost predicate Valid()
      reads this, buffers, held
    {
      Stocked() && Lent()
    }

    /** The meter knows every buffer of the pool and its holders with its present reserve, and what
        it reported is what the live buffers occupy. */
    ghost predicate Accounted()
      reads this, buffers, held, meter
    {
      && meter.Balanced()
      && (forall b :: b in held ==> b in meter.live && meter.live[b] == b.reserve)
      && (forall b :: b in buffers ==> b in meter.live && meter.live[b] == b.reserve)
    }

    constructor (limit: nat, reserveLimit: nat, meter: MemoryMeter)
      ensures Valid() && buffers == [] && held == {}
      ensures this.limit == limit && this.reserveLimit == reserveLimit && this.meter == meter
    {
      this.limit, this.reserveLimit, this.meter := limit, reserveLimit, meter;
      buffers, held := [], {};
    }

    /** Give a buffer back. Pushing a pooled buffer again changes nothing. A buffer that was
        closed instead of pooled may be pushed again only while the pool is over its limit:
        otherwise `reserve` is asked of a buffer that no longer exists. */
    method Push(buffer: Buffer)
      requires Valid()
      requires buffer.pushed || buffer in held || (!buffer.open && |buffers| > limit)
      requires buffer in held ==> buffer.Valid()
      requires buffer.meter == meter
      modifies this, buffer`pushed, buffer`open, meter
      ensures Valid()
      ensures held == old(held) - {buffer}
      ensures old(Accounted()) ==> Accounted()
      ensures old(buffer.pushed) ==>
        && buffers == old(buffers) && buffer.pushed && buffer.open == old(buffer.open)
        && meter.adjusted == old(meter.adjusted)
      ensures !old(buffer.pushed) && (|old(buffers)| > limit || buffer.reserve > reserveLimit) ==>
        && buffers == old(buffers) && !buffer.open && !buffer.pushed
        && meter.adjusted == old(meter.adjusted) - (if old(buffer.open) then meter.overhead + buffer.reserve else 0)
      ensures !old(buffer.pushed) && !(|old(buffers)| > limit || buffer.reserve > reserveLimit) ==>
        buffers == old(buffers) + [buffer] && buffer.pushed && buffer.open && meter.adjusted == old(meter.adjusted)
    {
      held := held - {buffer};
      if buffer.pushed {
        return;
      }
      if |buffers| > limit || buffer.reserve > reserveLimit {
        Discard(buffer);
      } else {
        Keep(buffer);
      }
    }

    /** A buffer that nobody holds joins the pool. */
    method Keep(buffer: Buffer)
      requires Valid() && buffer !in held && buffer !in buffers && buffer.Shaped() && buffer.meter == meter
      requires |buffers| <= limit && buffer.reserve <= reserveLimit
      requires forall b :: b in held ==> b.data != buffer.data
      requires forall b :: b in buffers ==> b.data != buffer.data
      modifies this`buffers, buffer`pushed
      ensures Valid() && buffers == old(buffers) + [buffer] && buffer.pushed
      ensures old(Accounted() && buffer.Reported()) ==> Accounted()
    {
      buffer.pushed := true;
      buffers := buffers + [buffer];
    }

    /** A buffer that nobody holds is closed. */
    method Discard(buffer: Buffer)
      requires Valid() && buffer !in held && buffer !in buffers && buffer.meter == meter
      modifies buffer`open, meter
      ensures Valid() && !buffer.open
      ensures meter.adjusted == old(meter.adjusted) - (if old(buffer.open) then meter.overhead + buffer.reserve else 0)
      ensures old(Accounted() && (buffer.open ==> buffer.Reported())) ==> Accounted()
    {
      buffer.Close();
    }

    /** The last pooled buffer leaves the pool. */
    method TakeLast() returns (buffer: Buffer)
      requires Valid() && buffers != []
      modifies this`buffers
      ensures Valid()
      ensures buffer == old(buffers)[|old(buffers)| - 1] && buffers == old(buffers)[..|old(buffers)| - 1]
      ensures buffer !in buffers && buffer !in held
      ensures forall b :: b in held ==> b.data != buffer.data
      ensures forall b :: b in buffers ==> b.data != buffer.data
    {
      var n := |buffers| - 1;
      buffer := buffers[n];
      assert forall b :: b in buffers[..n] ==> b in buffers;
      buffers := buffers[..n];
    }

    /** A buffer that nobody holds is unmarked and emptied. */
    method Empty(buffer: Buffer)
      requires Valid() && buffer !in held && buffer !in buffers && buffer.Shaped()
      modifies buffer`pushed, buffer`cursor, buffer`size, buffer`used, buffer`content
      ensures Valid() && (old(Accounted()) ==> Accounted())
      ensures buffer.Valid() && buffer.content == "" && !buffer.pushed
    {
      buffer.pushed := false;
      buffer.Clear();
    }

    /** It is handed out. */
    ghost method Hold(buffer: Buffer)
      requires Valid() && buffer !in held && buffer.open && !buffer.pushed && buffer.meter == meter
      requires forall b :: b in held ==> b.data != buffer.data
      requires forall b :: b in buffers ==> b.data != buffer.data
      modifies this`held
      ensures Valid() && held == old(held) + {buffer}
    {
      held := held + {buffer};
    }

    method PopLast() returns (buffer: Buffer)
      requires Valid() && buffers != []
      modifies this, buffers
      ensures Valid() && (old(Accounted()) ==> Accounted())
      ensures buffer !in old(held) && buffer !in buffers && held == old(held) + {buffer}
      ensures buffer.Valid() && buffer.content == "" && !buffer.pushed && buffer.meter == meter
      ensures buffer in old(buffers) && buffer.data == old(buffer.data)
      ensures buffer == old(buffers)[|old(buffers)| - 1] && buffers == old(buffers)[..|old(buffers)| - 1]
    {
      buffer := TakeLast();
      Empty(buffer);
      Hold(buffer);
    }

    /** Take a buffer: empty, open, and no one else's. Only a new one is reported. */
    method Pop() returns (buffer: Buffer)
      requires Valid()
      modifies this, buffers, meter
      ensures Valid() && (old(Accounted()) ==> Accounted())
      ensures (buffer in old(buffers) && buffer.data == old(buffer.data)) || (fresh(buffer) && fresh(buffer.data))
      ensures buffer !in old(held) && buffer !in buffers && held == old(held) + {buffer}
      ensures buffer.Valid() && buffer.content == "" && !buffer.pushed && buffer.meter == meter
      ensures old(buffers) != [] ==>
        && buffer == old(buffers)[|old(buffers)| - 1] && buffers == old(buffers)[..|old(buffers)| - 1]
        && meter.adjusted == old(meter.adjusted)
      ensures old(buffers) == [] ==>
        && fresh(buffer) && fresh(buffer.data) && buffer.reserve == 512 && buffers == []
        && meter.adjusted == old(meter.adjusted) + (meter.overhead + 512)
    {
      if |buffers| > 0 {
        buffer := PopLast();
      } else {
        buffer := new Buffer(512, meter);
        held := held + {buffer};
      }
    }
  }
}
