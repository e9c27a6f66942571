/** The byte buffer of src/buffer.cc. */
module Buffers {
  import opened Search
  import opened Growth

  /** The total reported through `AdjustAmountOfExternalAllocatedMemory`. `overhead` stands
      for `sizeof(Buffer) + V8H_MEMORY_FIXED_SIZE`. */
  class MemoryMeter {
    const overhead: nat
    var adjusted: int
    // The live buffers and the reserve last reported for each.
    ghost var live: map<Buffer, nat>

    /** What was reported is what the live buffers occupy. */
    ghost predicate Balanced()
      reads this
    {
      adjusted == Occupied(overhead, live)
    }

    constructor (overhead: nat)
      ensures this.overhead == overhead && adjusted == 0 && live == map[] && Balanced()
    {
      this.overhead := overhead;
      adjusted, live := 0, map[];
    }

    /** `delta` is the adjustment that the event calls for. */
    ghost predicate Explains(e: MemoryEvent<Buffer>, delta: int)
      reads this
    {
      var l := Ledger(adjusted, live);
      Possible(l, e) && Account(overhead, l, e).adjusted == adjusted + delta
    }

    /** One adjustment. */
    method Adjust(delta: int, ghost e: MemoryEvent<Buffer>)
      modifies this
      ensures adjusted == old(adjusted) + delta
      ensures old(Explains(e, delta)) ==> live == old(Account(overhead, Ledger(adjusted, live), e)).live
      ensures old(Explains(e, delta) && Balanced()) ==> Balanced()
    {
      ghost var l := Ledger(adjusted, live);
      if Explains(e, delta) {
        if Balanced() {
          AccountKeepsBalance(overhead, l, e);
        }
        live := Account(overhead, l, e).live;
      }
      adjusted := adjusted + delta;
    }
  }

  /** A buffer and the marks JavaScript code leaves on it (`pushed`, `temporary`).
      `open` is false once `close` has deleted the native part. */
  class Buffer {
    const meter: MemoryMeter
    var data: array<char>
    var cursor: nat
    var size: nat
    var used: nat
    var reserve: nat
    var open: bool
    var pushed: bool
    var temporary: bool

    // The queue the buffer stands for: the bytes written and not yet consumed.
    ghost var content: string
    // The run so far, as far as growth is concerned.
    ghost const initial: nat
    ghost var demands: seq<nat>
    ghost var copied: nat

    ghost predicate Shaped()
      reads this
    {
      open && cursor + size == used <= reserve == data.Length && reserve >= 1
    }

    ghost predicate Valid()
      reads this, data
    {
      Shaped() && content == data[cursor..used]
    }

    /** The reserve and the bytes moved so far are those of the demands so far. Only `Prepare`
        touches any of them. */
    ghost predicate Accounted()
      reads `demands, `reserve, `copied
    {
      GrownBy(initial, demands, reserve, copied)
    }

    /** The meter knows this buffer with its present reserve. */
    ghost predicate Reported()
      reads `reserve, meter
    {
      this in meter.live && meter.live[this] == reserve
    }

    constructor (reserve: nat, meter: MemoryMeter)
      requires reserve >= 1
      modifies meter
      ensures Valid() && Accounted() && content == "" && fresh(data)
      ensures this.meter == meter && this.reserve == reserve == initial && demands == []
      ensures !pushed && !temporary
      ensures meter.adjusted == old(meter.adjusted) + (meter.overhead + reserve)
      ensures Reported() && meter.live == old(meter.live)[this := reserve]
      ensures old(meter.Balanced()) ==> meter.Balanced()
    {
      cursor, size, used, this.reserve := 0, 0, 0, reserve;
      data := new char[reserve];
      this.meter := meter;
      open, pushed, temporary := true, false, false;
      content, initial, demands, copied := "", reserve, [], 0;
      new;
      meter.Adjust(meter.overhead + reserve, Construct(this, reserve));
    }

    /** `close`: the destructor runs and the memory is given back. Closing twice is harmless. */
    method Close()
      modifies this`open, meter
      ensures !open
      ensures meter.adjusted == old(meter.adjusted) - (if old(open) then meter.overhead + reserve else 0)
      ensures old(open && Reported()) ==> meter.live == old(meter.live) - {this}
      ensures !old(open) ==> meter.live == old(meter.live)
      ensures old(meter.Balanced() && (open ==> Reported())) ==> meter.Balanced()
    {
      if open {
        meter.Adjust(-1 * (meter.overhead + reserve), Destroy(this));
        open := false;
      }
    }

    method Realloc(size: nat)
      requires reserve == data.Length <= size
      modifies this`data, this`reserve, this`copied, meter
      ensures fresh(data) && data.Length == reserve == size
      ensures data[..old(reserve)] == old(data[..])
      ensures copied == old(copied) + old(reserve)
      ensures meter.adjusted == old(meter.adjusted) + (size - old(reserve))
      ensures old(Reported()) ==> Reported() && meter.live == old(meter.live)[this := size]
      ensures old(Reported() && meter.Balanced()) ==> meter.Balanced()
    {
      meter.Adjust(size - reserve, Grow(this, size));
      var block := new char[size];
      forall i | 0 <= i < reserve {
        block[i] := data[i];
      }
      copied := copied + reserve;
      data, reserve := block, size;
    }

    /** The loop of `prepare`: triple until the demand fits. */
    method Target(demand: nat) returns (target: nat)
      requires reserve >= 1
      ensures target == Grown(reserve, demand)
    {
      target := reserve;
      while demand > target
        invariant target >= reserve
        invariant Grown(target, demand) == Grown(reserve, demand)
        decreases demand - target
      {
        target := target * 3;
      }
    }

    /** The block moves; the queue in it stays the same. */
    method Enlarge(target: nat)
      requires Valid() && target > reserve
      modifies this`data, this`reserve, this`copied, meter
      ensures Valid() && fresh(data) && reserve == target && copied == old(copied) + old(reserve)
      ensures old(Reported()) ==> Reported() && meter.live == old(meter.live)[this := reserve]
      ensures old(Reported() && meter.Balanced()) ==> meter.Balanced()
      ensures meter.adjusted == old(meter.adjusted) + (reserve - old(reserve))
    {
      ghost var before := data[..];
      Realloc(target);
      assert data[..old(reserve)] == before;
      assert data[cursor..used] == data[..old(reserve)][cursor..used] == before[cursor..used];
    }

    /** Make room for `n` bytes after the used part. */
    method Prepare(n: nat)
      requires Valid()
      modifies this`data, this`reserve, this`copied, this`demands, meter
      ensures Valid() && content == old(content)
      ensures data == old(data) || fresh(data)
      ensures used + n <= reserve
      ensures old(Accounted()) ==> Accounted()
      ensures old(Reported()) ==> Reported() && meter.live == old(meter.live)[this := reserve]
      ensures old(Reported() && meter.Balanced()) ==> meter.Balanced()
      ensures demands == old(demands) + [used + n]
      ensures reserve == Grown(old(reserve), used + n)
      ensures meter.adjusted == old(meter.adjusted) + (reserve - old(reserve))
    {
      if Accounted() {
        OneMoreDemand(initial, demands, reserve, copied, used + n);
      }
      var target := Target(used + n);
      demands := demands + [used + n];
      if target > reserve {
        Enlarge(target);
      }
    }

    /** Take over `n` bytes that were stored after the used part. */
    method Commit(n: nat)
      requires Valid()
      requires used + n <= reserve
      modifies this`size, this`used, this`content
      ensures Valid()
      ensures content == old(content) + data[old(used)..old(used) + n]
    {
      content := content + data[used..used + n];
      size, used := size + n, used + n;
    }

    /** Bytes arrive in the room after the used part; they do not count until committed. */
    method Store(bytes: string)
      requires Valid()
      requires used + |bytes| <= reserve
      modifies data
      ensures Valid()
      ensures data[used..used + |bytes|] == bytes
    {
      forall i | 0 <= i < |bytes| {
        data[used + i] := bytes[i];
      }
    }

    /** `write` from foreign memory. */
    method Write(bytes: string)
      requires Valid()
      modifies this`data, this`reserve, this`copied, this`demands, this`size, this`used, this`content, data, meter
      ensures Valid() && content == old(content) + bytes
      ensures old(Accounted()) ==> Accounted()
      ensures old(Reported()) ==> Reported() && meter.live == old(meter.live)[this := reserve]
      ensures old(Reported() && meter.Balanced()) ==> meter.Balanced()
      ensures data == old(data) || fresh(data)
      ensures demands == old(demands) + [old(used) + |bytes|]
      ensures reserve == Grown(old(reserve), old(used) + |bytes|)
      ensures meter.adjusted == old(meter.adjusted) + (reserve - old(reserve))
    {
      Prepare(|bytes|);
      Store(bytes);
      Commit(|bytes|);
    }

    /** `write_buffer`: append at most `n` bytes of another buffer, which keeps them. */
    method WriteBuffer(source: Buffer, n: nat)
      requires Valid() && source.Valid()
      requires source != this && source.data != data
      modifies this`data, this`reserve, this`copied, this`demands, this`size, this`used, this`content, data, meter
      ensures old(Accounted()) ==> Accounted()
      ensures old(Reported()) ==> Reported() && meter.live == old(meter.live)[this := reserve]
      ensures old(Reported() && meter.Balanced()) ==> meter.Balanced()
      ensures Valid() && source.Valid() && source.content == old(source.content)
      ensures content == old(content) + old(source.content)[..Min(n, source.size)]
      ensures data == old(data) || fresh(data)
    {
      var k := Min(n, source.size);
      var bytes := source.data[source.cursor..source.cursor + k];
      assert bytes == source.content[..k];
      Write(bytes);
    }

    method Clear()
      requires Shaped()
      modifies this`cursor, this`size, this`used, this`content
      ensures Valid() && content == "" && used == 0
    {
      cursor, size, used := 0, 0, 0;
      content := "";
    }

    /** Drop `n` bytes from the front; an emptied buffer starts over at the beginning. */
    method Consume(n: nat)
      requires Valid()
      modifies this`cursor, this`size, this`used, this`content
      ensures Valid()
      ensures content == old(content)[Min(n, old(size))..]
      ensures used == if n < old(size) then old(used) else 0
    {
      var k := Min(size, n);
      content := content[k..];
      cursor := cursor + k;
      size := size - k;
      if size == 0 {
        Clear();
      }
    }

    /** Move the contents to the beginning. The copy is as if through a temporary, as `memmove`. */
    method Sweep()
      requires Valid()
      modifies this`cursor, this`used, data
      ensures Valid() && content == old(content)
      ensures cursor == 0 && used == size
    {
      forall i | 0 <= i < size {
        data[i] := data[cursor + i];
      }
      cursor := 0;
      used := size;
    }

    function Remain(): (n: nat)
      requires Shaped()
      reads this
      ensures used + n == reserve
    {
      reserve - used
    }

    method PeekUtf8(count: nat) returns (text: string)
      requires Valid()
      ensures text == content[..Min(count, size)]
    {
      var n := Min(count, size);
      text := data[cursor..cursor + n];
    }

    /** Take `count` bytes from the front, or all there are. */
    method ReadUtf8(count: nat) returns (text: string)
      requires Valid()
      modifies this`cursor, this`size, this`used, this`content
      ensures Valid()
      ensures |text| == Min(count, old(size))
      ensures text + content == old(content)
    {
      var n := Min(count, size);
      text := data[cursor..cursor + n];
      assert n == size ==> text == content;
      Consume(n);
    }

    /** The search proper: the pointer moves to the offset. */
    method FindFrom(needle: string, offset: nat)
      returns (pos: nat, ghost tried: nat, ghost compared: nat)
      requires Valid() && needle != "" && offset <= size
      ensures var tail := content[offset..];
        && pos == Stop(tail, needle, 0)
        && tried == Tried(tail, 0, pos)
        && compared == Work(tail, needle, 0, tried)
    {
      var start, n := cursor + offset, size - offset;
      assert data[start..start + n] == content[offset..];
      pos, tried, compared := PartialFind(data, start, n, needle);
    }

    /** `Buffer::partial_find`: where the search for the needle from `offset` ends. The needle is
        given by the bytes of its buffer. */
    method FindPartial(needle: string, offset: nat)
      returns (pos: nat, ghost tried: nat, ghost compared: nat)
      requires Valid()
      ensures needle == "" ==> pos == offset
      ensures needle != "" ==>
        var from := Min(offset, size);
        && pos == Stop(content, needle, from)
        && tried == Tried(content, from, pos)
        && compared == Work(content[from..], needle, 0, tried)
    {
      if needle == "" {
        return offset, 0, 0;
      }
      if offset >= size {
        return size, 0, 0;
      }
      pos, tried, compared := FindFrom(needle, offset);
      SearchShift(content, needle, offset, pos, tried);
      pos := pos + offset;
    }

    /** `isFound`, the test that a search has met its needle. */
    predicate IsFound(last: nat, delimSize: nat)
      reads this
    {
      last + delimSize <= size
    }

    /** Every reserve a buffer ever has is amortised over the bytes it held. */
    lemma Amortised()
      requires Accounted()
      ensures 2 * copied + initial <= reserve
      ensures reserve == Grown(initial, Peak(demands))
      ensures reserve == initial || reserve <= 3 * Peak(demands) - 3
    {
      CopyingIsAmortised(initial, demands);
      ReserveFollowsPeak(initial, demands);
      ReserveBounded(initial, demands);
    }
  }
}
