/** What is sent when `end` is called: the buffer that requests are read into. */
module HttpRespond {
  import opened HttpReceive
  import opened HttpLive
  import opened HttpStale
  import Drain

  /** All bytes, in the order in which they get into the buffer. */
  function Mixed(steps: seq<Step>): string {
    if steps == [] then "" else steps[0].bytes + Mixed(steps[1..])
  }

  /** What the user wrote. */
  function Written(steps: seq<Step>): string {
    if steps == [] then ""
    else (if steps[0].Writes? then steps[0].bytes else "") + Written(steps[1..])
  }

  /** What arrived. */
  function Arrived(steps: seq<Step>): string {
    if steps == [] then ""
    else (if steps[0].Arrives? then steps[0].bytes else "") + Arrived(steps[1..])
  }

  lemma {:induction false} MixedIsWritten(steps: seq<Step>)
    ensures |Mixed(steps)| == |Written(steps)| + |Arrived(steps)|
    ensures Mixed(steps) == Written(steps) <==> Arrived(steps) == ""
  {
    if steps != [] {
      MixedIsWritten(steps[1..]);
    }
  }

  lemma OneMore(l: Live, steps: seq<Step>)
    requires Sound(l) && l.conn.status.Processing? && l.handler.On? && steps != [] && !Fires(l, steps)
    ensures var t := Take(l, steps[0]);
      && t.conn.status.Processing? && t.handler.On? && !Fires(t, steps[1..])
      && t.conn.buf == l.conn.buf + steps[0].bytes
  {
    if steps[0].Writes? {
      FiresAfterWrite(l, steps);
    } else {
      FiresAfterEvent(l, steps);
      StaleFires(l, steps[0].bytes);
    }
  }

  lemma Regroup(a: string, b: string, c: string)
    ensures (a + b) + c == a + (b + c)
  {
  }

  /** Unless the stale handler fires, everything stays in the buffer. */
  lemma {:induction false} BufferIsMixed(l: Live, steps: seq<Step>)
    requires Sound(l) && l.conn.status.Processing? && l.handler.On? && !Fires(l, steps)
    ensures var t := TakeAll(l, steps);
      t.conn.status.Processing? && t.conn.buf == l.conn.buf + Mixed(steps)
    decreases |steps|
  {
    if steps == [] {
      assert l.conn.buf + "" == l.conn.buf;
    } else {
      OneMore(l, steps);
      BufferIsMixed(Take(l, steps[0]), steps[1..]);
      Regroup(l.conn.buf, steps[0].bytes, Mixed(steps[1..]));
    }
  }

  /** The response to a request, whatever is written and arrives before `end`, unless the stale
      handler fires: what goes out is what was written, if and only if not a byte arrived. The
      bytes that did arrive go back to the client, in between. */
  lemma {:induction false} ResponseIsWhatWasWritten(
      s: Conn, chunks: seq<string>, steps: seq<Step>, script: seq<Drain.Send>, retries: nat)
    requires InTime(Fresh(s), chunks) && DeliverAll(Fresh(s), chunks).conn.status.Processing?
    requires !Fires(DeliverAll(Fresh(s), chunks), steps) && Drain.Legal(script)
    ensures var sent := Out(TakeAll(DeliverAll(Fresh(s), chunks), steps)).conn.buf;
      var w := Drain.Retries(Drain.Initial(sent, script, false), retries);
      && sent == Mixed(steps)
      && (sent == Written(steps) <==> Arrived(steps) == "")
      && w.wire + w.content == sent
      && (w.phase == Drain.Done ==> (w.wire == Written(steps) <==> Arrived(steps) == ""))
  {
    var t := DeliverAll(Fresh(s), chunks);
    ProcessLeaves(Fresh(s), chunks);
    BufferIsMixed(t, steps);
    MixedIsWritten(steps);
    var sent := Out(TakeAll(t, steps)).conn.buf;
    Drain.EveryRunIsSound(sent, script, false, retries);
  }
}
