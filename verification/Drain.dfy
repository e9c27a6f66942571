/** Writing a buffer out: `Socket::_write_buffer` of src/socket.cc and `writeBuffer` of
    coffee/core/socket.coffee, as functions on values. */
module Drain {
  import opened Search

  /** One answer of `send`. `Sent(n)`: the kernel would take `n` more bytes; asked to send
      something it never takes none. `Again`: `EAGAIN`. */
  datatype Send = Sent(n: nat) | Again | Failed

  predicate Legal(script: seq<Send>) {
    forall i :: 0 <= i < |script| && script[i].Sent? ==> script[i].n > 0
  }

  /** `Retrying`: the `$out` handler will try again. */
  datatype Phase = Retrying | Done | Errored

  /** A message on its way out. `script` is how the kernel will answer from here on; when it is
      used up the socket stays full. `callbacks`, `errors` and `released` count the completion
      callback, the error trigger and the returns of a temporary buffer to the pool. */
  datatype Writing = Writing(
    content: string, wire: string, script: seq<Send>, phase: Phase,
    temporary: bool, callbacks: nat, errors: nat, released: nat)

  /** The result of `_write_buffer`: -1 for a failed send, 0 when the socket was full. */
  datatype Burst = Burst(content: string, wire: string, script: seq<Send>, n: int)

  /** The send loop. */
  function SendLoop(content: string, wire: string, script: seq<Send>, n: int): (b: Burst)
    requires Legal(script)
    ensures Legal(b.script)
    decreases |script|
  {
    if content == "" then Burst(content, wire, script, n)
    else if script == [] then Burst(content, wire, script, 0)
    else match script[0]
      case Sent(k) =>
        var m := Min(k, |content|);
        SendLoop(content[m..], wire + content[..m], script[1..], m)
      case Again => Burst(content, wire, script[1..], 0)
      case Failed => Burst(content, wire, script[1..], -1)
  }

  /** `writeBuffer`: send what can be sent, then finish or leave a handler that tries again. */
  function WriteBuffer(s: Writing): (t: Writing)
    requires Legal(s.script)
    ensures Legal(t.script)
  {
    var b := SendLoop(s.content, s.wire, s.script, 0);
    var sent := s.(content := b.content, wire := b.wire, script := b.script);
    if b.n == -1 || b.content == "" then
      sent.(temporary := false,
            released := s.released + (if s.temporary then 1 else 0),
            phase := if b.content == "" then Done else Errored,
            callbacks := s.callbacks + (if b.content == "" then 1 else 0),
            errors := s.errors + (if b.content == "" then 0 else 1))
    else sent.(phase := Retrying)
  }

  /** The socket became writable: only a retrying handler does anything. */
  function OnWritable(s: Writing): (t: Writing)
    requires Legal(s.script)
    ensures Legal(t.script)
  {
    if s.phase == Retrying then WriteBuffer(s) else s
  }

  function Retries(s: Writing, k: nat): (t: Writing)
    requires Legal(s.script)
    ensures Legal(t.script)
  {
    if k == 0 then s else OnWritable(Retries(s, k - 1))
  }

  function Initial(message: string, script: seq<Send>, temporary: bool): Writing {
    Writing(message, "", script, Retrying, temporary, 0, 0, 0)
  }

  // ---- safety of every run ----

  /** Nothing is lost, repeated or reordered, and each ending happens once and alone. */
  predicate Sound(s: Writing, message: string, temporary: bool) {
    && s.wire + s.content == message
    && s.callbacks == (if s.phase == Done then 1 else 0)
    && s.errors == (if s.phase == Errored then 1 else 0)
    && s.released == (if temporary && s.phase != Retrying then 1 else 0)
    && s.temporary == (temporary && s.phase == Retrying)
    && (s.phase == Done ==> s.wire == message)
    && (s.phase == Errored ==> s.content != "")
  }

  lemma {:induction false} SendLoopConserves(content: string, wire: string, script: seq<Send>, n: int)
    requires Legal(script) && n >= 0
    ensures var b := SendLoop(content, wire, script, n);
      b.wire + b.content == wire + content && (b.n == -1 ==> b.content != "")
    decreases |script|
  {
    if content != "" && script != [] && script[0].Sent? {
      var m := Min(script[0].n, |content|);
      SendLoopConserves(content[m..], wire + content[..m], script[1..], m);
      assert wire + content[..m] + content[m..] == wire + content;
    }
  }

  lemma OnWritableKeepsSound(s: Writing, message: string, temporary: bool)
    requires Legal(s.script) && Sound(s, message, temporary)
    ensures Sound(OnWritable(s), message, temporary)
  {
    if s.phase == Retrying {
      SendLoopConserves(s.content, s.wire, s.script, 0);
      var t := OnWritable(s);
      if t.content == "" {
        assert t.wire == t.wire + t.content;
      }
    }
  }

  /** Through any run of partial sends, full sockets and retries: the wire and the rest of the
      buffer make up the message; the callback runs at most once, only when the wire holds all
      of it, and never together with the error trigger; a temporary buffer goes back to the
      pool exactly once, at the end. */
  lemma {:induction false} EveryRunIsSound(message: string, script: seq<Send>, temporary: bool, k: nat)
    requires Legal(script)
    ensures Sound(Retries(Initial(message, script, temporary), k), message, temporary)
  {
    if k > 0 {
      EveryRunIsSound(message, script, temporary, k - 1);
      OnWritableKeepsSound(Retries(Initial(message, script, temporary), k - 1), message, temporary);
    }
  }

  // ---- the outcome, from the kernel's answers alone ----

  /** Bytes the kernel takes before its first failure. */
  function Capacity(script: seq<Send>): nat {
    if script == [] then 0
    else match script[0]
      case Sent(n) => n + Capacity(script[1..])
      case Again => Capacity(script[1..])
      case Failed => 0
  }

  ghost predicate HasFailure(script: seq<Send>) {
    exists i :: 0 <= i < |script| && script[i].Failed?
  }

  /** Where a message ends up: it depends on how much the kernel takes in all, not on how the
      sends and retries were spread out. */
  ghost predicate Outcome(s: Writing, message: string, script: seq<Send>) {
    && s.wire == message[..Min(|message|, Capacity(script))]
    && (s.phase == Done <==> |message| <= Capacity(script))
    && (s.phase == Errored <==> Capacity(script) < |message| && HasFailure(script))
  }

  /** What one send loop leaves to be done, in terms of what the kernel will still take. */
  lemma {:induction false} SendLoopCapacity(content: string, wire: string, script: seq<Send>, n: int)
    requires Legal(script) && n >= 0
    ensures var b := SendLoop(content, wire, script, n);
      && (b.content == "" ==> |content| <= Capacity(script))
      && (b.n == -1 ==>
            Capacity(script) < |content| && HasFailure(script) && |b.content| + Capacity(script) == |content|)
      && (b.content != "" && b.n != -1 ==>
            && |content| + Capacity(b.script) == |b.content| + Capacity(script)
            && (HasFailure(b.script) <==> HasFailure(script))
            && (|b.script| < |script| || script == []))
    decreases |script|
  {
    if content != "" && script != [] {
      FailureTail(script);
      if script[0].Sent? {
        var m := Min(script[0].n, |content|);
        SendLoopCapacity(content[m..], wire + content[..m], script[1..], m);
      }
    }
  }

  lemma FailureTail(script: seq<Send>)
    requires script != []
    ensures HasFailure(script) <==> script[0].Failed? || HasFailure(script[1..])
  {
    if HasFailure(script) {
      var i :| 0 <= i < |script| && script[i].Failed?;
      assert i > 0 ==> script[1..][i - 1].Failed?;
    }
    if HasFailure(script[1..]) {
      var i :| 0 <= i < |script| - 1 && script[1..][i].Failed?;
      assert script[i + 1].Failed?;
    }
  }

  /** What a run in progress still has to do, against what the whole run has to do. */
  ghost predicate OnCourse(s: Writing, message: string, script: seq<Send>) {
    match s.phase
    case Retrying =>
      && |message| + Capacity(s.script) == |s.content| + Capacity(script)
      && (HasFailure(s.script) <==> HasFailure(script))
    case Done => |message| <= Capacity(script)
    case Errored =>
      Capacity(script) < |message| && HasFailure(script) && |s.content| + Capacity(script) == |message|
  }

  lemma OnWritableOnCourse(s: Writing, message: string, script: seq<Send>)
    requires Legal(s.script) && OnCourse(s, message, script)
    ensures OnCourse(OnWritable(s), message, script)
    ensures var t := OnWritable(s);
      t.phase == Retrying ==> |t.script| < |s.script| || (s.script == [] && t.script == [] && t.content != "")
  {
    SendLoopCapacity(s.content, s.wire, s.script, 0);
    SendLoopConserves(s.content, s.wire, s.script, 0);
  }

  lemma {:induction false} RetriesOnCourse(message: string, script: seq<Send>, temporary: bool, k: nat)
    requires Legal(script)
    ensures var s := Retries(Initial(message, script, temporary), k);
      && OnCourse(s, message, script)
      && (s.phase == Retrying && k > |script| ==> s.script == [] && s.content != "")
      && (s.phase == Retrying ==> |s.script| + k <= |script| || s.script == [])
  {
    if k > 0 {
      RetriesOnCourse(message, script, temporary, k - 1);
      OnWritableOnCourse(Retries(Initial(message, script, temporary), k - 1), message, script);
    }
  }

  /** However the kernel's answers are spread over sends, full sockets and retries, the run ends
      where their total says: the message is delivered and the callback runs exactly when the
      kernel takes that many bytes before it fails. */
  lemma OutcomeFollowsCapacity(message: string, script: seq<Send>, temporary: bool, k: nat)
    requires Legal(script) && k > |script|
    ensures Outcome(Retries(Initial(message, script, temporary), k), message, script)
  {
    var s := Retries(Initial(message, script, temporary), k);
    RetriesOnCourse(message, script, temporary, k);
    EveryRunIsSound(message, script, temporary, k);
    assert s.wire == message[..|s.wire|] by {
      assert s.wire == (s.wire + s.content)[..|s.wire|];
    }
  }

  // ---- one attempt ----

  /** Bytes the kernel takes before it first says that the socket is full, or fails. */
  function Now(script: seq<Send>): nat {
    if script == [] || !script[0].Sent? then 0 else script[0].n + Now(script[1..])
  }

  /** What it says then; nothing if it never does. */
  function FirstStop(script: seq<Send>): Option<Send> {
    if script == [] then None
    else if script[0].Sent? then FirstStop(script[1..])
    else Some(script[0])
  }

  /** The answers after that. */
  function AfterStop(script: seq<Send>): seq<Send> {
    if script == [] then [] else if script[0].Sent? then AfterStop(script[1..]) else script[1..]
  }

  lemma {:induction false} SendLoopTakes(content: string, wire: string, script: seq<Send>, n: int)
    requires Legal(script) && n >= 0
    ensures var b := SendLoop(content, wire, script, n); var m := Min(|content|, Now(script));
      && b.wire == wire + content[..m] && b.content == content[m..]
      && (b.n == -1 <==> Now(script) < |content| && FirstStop(script) == Some(Failed))
      && (b.content != "" ==> b.script == AfterStop(script))
    decreases |script|
  {
    if content != "" && script != [] && script[0].Sent? {
      var k, m := Min(script[0].n, |content|), Min(|content|, Now(script));
      SendLoopTakes(content[k..], wire + content[..k], script[1..], k);
      SentInTwo(content, wire, k, m);
    }
  }

  lemma SentInTwo(content: string, wire: string, k: nat, m: nat)
    requires k <= m <= |content|
    ensures (wire + content[..k]) + content[k..][..m - k] == wire + content[..m]
    ensures content[k..][m - k..] == content[m..]
  {
    assert content[..k] + content[k..][..m - k] == content[..m];
  }

  /** One attempt sends all that the kernel takes until it is full or fails. It is done if that is
      all there is, it fails if a failure came first, and otherwise it will be tried again, with
      the answers that are left. */
  lemma {:induction false} OneAttempt(s: Writing)
    requires Legal(s.script)
    ensures var t := WriteBuffer(s); var m := Min(|s.content|, Now(s.script));
      && t.wire == s.wire + s.content[..m] && t.content == s.content[m..]
      && (t.phase == Done <==> |s.content| <= Now(s.script))
      && (t.phase == Errored <==> Now(s.script) < |s.content| && FirstStop(s.script) == Some(Failed))
      && (t.phase == Retrying <==> Now(s.script) < |s.content| && FirstStop(s.script) != Some(Failed))
      && (t.phase == Retrying ==> t.script == AfterStop(s.script))
  {
    SendLoopTakes(s.content, s.wire, s.script, 0);
  }
}
