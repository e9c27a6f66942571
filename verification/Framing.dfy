/** Repeated use of `readToken` followed by `readUtf8`: a stream is taken apart at each
    delimiter, however it arrives. */
module Framing {
  import opened Search
  import opened Text

  /** `last` is where the pending `readToken` resumes its search of `buf`. */
  datatype Framer = Framer(buf: string, last: nat, pieces: seq<string>)

  ghost predicate LastValid(f: Framer, delim: string) {
    f.last <= |f.buf| && Skipped(f.buf, delim, 0, f.last)
  }

  /** Run the condition, and as long as it holds take a piece and wait for the next token. */
  ghost function Settle(f: Framer, delim: string): Framer
    requires delim != "" && LastValid(f, delim)
    decreases |f.buf|
  {
    var p := Stop(f.buf, delim, f.last);
    var n := p + |delim|;
    if n <= |f.buf| then Settle(Framer(f.buf[n..], 0, f.pieces + [f.buf[..n]]), delim)
    else f.(last := p)
  }

  // ---- the specification split ----

  /** Cut the stream after each leftmost delimiter. */
  function Pieces(stream: string, delim: string): seq<string>
    requires delim != ""
    decreases |stream|
  {
    match Cut(stream, delim)
    case None => []
    case Some(Halves(piece, rest)) => [piece] + Pieces(rest, delim)
  }

  /** What is left after the last delimiter. */
  function Rest(stream: string, delim: string): string
    requires delim != ""
    decreases |stream|
  {
    match Cut(stream, delim)
    case None => stream
    case Some(Halves(_, rest)) => Rest(rest, delim)
  }

  /** The state that a stream leads to. */
  ghost predicate Reached(f: Framer, stream: string, delim: string)
    requires delim != ""
  {
    && LastValid(f, delim)
    && f.pieces == Pieces(stream, delim)
    && f.buf == Rest(stream, delim)
  }

  lemma SearchFromLast(f: Framer, delim: string)
    requires delim != "" && LastValid(f, delim)
    ensures Stop(f.buf, delim, f.last) == Stop(f.buf, delim, 0)
    ensures Skipped(f.buf, delim, 0, Stop(f.buf, delim, 0))
    ensures Stop(f.buf, delim, 0) + |delim| <= |f.buf| <==> Cut(f.buf, delim).Some?
    ensures var n := Stop(f.buf, delim, 0) + |delim|;
      n <= |f.buf| ==> Cut(f.buf, delim).value == Halves(f.buf[..n], f.buf[n..])
  {
    var p := Stop(f.buf, delim, f.last);
    assert IsStop(f.buf, delim, 0, p);
    StopUnique(f.buf, delim, 0, p);
    StopFindsFirst(f.buf, delim, 0);
  }

  lemma PiecesStep(buf: string, delim: string)
    requires delim != ""
    ensures var c := Cut(buf, delim);
      && (c.None? ==> Pieces(buf, delim) == [] && Rest(buf, delim) == buf)
      && (c.Some? ==>
            && Pieces(buf, delim) == [c.value.piece] + Pieces(c.value.rest, delim)
            && Rest(buf, delim) == Rest(c.value.rest, delim))
  {
  }

  lemma {:induction false} SettleTakesPieces(f: Framer, delim: string)
    requires delim != "" && LastValid(f, delim)
    ensures var t := Settle(f, delim);
      && LastValid(t, delim)
      && t.pieces == f.pieces + Pieces(f.buf, delim)
      && t.buf == Rest(f.buf, delim)
    decreases |f.buf|
  {
    SearchFromLast(f, delim);
    var n := Stop(f.buf, delim, 0) + |delim|;
    PiecesStep(f.buf, delim);
    if n <= |f.buf| {
      var next := Framer(f.buf[n..], 0, f.pieces + [f.buf[..n]]);
      SettleTakesPieces(next, delim);
      Regroup(f.pieces, f.buf[..n], Pieces(next.buf, delim));
    }
  }

  lemma Regroup(a: seq<string>, x: string, b: seq<string>)
    ensures (a + [x]) + b == a + ([x] + b)
  {
  }

  lemma PieceFirst(x: string, a: seq<string>, b: seq<string>)
    ensures [x] + (a + b) == ([x] + a) + b
  {
  }

  /** Splitting can be resumed where it stopped. */
  lemma {:induction false} PiecesResume(stream: string, more: string, delim: string)
    requires delim != ""
    ensures Pieces(stream + more, delim) == Pieces(stream, delim) + Pieces(Rest(stream, delim) + more, delim)
    ensures Rest(stream + more, delim) == Rest(Rest(stream, delim) + more, delim)
    decreases |stream|
  {
    match Cut(stream, delim)
    case None =>
    case Some(Halves(piece, rest)) =>
      CutGrows(stream, more, delim);
      PiecesResume(rest, more, delim);
      PieceFirst(piece, Pieces(rest, delim), Pieces(Rest(rest, delim) + more, delim));
  }

  /** One readable event. */
  ghost function Feed(f: Framer, chunk: string, delim: string): Framer
    requires delim != "" && LastValid(f, delim)
  {
    SkippedStays(f.buf, chunk, delim, 0, f.last);
    Settle(f.(buf := f.buf + chunk), delim)
  }

  lemma FeedReaches(f: Framer, stream: string, chunk: string, delim: string)
    requires delim != "" && Reached(f, stream, delim)
    ensures Reached(Feed(f, chunk, delim), stream + chunk, delim)
  {
    SkippedStays(f.buf, chunk, delim, 0, f.last);
    SettleTakesPieces(f.(buf := f.buf + chunk), delim);
    PiecesResume(stream, chunk, delim);
  }

  ghost function FeedAll(chunks: seq<string>, delim: string): (f: Framer)
    requires delim != ""
    ensures LastValid(f, delim)
  {
    if chunks == [] then Framer("", 0, [])
    else
      var f := FeedAll(chunks[..|chunks| - 1], delim);
      SkippedStays(f.buf, chunks[|chunks| - 1], delim, 0, f.last);
      SettleTakesPieces(f.(buf := f.buf + chunks[|chunks| - 1]), delim);
      Feed(f, chunks[|chunks| - 1], delim)
  }

  lemma {:induction false} FlattenLast(chunks: seq<string>)
    requires chunks != []
    ensures Flatten(chunks) == Flatten(chunks[..|chunks| - 1]) + chunks[|chunks| - 1]
  {
    if |chunks| > 1 {
      FlattenLast(chunks[1..]);
      assert chunks[..|chunks| - 1][1..] == chunks[1..][..|chunks| - 2];
    }
  }

  /** Looped framing is the specification split of the bytes received so far. */
  lemma {:induction false} FramingIsSplit(chunks: seq<string>, delim: string)
    requires delim != ""
    ensures Reached(FeedAll(chunks, delim), Flatten(chunks), delim)
  {
    if chunks == [] {
      assert Cut("", delim).None?;
    } else {
      var front, last := chunks[..|chunks| - 1], chunks[|chunks| - 1];
      FramingIsSplit(front, delim);
      FeedReaches(FeedAll(front, delim), Flatten(front), last, delim);
      FlattenLast(chunks);
    }
  }

  /** A piece ends at its first delimiter. */
  predicate IsPiece(piece: string, delim: string) {
    |piece| >= |delim| && IndexOf(piece, delim, 0) == Some(|piece| - |delim|)
  }

  lemma {:induction false} PiecesAreCut(stream: string, delim: string)
    requires delim != ""
    ensures forall piece :: piece in Pieces(stream, delim) ==> IsPiece(piece, delim)
    ensures !Contains(Rest(stream, delim), delim)
    decreases |stream|
  {
    match Cut(stream, delim)
    case None =>
    case Some(Halves(piece, rest)) =>
      PrefixReflects(piece, rest, delim, |piece| - |delim|);
      PiecesAreCut(rest, delim);
  }

  /** No byte is lost, added or moved. */
  lemma {:induction false} SplitConserves(stream: string, delim: string)
    requires delim != ""
    ensures Flatten(Pieces(stream, delim)) + Rest(stream, delim) == stream
    decreases |stream|
  {
    match Cut(stream, delim)
    case None =>
    case Some(Halves(piece, rest)) =>
      SplitConserves(rest, delim);
      FlattenFirst(piece, Pieces(rest, delim), Rest(rest, delim));
  }

  lemma FlattenFirst(piece: string, tail: seq<string>, rest: string)
    ensures Flatten([piece] + tail) + rest == piece + (Flatten(tail) + rest)
  {
    assert ([piece] + tail)[1..] == tail;
  }
}
