/** JavaScript's `split`, its inverse, and when the two undo each other. */
module Text {
  import opened Search

  predicate Contains(text: string, sep: string) {
    IndexOf(text, sep, 0).Some?
  }

  /** `text.split(sep)` for a nonempty separator: cut at each leftmost occurrence. */
  function Split(text: string, sep: string): (parts: seq<string>)
    requires sep != ""
    ensures |parts| >= 1
    decreases |text|
  {
    match IndexOf(text, sep, 0)
    case None => [text]
    case Some(p) => [text[..p]] + Split(text[p + |sep|..], sep)
  }

  function Join(parts: seq<string>, sep: string): string {
    if parts == [] then ""
    else if |parts| == 1 then parts[0]
    else parts[0] + sep + Join(parts[1..], sep)
  }

  /** `text.split(sep, limit)`. */
  function SplitLimit(text: string, sep: string, limit: nat): seq<string>
    requires sep != ""
  {
    var parts := Split(text, sep);
    if |parts| > limit then parts[..limit] else parts
  }

  lemma OccursPrefix(text: string, more: string, sep: string, q: nat)
    requires q + |sep| <= |text|
    ensures OccursAt(text, sep, q) <==> OccursAt(text + more, sep, q)
  {
    assert (text + more)[q..q + |sep|] == text[q..q + |sep|];
  }

  lemma PrefixKeeps(text: string, more: string, sep: string)
    requires IndexOf(text, sep, 0).Some?
    ensures IndexOf(text + more, sep, 0) == IndexOf(text, sep, 0)
  {
    FirstOccurrence(text, sep, 0);
    var p := IndexOf(text, sep, 0).value;
    OccursPrefix(text, more, sep, p);
    forall q | 0 <= q < p ensures !OccursAt(text + more, sep, q) {
      OccursPrefix(text, more, sep, q);
    }
    IndexOfIs(text + more, sep, p);
  }

  lemma PrefixReflects(text: string, more: string, sep: string, p: nat)
    requires IndexOf(text + more, sep, 0) == Some(p) && p + |sep| <= |text|
    ensures IndexOf(text, sep, 0) == Some(p)
  {
    FirstOccurrence(text + more, sep, 0);
    OccursPrefix(text, more, sep, p);
    forall q | 0 <= q < p ensures !OccursAt(text, sep, q) {
      OccursPrefix(text, more, sep, q);
    }
    IndexOfIs(text, sep, p);
  }

  /** The first occurrence inside a prefix is the first occurrence of the whole. */
  lemma IndexOfPrefix(text: string, more: string, sep: string)
    ensures IndexOf(text, sep, 0).Some? ==> IndexOf(text + more, sep, 0) == IndexOf(text, sep, 0)
    ensures IndexOf(text + more, sep, 0).Some? && IndexOf(text + more, sep, 0).value + |sep| <= |text|
      ==> IndexOf(text, sep, 0) == IndexOf(text + more, sep, 0)
  {
    if IndexOf(text, sep, 0).Some? {
      PrefixKeeps(text, more, sep);
    }
    var b := IndexOf(text + more, sep, 0);
    if b.Some? && b.value + |sep| <= |text| {
      PrefixReflects(text, more, sep, b.value);
    }
  }

  /** Joining what `split` made gives the text back, and no piece holds the separator. */
  lemma {:induction false} JoinOfSplit(text: string, sep: string)
    requires sep != ""
    ensures Join(Split(text, sep), sep) == text
    ensures forall i :: 0 <= i < |Split(text, sep)| ==> !Contains(Split(text, sep)[i], sep)
    decreases |text|
  {
    FirstOccurrence(text, sep, 0);
    match IndexOf(text, sep, 0)
    case None =>
    case Some(p) =>
      var rest := text[p + |sep|..];
      JoinOfSplit(rest, sep);
      assert ([text[..p]] + Split(rest, sep))[1..] == Split(rest, sep);
      assert text == text[..p] + sep + rest;
      IndexOfPrefix(text[..p], text[p..], sep);
      assert text == text[..p] + text[p..];
  }

  /** The separator after `part` is the first one in `part + sep`. */
  predicate EndsCleanly(part: string, sep: string) {
    IndexOf(part + sep, sep, 0) == Some(|part|)
  }

  predicate Splittable(parts: seq<string>, sep: string)
    requires |parts| >= 1
  {
    && (forall i :: 0 <= i < |parts| - 1 ==> EndsCleanly(parts[i], sep))
    && !Contains(parts[|parts| - 1], sep)
  }

  lemma SplittableCons(parts: seq<string>, sep: string)
    requires |parts| >= 2
    ensures Splittable(parts, sep) <==> EndsCleanly(parts[0], sep) && Splittable(parts[1..], sep)
  {
    assert parts[|parts| - 1] == parts[1..][|parts| - 2];
    assert forall i :: 1 <= i < |parts| - 1 ==> parts[i] == parts[1..][i - 1];
    assert forall i :: 0 <= i < |parts| - 2 ==> parts[1..][i] == parts[i + 1];
  }

  /** The first piece of a joined list comes back exactly when it ends cleanly. */
  lemma FirstPiece(first: string, rest: string, sep: string)
    requires sep != ""
    ensures EndsCleanly(first, sep) ==> Split((first + sep) + rest, sep) == [first] + Split(rest, sep)
    ensures !EndsCleanly(first, sep) ==> Split((first + sep) + rest, sep)[0] != first
  {
    var text := (first + sep) + rest;
    IndexOfPrefix(first + sep, rest, sep);
    assert OccursAt(text, sep, |first|);
    FirstOccurrence(text, sep, 0);
    var p := IndexOf(text, sep, 0).value;
    if p == |first| {
      assert text[p + |sep|..] == rest && text[..p] == first;
    } else {
      assert |Split(text, sep)[0]| == p;
    }
  }

  /** Splitting a joined list gives the list back exactly when each separator is the first
      one after its piece and the last piece holds none. */
  lemma {:induction false} SplitOfJoin(parts: seq<string>, sep: string)
    requires sep != "" && |parts| >= 1
    ensures Split(Join(parts, sep), sep) == parts <==> Splittable(parts, sep)
  {
    var text := Join(parts, sep);
    if |parts| == 1 {
      if Contains(text, sep) {
        assert |Split(text, sep)| >= 2;
      }
    } else {
      var first, rest := parts[0], Join(parts[1..], sep);
      assert text == (first + sep) + rest;
      SplitOfJoin(parts[1..], sep);
      SplittableCons(parts, sep);
      FirstPiece(first, rest, sep);
      if EndsCleanly(first, sep) {
        assert ([first] + Split(rest, sep))[1..] == Split(rest, sep);
        assert parts == [first] + parts[1..];
      }
    }
  }

  /** No proper suffix of the separator is a prefix of it. */
  predicate Borderless(sep: string) {
    forall k :: 0 < k < |sep| ==> sep[k..] != sep[..|sep| - k]
  }

  lemma Overlap(part: string, sep: string, p: nat)
    requires p < |part| < p + |sep|
    requires OccursAt(part + sep, sep, p)
    ensures !Borderless(sep)
  {
    var whole, k := part + sep, |part| - p;
    assert sep[k..] == whole[p..p + |sep|][k..] == whole[|part|..][..|sep| - k];
    assert whole[|part|..] == sep;
  }

  /** For a separator that cannot overlap itself, a clean end just means not holding it. */
  lemma CleanWhenAbsent(part: string, sep: string)
    requires sep != "" && Borderless(sep)
    ensures EndsCleanly(part, sep) <==> !Contains(part, sep)
  {
    assert OccursAt(part + sep, sep, |part|);
    FirstOccurrence(part + sep, sep, 0);
    var p := IndexOf(part + sep, sep, 0).value;
    IndexOfPrefix(part, sep, sep);
    if p < |part| < p + |sep| {
      Overlap(part, sep, p);
    }
  }

  /** Splitting a joined list, for a separator that cannot overlap itself. */
  lemma {:induction false} SplitOfJoinBorderless(parts: seq<string>, sep: string)
    requires sep != "" && Borderless(sep) && |parts| >= 1
    ensures Split(Join(parts, sep), sep) == parts <==> forall i :: 0 <= i < |parts| ==> !Contains(parts[i], sep)
  {
    SplitOfJoin(parts, sep);
    forall i | 0 <= i < |parts| ensures EndsCleanly(parts[i], sep) <==> !Contains(parts[i], sep) {
      CleanWhenAbsent(parts[i], sep);
    }
  }

  datatype Halves = Halves(piece: string, rest: string)

  /** Cut a stream after the first delimiter. */
  function Cut(stream: string, delim: string): (r: Option<Halves>)
    requires delim != ""
    ensures r.Some? ==> r.value.piece + r.value.rest == stream && |r.value.rest| < |stream|
  {
    match IndexOf(stream, delim, 0)
    case None => None
    case Some(p) => Some(Halves(stream[..p + |delim|], stream[p + |delim|..]))
  }

  /** More bytes only lengthen what follows the cut. */
  lemma CutGrows(stream: string, more: string, delim: string)
    requires delim != "" && Cut(stream, delim).Some?
    ensures var h := Cut(stream, delim).value;
      Cut(stream + more, delim) == Some(Halves(h.piece, h.rest + more))
  {
    PrefixKeeps(stream, more, delim);
    var n := IndexOf(stream, delim, 0).value + |delim|;
    assert (stream + more)[..n] == stream[..n] && (stream + more)[n..] == stream[n..] + more;
  }

  function Flatten(pieces: seq<string>): string {
    if pieces == [] then "" else pieces[0] + Flatten(pieces[1..])
  }
}
