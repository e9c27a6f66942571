/** The incremental substring search of src/algorithm.cc, and the plain notion of
    "first occurrence" it is measured against. A byte is modelled by a `char`. */
module Search {

  datatype Option<+T> = None | Some(value: T)

  function Min(a: nat, b: nat): nat { if a < b then a else b }

  /** `needle` agrees with `hay` from position `p` on, as far as both of them go. */
  ghost predicate AgreesAt(hay: string, needle: string, p: nat) {
    forall i :: 0 <= i < |needle| && p + i < |hay| ==> hay[p + i] == needle[i]
  }

  /** No position before `p` can still turn into an occurrence. */
  ghost predicate Skipped(hay: string, needle: string, from: nat, p: nat) {
    forall q :: from <= q < p ==> !AgreesAt(hay, needle, q)
  }

  /** `p` is the least position from `from` on where the needle agrees. */
  ghost predicate IsStop(hay: string, needle: string, from: nat, p: nat) {
    from <= p <= |hay| && AgreesAt(hay, needle, p) && Skipped(hay, needle, from, p)
  }

  /** The position the search ends at; the end of `hay` always agrees. */
  ghost function Stop(hay: string, needle: string, from: nat): (p: nat)
    requires from <= |hay|
    ensures IsStop(hay, needle, from, p)
    decreases |hay| - from
  {
    if AgreesAt(hay, needle, from) then from else Stop(hay, needle, from + 1)
  }

  predicate OccursAt(hay: string, needle: string, p: nat) {
    p + |needle| <= |hay| && hay[p..p + |needle|] == needle
  }

  /** The usual leftmost occurrence, with no notion of a partial match. */
  function IndexOf(hay: string, needle: string, from: nat): (r: Option<nat>)
    ensures r.Some? ==> from <= r.value && r.value + |needle| <= |hay|
    decreases |hay| - from
  {
    if from + |needle| > |hay| then None
    else if OccursAt(hay, needle, from) then Some(from)
    else IndexOf(hay, needle, from + 1)
  }

  /** `IndexOf` is what its name says: an occurrence, with none before it, or none at all. */
  lemma {:induction false} FirstOccurrence(hay: string, needle: string, from: nat)
    ensures var r := IndexOf(hay, needle, from);
      && (r.Some? ==> OccursAt(hay, needle, r.value))
      && (forall q :: from <= q && OccursAt(hay, needle, q) ==> r.Some? && r.value <= q)
    decreases |hay| - from
  {
    if from + |needle| <= |hay| && !OccursAt(hay, needle, from) {
      FirstOccurrence(hay, needle, from + 1);
    }
  }

  /** The least occurrence is the one `IndexOf` names. */
  lemma IndexOfIs(hay: string, needle: string, p: nat)
    requires OccursAt(hay, needle, p)
    requires forall q :: 0 <= q < p ==> !OccursAt(hay, needle, q)
    ensures IndexOf(hay, needle, 0) == Some(p)
  {
    FirstOccurrence(hay, needle, 0);
  }

  lemma StopUnique(hay: string, needle: string, from: nat, p: nat)
    requires from <= |hay| && IsStop(hay, needle, from, p)
    ensures p == Stop(hay, needle, from)
  {
    var s := Stop(hay, needle, from);
    assert !(s < p) && !(p < s);
  }

  lemma OccurrenceAgrees(hay: string, needle: string, p: nat)
    requires p <= |hay|
    ensures OccursAt(hay, needle, p) <==> p + |needle| <= |hay| && AgreesAt(hay, needle, p)
  {
    if p + |needle| <= |hay| && AgreesAt(hay, needle, p) {
      assert forall i :: 0 <= i < |needle| ==> hay[p..p + |needle|][i] == needle[i];
    }
    if OccursAt(hay, needle, p) {
      forall i | 0 <= i < |needle| && p + i < |hay| ensures hay[p + i] == needle[i] {
        assert hay[p..p + |needle|][i] == needle[i];
      }
    }
  }

  /** The test of `isFound` is exact: the stop leaves room for the needle just when the
      needle occurs, and then the stop is its first occurrence. */
  lemma StopFindsFirst(hay: string, needle: string, from: nat)
    requires from <= |hay|
    ensures var p := Stop(hay, needle, from);
      IndexOf(hay, needle, from) == if p + |needle| <= |hay| then Some(p) else None
  {
    var p := Stop(hay, needle, from);
    OccurrenceAgrees(hay, needle, p);
    FirstOccurrence(hay, needle, from);
    var r := IndexOf(hay, needle, from);
    if r.Some? {
      OccurrenceAgrees(hay, needle, r.value);
      assert p <= r.value;
      assert OccursAt(hay, needle, p);
    }
  }

  /** A mismatch is final: bytes that arrive later cannot repair it. */
  lemma SkippedStays(hay: string, more: string, needle: string, from: nat, p: nat)
    requires p <= |hay| && Skipped(hay, needle, from, p)
    ensures Skipped(hay + more, needle, from, p)
  {
    forall q | from <= q < p ensures !AgreesAt(hay + more, needle, q) {
      if AgreesAt(hay + more, needle, q) {
        forall i | 0 <= i < |needle| && q + i < |hay| ensures hay[q + i] == needle[i] {
          assert (hay + more)[q + i] == needle[i];
        }
        assert AgreesAt(hay, needle, q);
      }
    }
  }

  /** Resumed search equals search from scratch. */
  lemma ResumeIsRestart(hay: string, more: string, needle: string, from: nat)
    requires from <= |hay|
    ensures var last := Stop(hay, needle, from);
      Stop(hay + more, needle, last) == Stop(hay + more, needle, from)
  {
    var last := Stop(hay, needle, from);
    SkippedStays(hay, more, needle, from, last);
    var p := Stop(hay + more, needle, last);
    assert IsStop(hay + more, needle, from, p);
    StopUnique(hay + more, needle, from, p);
  }

  /** Once found, the answer does not move when more bytes arrive. */
  lemma FoundStays(hay: string, more: string, needle: string, from: nat)
    requires from <= |hay| && Stop(hay, needle, from) + |needle| <= |hay|
    ensures Stop(hay + more, needle, from) == Stop(hay, needle, from)
  {
    var p := Stop(hay, needle, from);
    SkippedStays(hay, more, needle, from, p);
    assert IsStop(hay + more, needle, from, p) by {
      forall i | 0 <= i < |needle| && p + i < |hay + more| ensures (hay + more)[p + i] == needle[i] {
        assert hay[p + i] == needle[i];
      }
    }
    StopUnique(hay + more, needle, from, p);
  }

  /** Searching a suffix is searching the whole from an offset. */
  lemma StopShift(hay: string, needle: string, offset: nat)
    requires offset <= |hay|
    ensures Stop(hay, needle, offset) == offset + Stop(hay[offset..], needle, 0)
  {
    var tail := hay[offset..];
    var p := Stop(tail, needle, 0);
    assert forall q :: 0 <= q <= |tail| ==> (AgreesAt(tail, needle, q) <==> AgreesAt(hay, needle, offset + q)) by {
      forall q | 0 <= q <= |tail|
        ensures AgreesAt(tail, needle, q) <==> AgreesAt(hay, needle, offset + q)
      {
        forall i | 0 <= i < |needle| && q + i < |tail|
          ensures tail[q + i] == needle[i] <==> hay[offset + q + i] == needle[i] {
        }
      }
    }
    forall q | offset <= q < offset + p ensures !AgreesAt(hay, needle, q) {
      assert !AgreesAt(tail, needle, q - offset);
    }
    StopUnique(hay, needle, offset, offset + p);
  }

  // ---- cost ----

  /** How many bytes agree at position `p` beyond the first `k`. */
  ghost function Agreed(hay: string, needle: string, p: nat, k: nat): (a: nat)
    ensures a > 0 ==> k + a <= |needle| && p + k + a <= |hay|
    decreases |needle| - k
  {
    if k < |needle| && p + k < |hay| && hay[p + k] == needle[k]
    then 1 + Agreed(hay, needle, p, k + 1)
    else 0
  }

  /** Byte comparisons made at position `p`: the agreeing bytes, and the mismatch if there is one. */
  ghost function Comparisons(hay: string, needle: string, p: nat): nat {
    var a := Agreed(hay, needle, p, 0);
    if a < |needle| && p + a < |hay| then a + 1 else a
  }

  /** Byte comparisons made at the positions `from .. to`. */
  ghost function Work(hay: string, needle: string, from: nat, upto: nat): nat
    requires from <= upto
    decreases upto
  {
    if from == upto then 0 else Work(hay, needle, from, upto - 1) + Comparisons(hay, needle, upto - 1)
  }

  /** Positions tried by a search that ends at `stop`: the end of the haystack is not tried. */
  ghost function Tried(hay: string, from: nat, stop: nat): nat
    requires from <= stop <= |hay|
  {
    if stop == |hay| then stop - from else stop - from + 1
  }

  /** What a search of the bytes from an offset finds and costs, in terms of the whole. */
  lemma SearchShift(hay: string, needle: string, offset: nat, p: nat, tried: nat)
    requires offset <= |hay| && p == Stop(hay[offset..], needle, 0) && tried == Tried(hay[offset..], 0, p)
    ensures offset + p == Stop(hay, needle, offset)
    ensures offset + p <= |hay| && tried == Tried(hay, offset, offset + p)
  {
    StopShift(hay, needle, offset);
  }

  lemma {:induction false} WorkBound(hay: string, needle: string, from: nat, upto: nat)
    requires from <= upto
    ensures Work(hay, needle, from, upto) <= (upto - from) * |needle|
    decreases upto
  {
    if from < upto {
      WorkBound(hay, needle, from, upto - 1);
      calc {
        (upto - from) * |needle|;
        (upto - 1 - from + 1) * |needle|;
        (upto - 1 - from) * |needle| + |needle|;
      }
    }
  }

  /** Bytes equal up to the end of either string: that is agreement. */
  lemma PrefixAgrees(hay: string, needle: string, p: nat, k: nat)
    requires k <= |needle| && p + k <= |hay| && needle[..k] == hay[p..p + k]
    requires p + k == |hay| || k == |needle|
    ensures AgreesAt(hay, needle, p)
  {
    forall i | 0 <= i < |needle| && p + i < |hay| ensures hay[p + i] == needle[i] {
      assert hay[p..p + k][i] == needle[..k][i];
    }
  }

  /** `partial_find`: the haystack is a range inside a byte array, as the C pointers are, and is
      searched in place. `tried` counts start positions and `compared` counts byte comparisons. */
  method PartialFind(hay: array<char>, start: nat, haySize: nat, needle: string)
    returns (pos: nat, ghost tried: nat, ghost compared: nat)
    requires start + haySize <= hay.Length
    requires needle != ""
    ensures pos == Stop(hay[start..start + haySize], needle, 0)
    ensures tried == Tried(hay[start..start + haySize], 0, pos)
    ensures compared == Work(hay[start..start + haySize], needle, 0, tried)
  {
    ghost var h := hay[start..start + haySize];
    var haystack := 0;
    compared := 0;
    while haystack != haySize
      invariant haystack <= haySize
      invariant Skipped(h, needle, 0, haystack)
      invariant compared == Work(h, needle, 0, haystack)
      decreases haySize - haystack
    {
      var first1, first2 := haystack, 0;
      while hay[start + first1] == needle[first2]
        invariant haystack <= first1 < haySize
        invariant first2 == first1 - haystack < |needle|
        invariant needle[..first2] == h[haystack..first1]
        invariant Agreed(h, needle, haystack, 0) == first2 + Agreed(h, needle, haystack, first2)
        decreases haySize - first1
      {
        assert h[first1] == needle[first2];
        first1, first2 := first1 + 1, first2 + 1;
        if first1 == haySize || first2 == |needle| {
          PrefixAgrees(h, needle, haystack, first2);
          StopUnique(h, needle, 0, haystack);
          return haystack, haystack + 1, compared + first2;
        }
      }
      assert h[first1] != needle[first2];
      compared := compared + first2 + 1;
      haystack := haystack + 1;
    }
    StopUnique(h, needle, 0, haySize);
    return haySize, haySize, compared;
  }
}
