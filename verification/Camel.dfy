/** Naming of the exported methods: `underline_to_camel` of src/algorithm.cc. */
module Camel {
  import opened Search

  // The size of the static result array, terminator included.
  const NAME_SIZE := 512

  predicate IsLower(c: char) { 'a' <= c <= 'z' }

  predicate IsUpper(c: char) { 'A' <= c <= 'Z' }

  function ToUpper(c: char): char
    requires IsLower(c)
  {
    c - 'a' + 'A'
  }

  function ToLower(c: char): char
    requires IsUpper(c)
  {
    c - 'A' + 'a'
  }

  /** Number of leading underscores. */
  function Leading(s: string): (k: nat)
    ensures k <= |s|
    ensures forall i :: 0 <= i < k ==> s[i] == '_'
    ensures k < |s| ==> s[k] != '_'
  {
    if s != "" && s[0] == '_' then 1 + Leading(s[1..]) else 0
  }

  /** What the second loop writes, given whether the previous character was an underscore. */
  function CamelBody(s: string, isUnderline: bool): string {
    if s == "" then ""
    else if s[0] == '_' then CamelBody(s[1..], true)
    else [if isUnderline && IsLower(s[0]) then ToUpper(s[0]) else s[0]] + CamelBody(s[1..], false)
  }

  /** The name before it is cut to the size of the result array. */
  function CamelName(src: string): string {
    var k := Leading(src);
    src[..k] + CamelBody(src[k..], false)
  }

  /** The JavaScript name of a method. */
  function JsName(src: string): string {
    CamelName(src)[..Min(|CamelName(src)|, NAME_SIZE - 1)]
  }

  // ---- the inverse ----

  function UnderlineBody(s: string): string {
    if s == "" then ""
    else (if IsUpper(s[0]) then ['_', ToLower(s[0])] else [s[0]]) + UnderlineBody(s[1..])
  }

  /** Each capital goes back to an underscore and a small letter. */
  function Underline(name: string): string {
    var k := Leading(name);
    name[..k] + UnderlineBody(name[k..])
  }

  /** No capital, and every underscore is followed by a small letter. */
  predicate CanonicalBody(s: string) {
    if s == "" then true
    else if s[0] == '_' then |s| > 1 && IsLower(s[1]) && CanonicalBody(s[2..])
    else !IsUpper(s[0]) && CanonicalBody(s[1..])
  }

  predicate Canonical(src: string) {
    CanonicalBody(src[Leading(src)..])
  }

  lemma {:induction false} BodyWithoutUnderline(s: string, flag: bool)
    ensures '_' !in CamelBody(s, flag)
    decreases |s|
  {
    if s != "" {
      BodyWithoutUnderline(s[1..], s[0] == '_');
    }
  }

  lemma {:induction false} LeadingOfParts(a: string, b: string)
    requires forall i :: 0 <= i < |a| ==> a[i] == '_'
    requires b == "" || b[0] != '_'
    ensures Leading(a + b) == |a|
  {
    if a != "" {
      assert (a + b)[1..] == a[1..] + b;
      LeadingOfParts(a[1..], b);
    } else {
      assert a + b == b;
    }
  }

  /** Undoing a name that has no underscore left gives canonical text. */
  lemma {:induction false} UnderlineIsCanonical(t: string)
    requires '_' !in t
    ensures CanonicalBody(UnderlineBody(t))
    decreases |t|
  {
    if t != "" {
      UnderlineIsCanonical(t[1..]);
      var head := if IsUpper(t[0]) then ['_', ToLower(t[0])] else [t[0]];
      var rest := UnderlineBody(t[1..]);
      assert t[0] in t && (head + rest)[|head|..] == rest;
    }
  }

  lemma {:induction false} CanonicalBodyReturns(s: string)
    requires CanonicalBody(s)
    ensures UnderlineBody(CamelBody(s, false)) == s
    decreases |s|
  {
    if s != "" {
      var k := if s[0] == '_' then 2 else 1;
      var c := if s[0] == '_' then ToUpper(s[1]) else s[0];
      var rest := CamelBody(s[k..], false);
      assert k == 2 ==> s[1..][1..] == s[2..];
      assert CamelBody(s, false) == [c] + rest;
      assert ([c] + rest)[1..] == rest;
      assert s == s[..k] + s[k..];
      CanonicalBodyReturns(s[k..]);
    }
  }

  /** A method name can be recovered from its camel name exactly when it is canonical. */
  lemma RoundTrip(src: string)
    ensures Underline(CamelName(src)) == src <==> Canonical(src)
  {
    var k := Leading(src);
    var lead, body := src[..k], CamelBody(src[k..], false);
    BodyWithoutUnderline(src[k..], false);
    LeadingOfParts(lead, body);
    assert src == lead + src[k..];
    assert (lead + body)[..k] == lead && (lead + body)[k..] == body;
    assert Underline(CamelName(src)) == lead + UnderlineBody(body);
    if Canonical(src) {
      CanonicalBodyReturns(src[k..]);
    }
    if lead + UnderlineBody(body) == src {
      UnderlineIsCanonical(body);
      assert src[k..] == UnderlineBody(body);
    }
  }

  lemma {:induction false} BodyNoLonger(s: string, flag: bool)
    ensures |CamelBody(s, flag)| <= |s|
    decreases |s|
  {
    if s != "" {
      BodyNoLonger(s[1..], s[0] == '_');
    }
  }

  /** Canonical names whose camel names fit are told apart by their JavaScript names. */
  lemma FittingNames(a: string, b: string)
    requires Canonical(a) && Canonical(b)
    requires |CamelName(a)| < NAME_SIZE && |CamelName(b)| < NAME_SIZE
    ensures JsName(a) == JsName(b) <==> a == b
  {
    RoundTrip(a);
    RoundTrip(b);
    assert JsName(a) == CamelName(a) && JsName(b) == CamelName(b);
  }

  /** A name is never longer than its source, so that goes for all canonical names shorter than
      the result array. */
  lemma DistinctNames(a: string, b: string)
    requires Canonical(a) && Canonical(b)
    requires |a| < NAME_SIZE && |b| < NAME_SIZE
    ensures JsName(a) == JsName(b) <==> a == b
  {
    BodyNoLonger(a[Leading(a)..], false);
    BodyNoLonger(b[Leading(b)..], false);
    FittingNames(a, b);
  }

  lemma {:induction false} BodyDropsLast(s: string, flag: bool)
    ensures CamelBody(s + "_", flag) == CamelBody(s, flag)
    decreases |s|
  {
    if s == "" {
      assert CamelBody("_", flag) == CamelBody("_"[1..], true);
    } else {
      assert (s + "_")[1..] == s[1..] + "_";
      BodyDropsLast(s[1..], s[0] == '_');
    }
  }

  lemma {:induction false} FinalUnderlineNotCanonical(s: string)
    ensures !CanonicalBody(s + "_")
    decreases |s|
  {
    var t := s + "_";
    if s != "" {
      assert t[1..] == s[1..] + "_";
      FinalUnderlineNotCanonical(s[1..]);
      if |s| > 1 {
        assert t[2..] == s[2..] + "_";
        FinalUnderlineNotCanonical(s[2..]);
      }
    }
  }

  lemma CamelOfParts(lead: string, body: string)
    requires forall i :: 0 <= i < |lead| ==> lead[i] == '_'
    requires body != "" && body[0] != '_'
    ensures CamelName(lead + body) == lead + CamelBody(body, false)
    ensures Canonical(lead + body) <==> CanonicalBody(body)
  {
    LeadingOfParts(lead, body);
    var s := lead + body;
    assert s[..|lead|] == lead && s[|lead|..] == body;
  }

  /** Outside canonical names distinct methods do share a name: a final underscore is lost.
      `lead` is the leading underscores and `body` the rest of the name. */
  lemma NamesCanCollide(lead: string, body: string)
    requires forall i :: 0 <= i < |lead| ==> lead[i] == '_'
    requires body != "" && body[0] != '_'
    ensures !Canonical(lead + (body + "_"))
    ensures JsName(lead + (body + "_")) == JsName(lead + body)
  {
    CamelOfParts(lead, body);
    CamelOfParts(lead, body + "_");
    BodyDropsLast(body, false);
    FinalUnderlineNotCanonical(body);
  }

  // ---- any name, character by character ----

  predicate AllUnderlines(s: string) { forall i :: 0 <= i < |s| ==> s[i] == '_' }

  /** What one more character of the source adds to the name: an underscore is kept at the beginning
      and dropped elsewhere; a small letter after an underscore that is not at the beginning
      becomes a capital; anything else, a capital after whatever it may be included, stays. */
  function Adds(src: string, c: char): string {
    if c == '_' then if AllUnderlines(src) then "_" else ""
    else if 'a' <= c <= 'z' && src != "" && src[|src| - 1] == '_' && !AllUnderlines(src)
    then [(c as int - 32) as char]
    else [c]
  }

  lemma {:induction false} LeadingIs(s: string)
    ensures AllUnderlines(s) <==> Leading(s) == |s|
  {
    if s != "" && s[0] == '_' {
      LeadingIs(s[1..]);
      assert forall i :: 1 <= i < |s| ==> s[i] == s[1..][i - 1];
    }
  }

  lemma {:induction false} BodyAdds(s: string, flag: bool, c: char)
    ensures CamelBody(s + [c], flag) == CamelBody(s, flag) +
      if c == '_' then ""
      else if 'a' <= c <= 'z' && (if s == "" then flag else s[|s| - 1] == '_') then [(c as int - 32) as char]
      else [c]
    decreases |s|
  {
    var t := s + [c];
    if s == "" {
      assert t[1..] == "" && t[0] == c;
    } else {
      assert t[1..] == s[1..] + [c] && t[0] == s[0];
      BodyAdds(s[1..], s[0] == '_', c);
      BodyGroups(s, flag);
    }
  }

  lemma BodyGroups(s: string, flag: bool)
    requires s != ""
    ensures CamelBody(s, flag) ==
      (if s[0] == '_' then "" else [if flag && IsLower(s[0]) then ToUpper(s[0]) else s[0]]) + CamelBody(s[1..], s[0] == '_')
  {
  }

  /** The name of any source: nothing gives nothing, and each further character adds what is said
      above. */
  lemma {:induction false} AnyName(src: string, c: char)
    ensures CamelName("") == ""
    ensures CamelName(src + [c]) == CamelName(src) + Adds(src, c)
  {
    var k := Leading(src);
    LeadingIs(src);
    if AllUnderlines(src) {
      assert src[..k] == src && src[k..] == "";
      AfterUnderlines(src, c);
    } else {
      assert src == src[..k] + src[k..];
      AfterBody(src[..k], src[k..], c);
    }
  }

  lemma AfterBody(lead: string, body: string, c: char)
    requires AllUnderlines(lead) && body != "" && body[0] != '_'
    ensures CamelName((lead + body) + [c]) == CamelName(lead + body) + Adds(lead + body, c)
  {
    var src := lead + body;
    var before, after := CamelBody(body, false), CamelBody(body + [c], false);
    assert CamelName(src) == lead + before by {
      CamelOfParts(lead, body);
    }
    assert CamelName(src + [c]) == lead + after by {
      assert src + [c] == lead + (body + [c]);
      CamelOfParts(lead, body + [c]);
    }
    assert after == before + Adds(src, c) by {
      assert src[|lead|] == body[0] && src[|src| - 1] == body[|body| - 1];
      BodyAdds(body, false, c);
    }
    assert lead + (before + Adds(src, c)) == (lead + before) + Adds(src, c);
  }

  lemma AfterUnderlines(src: string, c: char)
    requires AllUnderlines(src)
    ensures CamelName(src) == src && CamelName(src + [c]) == src + [c]
  {
    LeadingIs(src);
    assert src[..|src|] == src && src[|src|..] == "";
    if c == '_' {
      LeadingIs(src + [c]);
      assert (src + [c])[..|src| + 1] == src + [c] && (src + [c])[|src| + 1..] == "";
    } else {
      CamelOfParts(src, [c]);
      assert [c][1..] == "";
    }
  }

  /** The first loop: the leading underscores are copied. It has no bound of its own. */
  method CopyLeading(src: string, jsName: array<char>) returns (n: nat)
    requires Leading(src) < jsName.Length
    modifies jsName
    ensures n == Leading(src) && jsName[..n] == src[..n]
  {
    n := 0;
    while n < |src| && src[n] == '_'
      invariant n <= Leading(src)
      invariant jsName[..n] == src[..n]
    {
      jsName[n] := '_';
      n := n + 1;
      assert src[..n] == src[..n - 1] + ['_'];
    }
  }

  /** The second loop: the rest is written after what is there, as far as it fits. */
  method CopyBody(src: string, start: nat, jsName: array<char>) returns (dest: nat)
    requires start <= |src| && start < jsName.Length
    modifies jsName
    ensures start <= dest < jsName.Length
    ensures var whole := old(jsName[..start]) + CamelBody(src[start..], false);
      jsName[..dest] == whole[..Min(|whole|, jsName.Length - 1)]
  {
    var p, last, isUnderline := start, jsName.Length - 1, false;
    dest := start;
    ghost var written := jsName[..dest];
    ghost var whole := written + CamelBody(src[p..], false);
    while p < |src| && dest < last
      invariant p <= |src| && start <= dest <= last
      invariant jsName[..dest] == written
      invariant written + CamelBody(src[p..], isUnderline) == whole
    {
      var c := src[p];
      OneCharacter(src, p, isUnderline, written);
      if c == '_' {
        isUnderline := true;
      } else {
        if isUnderline && IsLower(c) {
          c := ToUpper(c);
        }
        jsName[dest] := c;
        dest := dest + 1;
        written := written + [c];
        isUnderline := false;
      }
      p := p + 1;
    }
    Finished(whole, written, src[p..], isUnderline, last);
  }

  /** `underline_to_camel`. `src` is the text before the terminator; `jsName` is the static
      array the C function returns. The leading underscores must fit. */
  method UnderlineToCamel(src: string, jsName: array<char>) returns (dest: nat)
    requires jsName.Length == NAME_SIZE
    requires '\0' !in src
    requires Leading(src) < NAME_SIZE
    modifies jsName
    ensures dest < NAME_SIZE
    ensures dest == Min(|CamelName(src)|, 511) && jsName[..dest] == CamelName(src)[..dest] == JsName(src)
    ensures jsName[dest] == '\0'
  {
    var leading := CopyLeading(src, jsName);
    dest := CopyBody(src, leading, jsName);
    jsName[dest] := '\0';
  }

  /** What one round of the second loop writes. */
  lemma OneCharacter(src: string, p: nat, flag: bool, written: string)
    requires p < |src|
    ensures written + CamelBody(src[p..], flag) ==
      if src[p] == '_' then written + CamelBody(src[p + 1..], true)
      else (written + [if flag && IsLower(src[p]) then ToUpper(src[p]) else src[p]]) + CamelBody(src[p + 1..], false)
  {
    assert src[p..][1..] == src[p + 1..];
  }

  /** The loop ends at the end of the source or of the array. */
  lemma Finished(whole: string, written: string, rest: string, flag: bool, last: nat)
    requires written + CamelBody(rest, flag) == whole
    requires |written| <= last && (rest == "" || |written| == last)
    ensures written == whole[..Min(|whole|, last)]
  {
    assert whole[..|written|] == written;
  }
}
