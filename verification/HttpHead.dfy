/** Request heads: `Helper.parseHeader` of coffee/net/http.coffee, how a head is rendered, and
    where it ends. */
module HttpHead {
  import opened Search
  import opened Text

  const CRLF := "\r\n"
  const HEADER_DELIM := "\r\n\r\n"
  const COLON := ": "
  const SPACE := " "

  /** What `parseHeader` returns; a request line without a space leaves the URI undefined. */
  datatype Env = Env(verb: string, requestUri: Option<string>, header: map<string, string>)

  // ---- parseHeader ----

  /** One line of the head: skipped unless it holds ": ", and cut at the second one. */
  function AddField(header: map<string, string>, field: string): map<string, string> {
    var kv := SplitLimit(field, COLON, 2);
    if |kv| < 2 then header else header[kv[0] := kv[1]]
  }

  function AddFields(header: map<string, string>, fields: seq<string>): map<string, string> {
    if fields == [] then header
    else AddField(AddFields(header, fields[..|fields| - 1]), fields[|fields| - 1])
  }

  function ParseHead(text: string): Env {
    var lines := Split(text, CRLF);
    var request := SplitLimit(lines[0], SPACE, 3);
    Env(request[0], if |request| > 1 then Some(request[1]) else None, AddFields(map[], lines[1..]))
  }

  /** The text before the first separator, or all of it. */
  function Before(text: string, sep: string): string {
    match IndexOf(text, sep, 0) case None => text case Some(p) => text[..p]
  }

  /** The text after the first separator. */
  function After(text: string, sep: string): string
    requires Contains(text, sep)
  {
    text[IndexOf(text, sep, 0).value + |sep|..]
  }

  lemma TwoPieces(text: string, sep: string, limit: nat)
    requires sep != "" && limit >= 2
    ensures var parts := SplitLimit(text, sep, limit);
      && |parts| >= 1 && parts[0] == Before(text, sep)
      && (|parts| >= 2 <==> Contains(text, sep))
      && (|parts| >= 2 ==> parts[1] == Before(After(text, sep), sep))
  {
    if Contains(text, sep) {
      var rest := After(text, sep);
      assert Split(text, sep) == [Before(text, sep)] + Split(rest, sep);
      assert Split(rest, sep)[0] == Before(rest, sep);
    }
  }

  /** Any line: without ": " it is skipped, otherwise the key ends at the first ": " and the
      value at the next one. */
  lemma AnyField(header: map<string, string>, field: string)
    ensures AddField(header, field) ==
      if Contains(field, COLON) then header[Before(field, COLON) := Before(After(field, COLON), COLON)] else header
  {
    TwoPieces(field, COLON, 2);
  }

  /** Any head: the method ends at the first space of the first line, the URI at the next one,
      and without a space there is no URI. */
  lemma AnyRequestLine(text: string)
    ensures var line := Before(text, "\r\n"); var env := ParseHead(text);
      && env.verb == Before(line, " ")
      && env.requestUri == if Contains(line, " ") then Some(Before(After(line, " "), " ")) else None
  {
    assert Split(text, CRLF)[0] == Before(text, CRLF);
    TwoPieces(Before(text, CRLF), SPACE, 3);
  }

  /** The line holds ": " and has `key` before the first one. */
  predicate HasKey(line: string, key: string) { Contains(line, ": ") && Before(line, ": ") == key }

  /** The last line with that key. */
  function LastField(lines: seq<string>, key: string): (r: Option<nat>)
    ensures r.Some? ==> r.value < |lines| && HasKey(lines[r.value], key)
  {
    if lines == [] then None
    else if HasKey(lines[|lines| - 1], key) then Some(|lines| - 1)
    else LastField(lines[..|lines| - 1], key)
  }

  lemma {:induction false} LastFieldIs(lines: seq<string>, key: string)
    ensures match LastField(lines, key)
      case None => forall i :: 0 <= i < |lines| ==> !HasKey(lines[i], key)
      case Some(i) => HasKey(lines[i], key) && forall j :: i < j < |lines| ==> !HasKey(lines[j], key)
  {
    if lines != [] && !HasKey(lines[|lines| - 1], key) {
      var front := lines[..|lines| - 1];
      LastFieldIs(front, key);
      assert forall i :: 0 <= i < |front| ==> front[i] == lines[i];
    }
  }

  lemma {:induction false} LastFieldCounts(lines: seq<string>, key: string)
    ensures var header := AddFields(map[], lines);
      match LastField(lines, key)
      case None => key !in header
      case Some(i) => key in header && header[key] == Before(After(lines[i], COLON), COLON)
  {
    if lines != [] {
      var front, line := lines[..|lines| - 1], lines[|lines| - 1];
      LastFieldCounts(front, key);
      AnyField(AddFields(map[], front), line);
    }
  }

  /** Any text at all: a key is in the map exactly when some line after the first has it, and its
      value is what the last such line has between its first ": " and the next, or up to its
      end. No other line matters. */
  lemma {:induction false} AnyHead(text: string, key: string)
    ensures var fields := Split(text, "\r\n")[1..]; var header := ParseHead(text).header;
      && (key in header <==> exists i :: 0 <= i < |fields| && HasKey(fields[i], key))
      && (key in header ==>
            exists i :: 0 <= i < |fields| && IsLastField(fields, key, i)
              && header[key] == Before(After(fields[i], ": "), ": "))
  {
    var fields := Split(text, CRLF)[1..];
    LastFieldIs(fields, key);
    LastFieldCounts(fields, key);
    if LastField(fields, key).Some? {
      assert IsLastField(fields, key, LastField(fields, key).value);
    }
  }

  predicate IsLastField(lines: seq<string>, key: string, i: nat)
    requires i < |lines|
  {
    HasKey(lines[i], key) && forall j :: i < j < |lines| ==> !HasKey(lines[j], key)
  }

  method ParseHeader(text: string) returns (env: Env)
    ensures env == ParseHead(text)
  {
    var header := map[];
    var fields := Split(text, CRLF);
    var request := fields[0];
    fields := fields[1..];
    var words := SplitLimit(request, SPACE, 3);
    var verb := words[0];
    var requestUri := if |words| > 1 then Some(words[1]) else None;
    var i := 0;
    while i < |fields|
      invariant 0 <= i <= |fields|
      invariant header == AddFields(map[], fields[..i])
    {
      var kv := SplitLimit(fields[i], COLON, 2);
      assert fields[..i + 1][..i] == fields[..i];
      i := i + 1;
      if |kv| < 2 {
        continue;
      }
      header := header[kv[0] := kv[1]];
    }
    assert fields[..i] == fields;
    env := Env(verb, requestUri, header);
  }

  // ---- rendering ----

  datatype Field = Field(key: string, value: string)

  datatype Request = Request(verb: string, uri: string, version: string, fields: seq<Field>)

  function RenderField(f: Field): string { f.key + COLON + f.value }

  function RequestLine(r: Request): string { r.verb + SPACE + r.uri + SPACE + r.version }

  function RenderFields(fields: seq<Field>): (lines: seq<string>)
    ensures |lines| == |fields|
    ensures forall i :: 0 <= i < |fields| ==> lines[i] == RenderField(fields[i])
  {
    if fields == [] then [] else RenderFields(fields[..|fields| - 1]) + [RenderField(fields[|fields| - 1])]
  }

  function Lines(r: Request): seq<string> { [RequestLine(r)] + RenderFields(r.fields) }

  /** The head as it is sent: each line ended by CRLF, then an empty line. */
  function RenderHead(r: Request): string { Join(Lines(r) + ["", ""], CRLF) }

  /** A later field with the same key replaces an earlier one. */
  function FieldMap(fields: seq<Field>): map<string, string> {
    if fields == [] then map[]
    else FieldMap(fields[..|fields| - 1])[fields[|fields| - 1].key := fields[|fields| - 1].value]
  }

  predicate PlainField(f: Field) { !Contains(f.key, COLON) && !Contains(f.value, COLON) }

  predicate PlainRequest(r: Request) {
    && !Contains(r.verb, SPACE) && !Contains(r.uri, SPACE)
    && (forall i :: 0 <= i < |r.fields| ==> PlainField(r.fields[i]))
    && (forall i :: 0 <= i < |Lines(r)| ==> !Contains(Lines(r)[i], CRLF))
  }

  lemma Separators()
    ensures Borderless(CRLF) && Borderless(COLON) && Borderless(SPACE)
  {
    assert CRLF[1..] == "\n" && CRLF[..1] == "\r";
    assert COLON[1..] == " " && COLON[..1] == ":";
  }

  /** If the first pieces already join to the whole text, there are no others. */
  lemma FirstPieces(text: string, sep: string, limit: nat)
    requires sep != ""
    ensures limit >= 1 && Join(SplitLimit(text, sep, limit), sep) == text ==>
      SplitLimit(text, sep, limit) == Split(text, sep)
  {
    var parts := Split(text, sep);
    if limit >= 1 && |parts| > limit {
      JoinOfSplit(text, sep);
      JoinTake(parts, sep, limit);
    }
  }

  lemma {:induction false} JoinTake(parts: seq<string>, sep: string, k: nat)
    requires sep != "" && 1 <= k < |parts|
    ensures |Join(parts[..k], sep)| < |Join(parts, sep)|
  {
    if k > 1 {
      assert parts[..k][1..] == parts[1..][..k - 1];
      JoinTake(parts[1..], sep, k - 1);
    }
  }

  /** A rendered field is read back exactly when neither half holds ": ". */
  lemma FieldReadsBack(f: Field)
    ensures SplitLimit(RenderField(f), COLON, 2) == [f.key, f.value] <==> PlainField(f)
  {
    var pair := [f.key, f.value];
    assert pair[1..] == [f.value];
    assert RenderField(f) == Join(pair, COLON);
    Separators();
    SplitOfJoinBorderless(pair, COLON);
    FirstPieces(RenderField(f), COLON, 2);
  }

  lemma {:induction false} FieldsReadBack(fields: seq<Field>)
    requires forall i :: 0 <= i < |fields| ==> PlainField(fields[i])
    ensures AddFields(map[], RenderFields(fields)) == FieldMap(fields)
  {
    if fields != [] {
      var front, last := fields[..|fields| - 1], fields[|fields| - 1];
      FieldsReadBack(front);
      FieldReadsBack(last);
      var lines := RenderFields(fields);
      assert lines[..|lines| - 1] == RenderFields(front);
    }
  }

  lemma EmptyLinesAddNothing(header: map<string, string>, lines: seq<string>)
    ensures AddFields(header, lines + ["", ""]) == AddFields(header, lines)
  {
    var all := lines + ["", ""];
    assert all[..|all| - 1] == lines + [""];
    assert (lines + [""])[..|lines|] == lines;
    assert Split("", COLON) == [""];
  }

  lemma RequestLineReadsBack(r: Request)
    requires !Contains(r.verb, SPACE) && !Contains(r.uri, SPACE)
    ensures var words := SplitLimit(RequestLine(r), SPACE, 3);
      |words| > 1 && words[0] == r.verb && words[1] == r.uri
  {
    Separators();
    CleanWhenAbsent(r.verb, SPACE);
    CleanWhenAbsent(r.uri, SPACE);
    var rest := (r.uri + SPACE) + r.version;
    assert RequestLine(r) == (r.verb + SPACE) + rest;
    FirstPiece(r.verb, rest, SPACE);
    FirstPiece(r.uri, r.version, SPACE);
  }

  /** Parsing inverts rendering. */
  lemma ParseOfRender(r: Request)
    requires PlainRequest(r)
    ensures ParseHead(RenderHead(r)) == Env(r.verb, Some(r.uri), FieldMap(r.fields))
  {
    var lines := Lines(r) + ["", ""];
    Separators();
    SplitOfJoinBorderless(lines, CRLF);
    forall i | 0 <= i < |lines| ensures !Contains(lines[i], CRLF) {
      assert i < |Lines(r)| ==> lines[i] == Lines(r)[i];
    }
    assert Split(RenderHead(r), CRLF) == lines;
    assert lines[1..] == RenderFields(r.fields) + ["", ""];
    RequestLineReadsBack(r);
    FieldsReadBack(r.fields);
    EmptyLinesAddNothing(map[], RenderFields(r.fields));
  }

  /** With distinct keys the map holds every field and nothing else. */
  lemma {:induction false} FieldMapIsExact(fields: seq<Field>)
    requires forall i, j :: 0 <= i < j < |fields| ==> fields[i].key != fields[j].key
    ensures forall i :: 0 <= i < |fields| ==>
      fields[i].key in FieldMap(fields) && FieldMap(fields)[fields[i].key] == fields[i].value
    ensures forall k :: k in FieldMap(fields) ==> exists i :: 0 <= i < |fields| && fields[i].key == k
  {
    if fields != [] {
      var n := |fields| - 1;
      var front := fields[..n];
      FieldMapIsExact(front);
      forall i | 0 <= i < |fields|
        ensures fields[i].key in FieldMap(fields) && FieldMap(fields)[fields[i].key] == fields[i].value
      {
        if i < n {
          assert front[i] == fields[i];
        }
      }
      forall k | k in FieldMap(fields) ensures exists i :: 0 <= i < |fields| && fields[i].key == k {
        if k == fields[n].key {
        } else {
          var i :| 0 <= i < n && front[i].key == k;
          assert fields[i].key == k;
        }
      }
    }
  }

  // ---- where a head ends ----

  lemma FirstLineEnd(line: string, rest: string)
    requires !Contains(line, CRLF)
    ensures IndexOf((line + CRLF) + rest, CRLF, 0) == Some(|line|)
  {
    Separators();
    CleanWhenAbsent(line, CRLF);
    IndexOfPrefix(line + CRLF, rest, CRLF);
  }

  lemma JoinFirst(lines: seq<string>, more: seq<string>, sep: string)
    requires lines != [] && more != []
    ensures Join(lines + more, sep) == (lines[0] + sep) + Join(lines[1..] + more, sep)
  {
    assert (lines + more)[1..] == lines[1..] + more;
  }

  lemma DelimIsTwo(text: string, q: nat)
    ensures OccursAt(text, HEADER_DELIM, q) <==> OccursAt(text, CRLF, q) && OccursAt(text, CRLF, q + 2)
  {
    if q + 4 <= |text| {
      var a, b := text[q..q + 2], text[q + 2..q + 4];
      assert text[q..q + 4] == a + b;
      assert HEADER_DELIM == CRLF + CRLF;
      assert (a + b)[..2] == a && (a + b)[2..] == b;
      assert (CRLF + CRLF)[..2] == CRLF && (CRLF + CRLF)[2..] == CRLF;
    }
  }

  lemma NotBetween(text: string, p: nat)
    requires OccursAt(text, CRLF, p)
    ensures !OccursAt(text, CRLF, p + 1)
  {
    assert text[p + 1] == text[p..p + 2][1] == '\n';
  }

  lemma FirstDelim(text: string, p: nat)
    requires IndexOf(text, CRLF, 0) == Some(p)
    requires OccursAt(text, HEADER_DELIM, p)
    ensures IndexOf(text, HEADER_DELIM, 0) == Some(p)
  {
    FirstOccurrence(text, CRLF, 0);
    forall q | 0 <= q < p ensures !OccursAt(text, HEADER_DELIM, q) {
      DelimIsTwo(text, q);
    }
    IndexOfIs(text, HEADER_DELIM, p);
  }

  lemma OccursShift(base: string, rest: string, sep: string, q: nat)
    requires q >= |base|
    ensures OccursAt(base + rest, sep, q) <==> OccursAt(rest, sep, q - |base|)
  {
    if q + |sep| <= |base + rest| {
      assert (base + rest)[q..q + |sep|] == rest[q - |base|..q - |base| + |sep|];
    }
  }

  lemma NoneBefore(text: string, p: nat, q: nat)
    requires IndexOf(text, CRLF, 0) == Some(p) && q < p
    ensures !OccursAt(text, CRLF, q)
  {
    FirstOccurrence(text, CRLF, 0);
  }

  lemma NotAfterLine(base: string, rest: string)
    requires !OccursAt(rest, CRLF, 0)
    ensures !OccursAt(base + rest, CRLF, |base|)
  {
    OccursShift(base, rest, CRLF, |base|);
  }

  lemma NotInLineEnd(text: string, p: nat)
    requires IndexOf(text, CRLF, 0) == Some(p)
    ensures !OccursAt(text, CRLF, p + 1)
  {
    FirstOccurrence(text, CRLF, 0);
    NotBetween(text, p);
  }

  lemma NeedsTwo(text: string, q: nat)
    requires !OccursAt(text, CRLF, q) || !OccursAt(text, CRLF, q + 2)
    ensures !OccursAt(text, HEADER_DELIM, q)
  {
    DelimIsTwo(text, q);
  }

  /** No delimiter starts in a line that ends at `p` and is not followed by an empty one. */
  lemma NotInFirstLine(text: string, p: nat, q: nat)
    requires IndexOf(text, CRLF, 0) == Some(p) && !OccursAt(text, CRLF, p + 2)
    requires q < p + 2
    ensures !OccursAt(text, HEADER_DELIM, q)
  {
    if q < p {
      NoneBefore(text, p, q);
    } else if q == p + 1 {
      NotInLineEnd(text, p);
    }
    NeedsTwo(text, q);
  }

  lemma DelimAt(base: string, rest: string, p: nat)
    requires IndexOf(rest, HEADER_DELIM, 0) == Some(p)
    ensures OccursAt(base + rest, HEADER_DELIM, |base| + p)
  {
    FirstOccurrence(rest, HEADER_DELIM, 0);
    OccursShift(base, rest, HEADER_DELIM, |base| + p);
  }

  /** A line end that no other line end follows at once starts no delimiter. */
  lemma LaterDelim(base: string, rest: string, p: nat)
    requires |base| >= 2 && IndexOf(base + rest, CRLF, 0) == Some(|base| - 2)
    requires !OccursAt(rest, CRLF, 0)
    requires IndexOf(rest, HEADER_DELIM, 0) == Some(p)
    ensures IndexOf(base + rest, HEADER_DELIM, 0) == Some(|base| + p)
  {
    var text, at := base + rest, |base| + p;
    DelimAt(base, rest, p);
    forall q | 0 <= q < at ensures !OccursAt(text, HEADER_DELIM, q) {
      NotBeforeDelim(base, rest, p, q);
    }
    IndexOfIs(text, HEADER_DELIM, at);
  }

  lemma NotBeforeDelim(base: string, rest: string, p: nat, q: nat)
    requires |base| >= 2 && IndexOf(base + rest, CRLF, 0) == Some(|base| - 2)
    requires !OccursAt(rest, CRLF, 0)
    requires IndexOf(rest, HEADER_DELIM, 0) == Some(p)
    requires q < |base| + p
    ensures !OccursAt(base + rest, HEADER_DELIM, q)
  {
    if q < |base| {
      NotAfterLine(base, rest);
      NotInFirstLine(base + rest, |base| - 2, q);
    } else {
      FirstOccurrence(rest, HEADER_DELIM, 0);
      OccursShift(base, rest, HEADER_DELIM, q);
    }
  }

  predicate EndsAtDelim(text: string) {
    |text| >= 4 && IndexOf(text, HEADER_DELIM, 0) == Some(|text| - 4)
  }

  lemma LastLine(line: string)
    requires !Contains(line, CRLF)
    ensures EndsAtDelim((line + CRLF) + CRLF)
  {
    var text := (line + CRLF) + CRLF;
    FirstLineEnd(line, CRLF);
    assert text[|line|..|line| + 4] == HEADER_DELIM;
    FirstDelim(text, |line|);
  }

  lemma OneMoreLine(line: string, next: string, later: string)
    requires !Contains(line, CRLF) && !Contains(next, CRLF) && next != ""
    requires EndsAtDelim((next + CRLF) + later)
    ensures EndsAtDelim((line + CRLF) + ((next + CRLF) + later))
  {
    var rest := (next + CRLF) + later;
    FirstLineEnd(line, rest);
    FirstLineEnd(next, later);
    FirstOccurrence(rest, CRLF, 0);
    LaterDelim(line + CRLF, rest, |rest| - 4);
  }

  /** The header delimiter occurs only at the very end of a list of nonempty lines. */
  lemma {:induction false} DelimAtEnd(lines: seq<string>)
    requires |lines| >= 1
    requires forall i :: 0 <= i < |lines| ==> lines[i] != "" && !Contains(lines[i], CRLF)
    ensures EndsAtDelim(Join(lines + ["", ""], CRLF))
  {
    var tail, end := lines[1..], ["", ""];
    JoinFirst(lines, end, CRLF);
    if tail == [] {
      assert tail + end == end && end[1..] == [""];
      assert Join(end, CRLF) == CRLF;
      LastLine(lines[0]);
    } else {
      DelimAtEnd(tail);
      JoinFirst(tail, end, CRLF);
      OneMoreLine(lines[0], tail[0], Join(tail[1..] + end, CRLF));
    }
  }

  /** So the receiver's header token is the whole rendered head. */
  lemma HeadEndsAtDelim(r: Request)
    requires PlainRequest(r)
    ensures EndsAtDelim(RenderHead(r))
  {
    forall i | 0 <= i < |Lines(r)| ensures Lines(r)[i] != "" {
      if i > 0 {
        assert Lines(r)[i] == RenderField(r.fields[i - 1]);
      }
    }
    DelimAtEnd(Lines(r));
  }
}
