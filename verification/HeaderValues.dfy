/** The readings of header values made by `Client.recvHeader` and `Client.recvBody`:
    JavaScript's `parseInt`, the multipart test, the boundary match and the keep-alive test. */
module HeaderValues {
  import opened Search
  import opened Text

  /** A JavaScript number as far as `parseInt` goes. */
  datatype Number = NaN | Num(n: int)

  predicate IsSpace(c: char) {
    c == ' ' || c == '\t' || c == '\n' || c == '\r' || c as int == 11 || c as int == 12
  }

  function Trim(s: string): string {
    if s != "" && IsSpace(s[0]) then Trim(s[1..]) else s
  }

  /** The value of a digit; anything else counts as more than any radix. */
  function Digit(c: char): nat {
    if '0' <= c <= '9' then c as int - '0' as int
    else if 'a' <= c <= 'f' then c as int - 'a' as int + 10
    else if 'A' <= c <= 'F' then c as int - 'A' as int + 10
    else 99
  }

  function LeadingDigits(s: string, radix: nat): string {
    if s != "" && Digit(s[0]) < radix then [s[0]] + LeadingDigits(s[1..], radix) else ""
  }

  function Value(digits: string, radix: nat): nat {
    if digits == "" then 0
    else Value(digits[..|digits| - 1], radix) * radix + Digit(digits[|digits| - 1])
  }

  /** The digits after the sign; "0x" makes them hexadecimal. */
  function Magnitude(s: string): Number {
    var hex := |s| >= 2 && s[0] == '0' && (s[1] == 'x' || s[1] == 'X');
    var radix := if hex then 16 else 10;
    var digits := LeadingDigits(if hex then s[2..] else s, radix);
    if digits == "" then NaN else Num(Value(digits, radix))
  }

  function Negate(n: Number): Number { if n.Num? then Num(-n.n) else NaN }

  /** `parseInt(s)` with no radix, section 15.1.2.2 of ECMA-262 (5th edition). */
  function ParseInt(s: string): Number {
    var t := Trim(s);
    if t != "" && t[0] == '-' then Negate(Magnitude(t[1..]))
    else if t != "" && t[0] == '+' then Magnitude(t[1..])
    else Magnitude(t)
  }

  /** `buffer.size() >= n`; no comparison with NaN holds. */
  predicate AtLeast(size: nat, n: Number) { n.Num? && size >= n.n }

  function ToLowerCase(s: string): (t: string)
    ensures |t| == |s|
  {
    seq(|s|, i requires 0 <= i < |s| => if 'A' <= s[i] <= 'Z' then s[i] - 'A' + 'a' else s[i])
  }

  predicate KeepAlive(header: map<string, string>) {
    "Connection" in header && ToLowerCase(header["Connection"]) == "keep-alive"
  }

  /** Without a Connection field the connection is closed. With one, capital and small letters are
      the same, and nothing else is. */
  lemma KeepAliveInAnyCase(header: map<string, string>)
    ensures KeepAlive(header) <==>
      && "Connection" in header
      && var v, k := header["Connection"], "keep-alive";
      |v| == |k| && forall i :: 0 <= i < |k| ==> v[i] == k[i] || (k[i] != '-' && v[i] as int == k[i] as int - 32)
  {
    if "Connection" in header {
      AnyCase(header["Connection"], "keep-alive");
    }
  }

  lemma AnyCase(v: string, k: string)
    requires forall i :: 0 <= i < |k| ==> 'a' <= k[i] <= 'z' || k[i] == '-'
    ensures ToLowerCase(v) == k <==>
      |v| == |k| && forall i :: 0 <= i < |k| ==> v[i] == k[i] || (k[i] != '-' && v[i] as int == k[i] as int - 32)
  {
    if |v| == |k| {
      forall i | 0 <= i < |k|
        ensures ToLowerCase(v)[i] == k[i] <==> v[i] == k[i] || (k[i] != '-' && v[i] as int == k[i] as int - 32)
      {
        assert ToLowerCase(v)[i] == if 'A' <= v[i] <= 'Z' then v[i] - 'A' + 'a' else v[i];
      }
      assert ToLowerCase(v) == k <==> forall i :: 0 <= i < |k| ==> ToLowerCase(v)[i] == k[i];
    }
  }

  /** `match /^multipart\/form-data/`. */
  predicate IsMultipart(contentType: string) { "multipart/form-data" <= contentType }

  /** Exactly the types that begin with that text, in just these letters. */
  lemma MultipartType(contentType: string)
    ensures IsMultipart(contentType) <==> exists rest: string :: contentType == "multipart/form-data" + rest
    ensures IsMultipart(contentType) <==>
      |contentType| >= 19 && forall i :: 0 <= i < 19 ==> contentType[i] == "multipart/form-data"[i]
  {
    var start := "multipart/form-data";
    if IsMultipart(contentType) {
      assert contentType == start + contentType[19..];
    }
    if |contentType| >= 19 && forall i :: 0 <= i < 19 ==> contentType[i] == start[i] {
      assert contentType[..19] == start;
    }
  }

  function UpToLineEnd(s: string): string {
    if s == "" || s[0] == '\n' || s[0] == '\r' then "" else [s[0]] + UpToLineEnd(s[1..])
  }

  /** The group of `match /boundary=(.*)/`: the rest of the line after the first "boundary=". */
  function BoundaryOf(contentType: string): Option<string> {
    match IndexOf(contentType, "boundary=", 0)
    case None => None
    case Some(p) => Some(UpToLineEnd(contentType[p + 9..]))
  }

  // ---- a length written in decimal is read back ----

  function DigitChar(d: nat): (c: char)
    requires d < 10
    ensures '0' <= c <= '9' && Digit(c) == d
  {
    '0' + d as char
  }

  function Decimal(n: nat): (s: string)
    ensures s != ""
  {
    if n < 10 then [DigitChar(n)] else Decimal(n / 10) + [DigitChar(n % 10)]
  }

  lemma {:induction false} DecimalDigits(n: nat)
    ensures Value(Decimal(n), 10) == n
    ensures forall i :: 0 <= i < |Decimal(n)| ==> '0' <= Decimal(n)[i] <= '9'
  {
    if n >= 10 {
      DecimalDigits(n / 10);
      var s := Decimal(n);
      assert s[..|s| - 1] == Decimal(n / 10);
    } else {
      assert Decimal(n)[..0] == "";
    }
  }

  lemma {:induction false} AllDigits(s: string)
    requires forall i :: 0 <= i < |s| ==> '0' <= s[i] <= '9'
    ensures LeadingDigits(s, 10) == s
  {
    if s != "" {
      AllDigits(s[1..]);
      assert s == [s[0]] + s[1..];
    }
  }

  lemma PlainDigits(s: string)
    requires s != "" && forall i :: 0 <= i < |s| ==> '0' <= s[i] <= '9'
    ensures ParseInt(s) == Num(Value(s, 10))
  {
    AllDigits(s);
    var c := s[0];
    assert '0' <= c <= '9';
    assert Trim(s) == s;
    if |s| >= 2 {
      var d := s[1];
      assert '0' <= d <= '9';
    }
    assert Magnitude(s) == Num(Value(s, 10));
  }

  /** A length written in decimal is read back. */
  lemma ParseIntOfDecimal(n: nat)
    ensures ParseInt(Decimal(n)) == Num(n)
  {
    DecimalDigits(n);
    PlainDigits(Decimal(n));
  }

  // ---- any text ----

  const LOWER := "0123456789abcdef"
  const UPPER := "0123456789ABCDEF"

  /** A digit in the given radix, by its characters. */
  predicate IsDigit(c: char, radix: nat) {
    '0' <= c <= '9' || (radix == 16 && ('a' <= c <= 'f' || 'A' <= c <= 'F'))
  }

  lemma DigitsOfAlphabet(k: nat)
    requires k < 16
    ensures Digit(LOWER[k]) == k == Digit(UPPER[k])
  {
    assert forall i :: 0 <= i < 10 ==> LOWER[i] as int == '0' as int + i && UPPER[i] == LOWER[i];
    assert forall i :: 10 <= i < 16 ==> LOWER[i] as int == 'a' as int + i - 10;
    assert forall i :: 10 <= i < 16 ==> UPPER[i] as int == 'A' as int + i - 10;
  }

  /** No digits are worth nothing, and one more digit at the end counts as much as its place in the
      alphabet, in either case, while those before it count `radix` times as much. */
  lemma OneMoreDigit(digits: string, k: nat, radix: nat)
    requires k < radix <= 16
    ensures Value("", radix) == 0
    ensures Value(digits + [LOWER[k]], radix) == Value(digits, radix) * radix + k
    ensures Value(digits + [UPPER[k]], radix) == Value(digits, radix) * radix + k
  {
    DigitsOfAlphabet(k);
    var a, b := digits + [LOWER[k]], digits + [UPPER[k]];
    assert a[..|a| - 1] == digits == b[..|b| - 1];
  }

  lemma {:induction false} TrimmedParts(s: string) returns (blanks: string)
    ensures s == blanks + Trim(s)
    ensures forall i :: 0 <= i < |blanks| ==> blanks[i] in " \t\n\r" || blanks[i] as int in {11, 12}
    ensures Trim(s) != "" ==> Trim(s)[0] !in " \t\n\r" && Trim(s)[0] as int !in {11, 12}
  {
    blanks := "";
    if s != "" && IsSpace(s[0]) {
      var b := TrimmedParts(s[1..]);
      blanks := [s[0]] + b;
      assert s == [s[0]] + s[1..];
    }
  }

  lemma {:induction false} LeadingParts(s: string, radix: nat) returns (tail: string)
    requires radix == 10 || radix == 16
    ensures s == LeadingDigits(s, radix) + tail
    ensures forall i :: 0 <= i < |LeadingDigits(s, radix)| ==> IsDigit(LeadingDigits(s, radix)[i], radix)
    ensures tail != "" ==> !IsDigit(tail[0], radix)
  {
    tail := s;
    if s != "" && Digit(s[0]) < radix {
      tail := LeadingParts(s[1..], radix);
      assert s == [s[0]] + s[1..];
    }
  }

  /** The parts of a text that count for its number. */
  datatype Numeral = Numeral(blanks: string, sign: string, prefix: string, digits: string, tail: string)

  function Radix(n: Numeral): nat { if n.prefix == "" then 10 else 16 }

  /** Each part is as long as it can be. */
  predicate IsNumeral(n: Numeral, s: string) {
    var body := n.prefix + (n.digits + n.tail);
    && s == n.blanks + (n.sign + body)
    && (forall i :: 0 <= i < |n.blanks| ==> n.blanks[i] in " \t\n\r" || n.blanks[i] as int in {11, 12})
    && (n.sign + body != "" ==> (n.sign + body)[0] !in " \t\n\r" && (n.sign + body)[0] as int !in {11, 12})
    && n.sign in ["", "-", "+"] && (n.sign == "" && body != "" ==> body[0] != '-' && body[0] != '+')
    && n.prefix in ["", "0x", "0X"]
    && (n.prefix == "" && |body| >= 2 ==> body[..2] != "0x" && body[..2] != "0X")
    && (forall i :: 0 <= i < |n.digits| ==> IsDigit(n.digits[i], Radix(n)))
    && (n.tail != "" ==> !IsDigit(n.tail[0], Radix(n)))
  }

  /** `Magnitude` of the text after the sign. */
  lemma MagnitudeOfAny(s: string) returns (prefix: string, digits: string, tail: string)
    ensures s == prefix + (digits + tail) && prefix in ["", "0x", "0X"]
    ensures prefix == "" && |s| >= 2 ==> s[..2] != "0x" && s[..2] != "0X"
    ensures var radix := if prefix == "" then 10 else 16;
      && (forall i :: 0 <= i < |digits| ==> IsDigit(digits[i], radix))
      && (tail != "" ==> !IsDigit(tail[0], radix))
      && Magnitude(s) == if digits == "" then NaN else Num(Value(digits, radix))
  {
    var hex := |s| >= 2 && s[0] == '0' && (s[1] == 'x' || s[1] == 'X');
    prefix := if hex then s[..2] else "";
    if hex {
      assert s[..2] == [s[0], s[1]] && "0x" == ['0', 'x'] && "0X" == ['0', 'X'];
      tail := LeadingParts(s[2..], 16);
      digits := LeadingDigits(s[2..], 16);
      assert s == s[..2] + s[2..];
    } else {
      if |s| >= 2 {
        assert s[..2][0] == s[0] && s[..2][1] == s[1];
      }
      tail := LeadingParts(s, 10);
      digits := LeadingDigits(s, 10);
    }
  }

  /** The parts that the trimmed text begins with. */
  lemma SignedParts(s: string) returns (sign: string, body: string)
    ensures Trim(s) == sign + body && sign in ["", "-", "+"]
    ensures sign == "" && body != "" ==> body[0] != '-' && body[0] != '+'
    ensures ParseInt(s) == if sign == "-" then Negate(Magnitude(body)) else Magnitude(body)
  {
    var t := Trim(s);
    var signed := t != "" && (t[0] == '-' || t[0] == '+');
    sign, body := if signed then t[..1] else "", if signed then t[1..] else t;
    if signed {
      assert t[..1] == [t[0]] && "-" == ['-'] && "+" == ['+'];
    }
  }

  /** Any text at all: `parseInt` skips white space, takes a sign and a "0x", and reads as many digits
      as there are; without one it is no number. */
  lemma AnyNumber(s: string) returns (n: Numeral)
    ensures IsNumeral(n, s)
    ensures n.digits == "" ==> ParseInt(s) == NaN
    ensures n.digits != "" && n.sign != "-" ==> ParseInt(s) == Num(Value(n.digits, Radix(n)))
    ensures n.digits != "" && n.sign == "-" ==> ParseInt(s) == Num(0 - Value(n.digits, Radix(n)))
  {
    var blanks := TrimmedParts(s);
    var sign, body := SignedParts(s);
    var prefix, digits, tail := MagnitudeOfAny(body);
    n := Numeral(blanks, sign, prefix, digits, tail);
    assert Radix(n) == if prefix == "" then 10 else 16;
    assert sign + body == Trim(s) && prefix + (digits + tail) == body;
  }

  lemma {:induction false} WholeLine(s: string)
    requires '\n' !in s && '\r' !in s
    ensures UpToLineEnd(s) == s
  {
    if s != "" {
      WholeLine(s[1..]);
      assert s == [s[0]] + s[1..];
    }
  }

  /** The boundary is the rest of the line after the first "boundary=". */
  lemma FirstText(start: string, b: string)
    requires 'b' !in start && '\n' !in b && '\r' !in b
    ensures BoundaryOf(start + ("boundary=" + b)) == Some(b)
  {
    var ct, tail := start + ("boundary=" + b), "boundary=" + b;
    assert ct[|start|..|start| + 9] == tail[..9] == "boundary=";
    assert ct[|start| + 9..] == tail[9..] == b;
    forall q | 0 <= q < |start| ensures !OccursAt(ct, "boundary=", q) {
      assert ct[q] == start[q];
      assert q + 9 <= |ct| ==> ct[q..q + 9][0] == ct[q];
    }
    IndexOfIs(ct, "boundary=", |start|);
    WholeLine(b);
  }

  /** The boundary is found in the header value that browsers send. */
  lemma BoundaryIsRead(b: string)
    requires '\n' !in b && '\r' !in b
    ensures var ct := "multipart/form-data; boundary=" + b;
      IsMultipart(ct) && BoundaryOf(ct) == Some(b)
  {
    var start := "multipart/form-data; ";
    assert "multipart/form-data; boundary=" == start + "boundary=";
    assert "multipart/form-data; boundary=" + b == start + ("boundary=" + b);
    FirstText(start, b);
  }

  // ---- the boundary of any header value ----

  predicate IsLineEnd(c: char) { c == '\n' || c == '\r' }

  lemma {:induction false} LineOf(s: string)
    ensures var line := UpToLineEnd(s);
      && line <= s && (forall i :: 0 <= i < |line| ==> !IsLineEnd(line[i]))
      && (|line| < |s| ==> IsLineEnd(s[|line|]))
  {
    if s != "" && !IsLineEnd(s[0]) {
      LineOf(s[1..]);
    }
  }

  /** What follows the first "boundary=". */
  function AfterBoundary(contentType: string): string
    requires Contains(contentType, "boundary=")
  {
    contentType[IndexOf(contentType, "boundary=", 0).value + 9..]
  }

  /** Any header value: without "boundary=" there is no boundary, otherwise it is all that
      follows the first one on its line. */
  lemma AnyBoundary(contentType: string)
    ensures BoundaryOf(contentType).Some? <==> Contains(contentType, "boundary=")
    ensures BoundaryOf(contentType).Some? ==>
      var b, rest := BoundaryOf(contentType).value, AfterBoundary(contentType);
      && b <= rest && (forall i :: 0 <= i < |b| ==> !IsLineEnd(b[i]))
      && (|b| < |rest| ==> IsLineEnd(rest[|b|]))
  {
    if Contains(contentType, "boundary=") {
      LineOf(AfterBoundary(contentType));
    }
  }

  predicate EndsToken(c: char) { c == ';' || c == ' ' || c == '\t' || IsLineEnd(c) }

  function Token(s: string): string {
    if s == "" || EndsToken(s[0]) then "" else [s[0]] + Token(s[1..])
  }

  function UpToQuote(s: string): string {
    if s == "" || s[0] == '"' then "" else [s[0]] + UpToQuote(s[1..])
  }

  /** The value of a boundary parameter, section 5.1 of RFC 2045: between quotes, or up to the next
      parameter or white space. Boundary characters are neither quotes nor backslashes. */
  function ParameterValue(rest: string): string {
    if rest != "" && rest[0] == '"' then UpToQuote(rest[1..]) else Token(rest)
  }

  /** Where the parameter that `from` lies in ends: at the next semicolon outside quotes. */
  function ParameterEnd(s: string, from: nat, quoted: bool): (e: nat)
    requires from <= |s|
    ensures from <= e <= |s|
    decreases |s| - from
  {
    if from == |s| || (s[from] == ';' && !quoted) then from
    else if quoted && s[from] == '\\' && from + 1 < |s| then ParameterEnd(s, from + 2, true)
    else ParameterEnd(s, from + 1, quoted != (s[from] == '"'))
  }

  function SkipBlanks(s: string, from: nat): (a: nat)
    requires from <= |s|
    ensures from <= a <= |s|
    decreases |s| - from
  {
    if from < |s| && (s[from] == ' ' || s[from] == '\t') then SkipBlanks(s, from + 1) else from
  }

  /** Where the attribute names of the parameters begin; what comes before the first semicolon is
      the type itself. */
  function Attributes(s: string, from: nat): seq<nat>
    requires from <= |s|
    decreases |s| - from
  {
    var e := ParameterEnd(s, from, false);
    if e == |s| then [] else [SkipBlanks(s, e + 1)] + Attributes(s, e + 1)
  }

  /** Attribute names are the same in any case. */
  predicate IsBoundary(s: string, a: nat) {
    a + 9 <= |s| && ToLowerCase(s[a..a + 9]) == "boundary="
  }

  /** A value and where in the header it begins. */
  datatype Found = Found(at: nat, value: string)

  function FirstBoundary(s: string, attributes: seq<nat>): Option<Found> {
    if attributes == [] then None
    else if IsBoundary(s, attributes[0])
    then Some(Found(attributes[0] + 9, ParameterValue(s[attributes[0] + 9..])))
    else FirstBoundary(s, attributes[1..])
  }

  /** The boundary parameter of a content type, section 5.1.1 of RFC 2046. */
  function BoundaryParameter(contentType: string): Option<Found> {
    FirstBoundary(contentType, Attributes(contentType, 0))
  }

  /** The boundary that the client reads, and where. */
  function BoundaryAt(contentType: string): (r: Option<Found>)
    ensures BoundaryOf(contentType) == match r case None => None case Some(f) => Some(f.value)
  {
    match IndexOf(contentType, "boundary=", 0)
    case None => None
    case Some(p) => Some(Found(p + 9, UpToLineEnd(contentType[p + 9..])))
  }

  lemma {:induction false} TokenIsLine(s: string)
    ensures Token(s) == UpToLineEnd(s) <==>
      ';' !in UpToLineEnd(s) && ' ' !in UpToLineEnd(s) && '\t' !in UpToLineEnd(s)
  {
    if s != "" && !IsLineEnd(s[0]) {
      TokenIsLine(s[1..]);
      var line := UpToLineEnd(s[1..]);
      assert UpToLineEnd(s) == [s[0]] + line;
      if !EndsToken(s[0]) {
        assert ([s[0]] + Token(s[1..]))[1..] == Token(s[1..]) && ([s[0]] + line)[1..] == line;
      }
    }
  }

  lemma {:induction false} NoQuoteInside(s: string)
    ensures '"' !in UpToQuote(s)
  {
    if s != "" && s[0] != '"' {
      NoQuoteInside(s[1..]);
    }
  }

  /** `p` is the first attribute that is named boundary. */
  predicate IsFirstBoundary(s: string, attributes: seq<nat>, p: nat) {
    exists i :: 0 <= i < |attributes| && attributes[i] == p && IsBoundary(s, attributes[i])
      && forall j :: 0 <= j < i ==> !IsBoundary(s, attributes[j])
  }

  lemma {:induction false} FirstBoundaryIs(s: string, attributes: seq<nat>) returns (i: nat)
    ensures FirstBoundary(s, attributes).None? ==> forall a :: a in attributes ==> !IsBoundary(s, a)
    ensures FirstBoundary(s, attributes).Some? ==>
      && i < |attributes| && IsBoundary(s, attributes[i])
      && (forall j :: 0 <= j < i ==> !IsBoundary(s, attributes[j]))
      && FirstBoundary(s, attributes) == Some(Found(attributes[i] + 9, ParameterValue(s[attributes[i] + 9..])))
  {
    i := 0;
    if attributes != [] && !IsBoundary(s, attributes[0]) {
      var rest := attributes[1..];
      var k := FirstBoundaryIs(s, rest);
      i := k + 1;
      forall j | 0 < j < |attributes| ensures attributes[j] == rest[j - 1] {
      }
    }
  }

  lemma {:induction false} ValueIsLine(rest: string)
    ensures ParameterValue(rest) == UpToLineEnd(rest) <==>
      && (rest == "" || rest[0] != '"')
      && ';' !in UpToLineEnd(rest) && ' ' !in UpToLineEnd(rest) && '\t' !in UpToLineEnd(rest)
  {
    if rest != "" && rest[0] == '"' {
      NoQuoteInside(rest[1..]);
      assert UpToLineEnd(rest)[0] == '"';
    } else {
      TokenIsLine(rest);
    }
  }

  /** The client reads the boundary parameter, no more and no less of it, exactly when the first
      "boundary=" of the header begins a parameter, no parameter before it is named boundary in
      another case, and its value is not quoted and not followed on its line by another parameter
      or white space; or when there is neither such a text nor such a parameter. */
  lemma BoundaryIsParameter(contentType: string)
    ensures var attributes := Attributes(contentType, 0);
      BoundaryAt(contentType) == BoundaryParameter(contentType) <==>
        match IndexOf(contentType, "boundary=", 0)
        case None => forall a :: a in attributes ==> !IsBoundary(contentType, a)
        case Some(p) =>
          var rest := contentType[p + 9..]; var line := UpToLineEnd(rest);
          && IsFirstBoundary(contentType, attributes, p)
          && (rest == "" || rest[0] != '"') && ';' !in line && ' ' !in line && '\t' !in line
  {
    var attributes := Attributes(contentType, 0);
    match IndexOf(contentType, "boundary=", 0)
    case None => NoneIsRead(contentType, attributes);
    case Some(p) =>
      PlaceOfFirst(contentType, attributes, p);
      ValueIsLine(contentType[p + 9..]);
  }

  lemma NoneIsRead(s: string, attributes: seq<nat>)
    ensures FirstBoundary(s, attributes).None? <==> forall a :: a in attributes ==> !IsBoundary(s, a)
  {
    var i := FirstBoundaryIs(s, attributes);
    if FirstBoundary(s, attributes).Some? {
      assert attributes[i] in attributes;
    }
  }

  lemma PlaceOfFirst(s: string, attributes: seq<nat>, p: nat)
    requires p + 9 <= |s|
    ensures IsFirstBoundary(s, attributes, p) <==>
      FirstBoundary(s, attributes).Some? && FirstBoundary(s, attributes).value.at == p + 9
    ensures IsFirstBoundary(s, attributes, p) ==>
      FirstBoundary(s, attributes) == Some(Found(p + 9, ParameterValue(s[p + 9..])))
  {
    var i := FirstBoundaryIs(s, attributes);
    if IsFirstBoundary(s, attributes, p) {
      var k :| 0 <= k < |attributes| && attributes[k] == p && IsBoundary(s, attributes[k])
        && forall j :: 0 <= j < k ==> !IsBoundary(s, attributes[j]);
      assert attributes[k] in attributes;
      assert i == k;
    }
  }

  // ---- one that reads another parameter ----

  const TYPE := "multipart/form-data"
  const DECOY := ";Boundary=real;x"
  const CONFUSED := TYPE + (DECOY + "boundary=abc")

  lemma {:induction false} EndsAt(s: string, from: nat, e: nat)
    requires from <= e < |s| && s[e] == ';'
    requires forall i :: from <= i < e ==> s[i] != ';' && s[i] != '"'
    ensures ParameterEnd(s, from, false) == e
    decreases e - from
  {
    if from < e {
      EndsAt(s, from + 1, e);
    }
  }

  lemma {:induction false} TokenOf(a: string, rest: string)
    requires forall i :: 0 <= i < |a| ==> !EndsToken(a[i])
    requires rest != "" && EndsToken(rest[0])
    ensures Token(a + rest) == a
  {
    if a != "" {
      assert (a + rest)[1..] == a[1..] + rest;
      TokenOf(a[1..], rest);
      assert a == [a[0]] + a[1..];
    } else {
      assert a + rest == rest;
    }
  }

  /** A boundary parameter that comes right after the type, whatever follows its value. */
  lemma FirstParameter(kind: string, name: string, value: string, tail: string)
    requires forall i :: 0 <= i < |kind| ==> kind[i] != ';' && kind[i] != '"'
    requires |name| == 9 && ToLowerCase(name) == "boundary=" && name[0] != ' ' && name[0] != '\t'
    requires value != "" && value[0] != '"' && forall i :: 0 <= i < |value| ==> !EndsToken(value[i])
    requires tail != "" && EndsToken(tail[0])
    ensures BoundaryParameter(kind + (";" + (name + (value + tail)))) == Some(Found(|kind| + 10, value))
  {
    var rest := name + (value + tail);
    var ct, n := kind + (";" + rest), |kind|;
    assert ct[n] == (";" + rest)[0] == ';' && forall i :: 0 <= i < n ==> ct[i] == kind[i];
    EndsAt(ct, 0, n);
    assert ct[n + 1..] == rest && ct[n + 1] == rest[0] == name[0];
    assert SkipBlanks(ct, n + 1) == n + 1;
    assert ct[n + 1..n + 10] == rest[..9] == name;
    assert ct[n + 10..] == rest[9..] == value + tail;
    TokenOf(value, tail);
    assert Attributes(ct, 0)[0] == n + 1;
  }

  /** A parameter whose name only ends with boundary, after one whose name is boundary in another
      case: the second is read. */
  lemma AnotherIsRead()
    ensures IsMultipart(CONFUSED)
    ensures BoundaryParameter(CONFUSED) == Some(Found(29, "real")) && BoundaryOf(CONFUSED) == Some("abc")
  {
    ConfusedParts();
    FirstParameter(TYPE, "Boundary=", "real", ";xboundary=abc");
    FirstText(TYPE + DECOY, "abc");
  }

  lemma ConfusedParts()
    ensures CONFUSED == TYPE + (";" + ("Boundary=" + ("real" + ";xboundary=abc")))
    ensures CONFUSED == (TYPE + DECOY) + ("boundary=" + "abc")
    ensures 'b' !in TYPE + DECOY && IsMultipart(CONFUSED)
    ensures ToLowerCase("Boundary=") == "boundary="
  {
    assert CONFUSED[..|TYPE|] == TYPE;
    assert DECOY + "boundary=abc" == ";" + ("Boundary=" + ("real" + ";xboundary=abc"));
    assert "boundary=abc" == "boundary=" + "abc";
  }
}
