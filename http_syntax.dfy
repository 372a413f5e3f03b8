/**
 * Text-level building blocks of the HTTP server: the prefix before a
 * delimiter (std::string::find_first_of followed by substr), substring
 * search (strstr), unsigned decimal numerals (std::to_string), and a strict
 * reader for the response framing of section 4 (status line) and section 5
 * (field lines) of RFC 9112. The reader is not part of the server; it is the
 * independent counterpart against which the server's framing is proved.
 */
module HttpSyntax {
  import opened Wrappers

  // ---------------------------------------------------------------------
  // Cutting a string at a delimiter

  /** The prefix of `s` before the first occurrence of `c`, or all of `s`. */
  function Before(s: string, c: char): (p: string)
    ensures |p| <= |s| && p == s[..|p|]
    ensures c !in p
    ensures |p| < |s| ==> s[|p|] == c
  {
    if s == [] then []
    else if s[0] == c then []
    else [s[0]] + Before(s[1..], c)
  }

  /** The contract of Before determines its value: the delimiter in front of `b` is the first one. */
  lemma {:induction false} BeforeDelimited(a: string, c: char, b: string)
    requires c !in a
    ensures Before(a + [c] + b, c) == a
  {
    var s := a + [c] + b;
    if a != [] {
      assert s[0] == a[0] && s[1..] == a[1..] + [c] + b;
      BeforeDelimited(a[1..], c, b);
      assert [a[0]] + a[1..] == a;
    }
  }

  /** Without a delimiter nothing is cut. */
  lemma BeforeAbsent(s: string, c: char)
    requires c !in s
    ensures Before(s, c) == s
  {
  }

  // ---------------------------------------------------------------------
  // Substring search

  /** `sub` occurs in `s` starting at index `i`. */
  predicate OccursAt(s: string, sub: string, i: int)
  {
    0 <= i && i + |sub| <= |s| && s[i..i + |sub|] == sub
  }

  /**
   * strstr(s, sub) != NULL: scans `s` from the left for an occurrence of
   * `sub` anywhere, not only at the end.
   */
  function Contains(s: string, sub: string): (b: bool)
    ensures b <==> exists i :: OccursAt(s, sub, i)
    decreases |s|
  {
    if |sub| > |s| then
      assert forall i :: !OccursAt(s, sub, i);
      false
    else if s[..|sub|] == sub then
      assert OccursAt(s, sub, 0);
      true
    else
      var r := Contains(s[1..], sub);
      assert forall i :: OccursAt(s[1..], sub, i) <==> OccursAt(s, sub, i + 1) by {
        forall i ensures OccursAt(s[1..], sub, i) <==> OccursAt(s, sub, i + 1) {
          if 0 <= i && i + |sub| <= |s| - 1 {
            assert s[1..][i..i + |sub|] == s[i + 1..i + 1 + |sub|];
          }
        }
      }
      assert !OccursAt(s, sub, 0);
      assert (exists i :: OccursAt(s, sub, i)) ==> exists i :: OccursAt(s[1..], sub, i) by {
        if i :| OccursAt(s, sub, i) {
          assert i != 0;
          assert OccursAt(s[1..], sub, i - 1);
        }
      }
      r
  }

  /** An occurrence of a longer string is an occurrence of each of its prefixes. */
  lemma ContainsPrefix(s: string, sub: string, k: nat)
    requires k <= |sub| && Contains(s, sub)
    ensures Contains(s, sub[..k])
  {
    var i :| OccursAt(s, sub, i);
    assert s[i..i + k] == sub[..k];
    assert OccursAt(s, sub[..k], i);
  }

  // ---------------------------------------------------------------------
  // Unsigned decimal numerals

  predicate IsDigit(c: char)
  {
    '0' <= c <= '9'
  }

  predicate AllDigits(s: string)
  {
    forall i :: 0 <= i < |s| ==> IsDigit(s[i])
  }

  function Digit(d: nat): (c: char)
    requires d < 10
    ensures IsDigit(c) && c as int - '0' as int == d
  {
    (d + '0' as int) as char
  }

  /** std::to_string of an unsigned value: digits only, no sign, no leading zero. */
  function Decimal(n: nat): (s: string)
    ensures |s| >= 1 && AllDigits(s)
    ensures s[0] == '0' <==> n == 0
  {
    if n < 10 then [Digit(n)] else Decimal(n / 10) + [Digit(n % 10)]
  }

  /** The value of a non-empty string of decimal digits; None for anything else. */
  function ParseDecimal(s: string): (r: Option<nat>)
    ensures r.Some? <==> |s| >= 1 && AllDigits(s)
  {
    if s == [] || !IsDigit(s[|s| - 1]) then None
    else if |s| == 1 then Some(s[0] as int - '0' as int)
    else match ParseDecimal(s[..|s| - 1])
      case None => None
      case Some(v) => Some(10 * v + (s[|s| - 1] as int - '0' as int))
  }

  /** Reading back a numeral gives the number it was written from. */
  lemma {:induction false} DecimalRoundTrip(n: nat)
    ensures ParseDecimal(Decimal(n)) == Some(n)
  {
    if n >= 10 {
      var s := Decimal(n);
      assert s[..|s| - 1] == Decimal(n / 10);
      DecimalRoundTrip(n / 10);
    }
  }

  // ---------------------------------------------------------------------
  // Reading a response back (RFC 9112, sections 4 and 5)

  /** A field line `name: value`. */
  datatype Field = Field(name: string, value: string)

  /** A response as a reader sees it: status line, field lines, then the body. */
  datatype Response = Response(version: string, code: string, reason: string, fields: seq<Field>, body: string)

  /** The line before the first CR, which must be followed by LF, and the text after that CRLF. */
  function SplitLine(s: string): (r: Option<(string, string)>)
    ensures r.Some? ==> |r.value.1| < |s|
  {
    if s == [] then None
    else if s[0] == '\r' then
      if |s| >= 2 && s[1] == '\n' then Some(([], s[2..])) else None
    else
      match SplitLine(s[1..])
      case None => None
      case Some(lr) => Some(([s[0]] + lr.0, lr.1))
  }

  /** A line without CR, followed by CRLF, is split off exactly. */
  lemma {:induction false} SplitLineOf(line: string, rest: string)
    requires '\r' !in line
    ensures SplitLine(line + "\r\n" + rest) == Some((line, rest))
  {
    var s := line + "\r\n" + rest;
    if line != [] {
      assert s[0] == line[0] && s[0] != '\r';
      assert s[1..] == line[1..] + "\r\n" + rest;
      SplitLineOf(line[1..], rest);
      assert [line[0]] + line[1..] == line;
    } else {
      assert s[2..] == rest;
    }
  }

  /** Optional white space (SP or HTAB) at the front of a field value is dropped. */
  function SkipOws(s: string): (r: string)
    ensures |r| <= |s|
  {
    if s != [] && (s[0] == ' ' || s[0] == '\t') then SkipOws(s[1..]) else s
  }

  /** A field line: the name up to the first colon, the value after it. */
  function ParseField(line: string): Option<Field>
  {
    var name := Before(line, ':');
    if |name| == |line| then None
    else Some(Field(name, SkipOws(line[|name| + 1..])))
  }

  /** A status line `version SP code SP reason`. */
  function ParseStatusLine(line: string): Option<(string, string, string)>
  {
    var version := Before(line, ' ');
    if |version| == |line| then None
    else
      var rest := line[|version| + 1..];
      var code := Before(rest, ' ');
      if |code| == |rest| then None
      else Some((version, code, rest[|code| + 1..]))
  }

  /** Field lines up to and including the empty line that ends them, and the body after it. */
  function ParseFields(s: string): Option<(seq<Field>, string)>
    decreases |s|
  {
    match SplitLine(s)
    case None => None
    case Some(lr) =>
      if lr.0 == [] then Some(([], lr.1))
      else match ParseField(lr.0)
        case None => None
        case Some(f) =>
          match ParseFields(lr.1)
          case None => None
          case Some(rest) => Some(([f] + rest.0, rest.1))
  }

  /** A whole response; everything after the empty line is the body. */
  function ParseResponse(s: string): Option<Response>
  {
    match SplitLine(s)
    case None => None
    case Some(lr) =>
      match ParseStatusLine(lr.0)
      case None => None
      case Some(st) =>
        match ParseFields(lr.1)
        case None => None
        case Some(fb) => Some(Response(st.0, st.1, st.2, fb.0, fb.1))
  }

  /** The value of the first field with this exact name. */
  function FieldValue(fields: seq<Field>, name: string): Option<string>
  {
    if fields == [] then None
    else if fields[0].name == name then Some(fields[0].value)
    else FieldValue(fields[1..], name)
  }

  /** The body length a reader takes from the `Content-length` field. */
  function ContentLength(r: Response): Option<nat>
  {
    match FieldValue(r.fields, "Content-length")
    case None => None
    case Some(v) => ParseDecimal(v)
  }
}
