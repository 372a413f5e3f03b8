/**
 * Model of the request handling in src/http_server.cpp: a request line is
 * read from the connection, its URI names a file under the served
 * directory, and the reply is a complete HTTP/1.1 response carrying either
 * the file or a 404 page. Also the size of the worker pool the server
 * creates, and the hand-over of each accepted connection to that pool.
 *
 * The file system is the map `files` from a path to the octets of the
 * file there; a path missing from it is one that cannot be opened.
 */
module HttpServer {
  import opened Wrappers
  import opened HttpSyntax
  import IO
  import Pool
  import Queue

  // ---------------------------------------------------------------------
  // The request line, split as `istringstream >> method >> uri >> version`

  /** isspace in the "C" locale: space, \t, \n, \v, \f, \r. */
  predicate IsSpace(c: char)
  {
    c == ' ' || c == '\t' || c == '\n' || c == '\r' || c as int == 11 || c as int == 12
  }

  /** Every character is white space. */
  predicate AllSpace(s: string)
  {
    forall i :: 0 <= i < |s| ==> IsSpace(s[i])
  }

  /** No character is white space. */
  predicate NoSpace(s: string)
  {
    forall i :: 0 <= i < |s| ==> !IsSpace(s[i])
  }

  /** The white space an extraction skips first. */
  function SkipSpace(s: string): (r: string)
    ensures |r| <= |s| && r == s[|s| - |r|..]
    ensures AllSpace(s[..|s| - |r|])
    ensures r != [] ==> !IsSpace(r[0])
  {
    if s != [] && IsSpace(s[0]) then SkipSpace(s[1..]) else s
  }

  /** The characters an extraction takes: all up to the next white space. */
  function Word(s: string): (w: string)
    ensures |w| <= |s| && w == s[..|w|]
    ensures NoSpace(w)
    ensures |w| < |s| ==> IsSpace(s[|w|])
  {
    if s == [] || IsSpace(s[0]) then [] else [s[0]] + Word(s[1..])
  }

  /**
   * One `>> str`: the first white-space-separated token and the text after
   * it. With nothing but white space left, the token is empty, and so is
   * every later one.
   */
  function NextToken(s: string): (r: (string, string))
    ensures var k := |s| - |r.0| - |r.1|;
      0 <= k && s == s[..k] + r.0 + r.1 && AllSpace(s[..k])
    ensures NoSpace(r.0)
    ensures r.1 == [] || IsSpace(r.1[0])
    ensures r.0 == [] <==> AllSpace(s)
    ensures r.0 == [] ==> r.1 == []
  {
    var t := SkipSpace(s);
    var w := Word(t);
    TokenFacts(s, t, w, (w, t[|w|..]));
    (w, t[|w|..])
  }

  /** What NextToken promises, for the white space and word it finds. */
  lemma TokenFacts(s: string, t: string, w: string, r: (string, string))
    requires t == SkipSpace(s) && w == Word(t) && r == (w, t[|w|..])
    ensures var k := |s| - |r.0| - |r.1|;
      0 <= k && s == s[..k] + r.0 + r.1 && AllSpace(s[..k])
    ensures NoSpace(r.0)
    ensures r.1 == [] || IsSpace(r.1[0])
    ensures r.0 == [] <==> AllSpace(s)
    ensures r.0 == [] ==> r.1 == []
  {
    SkipSplit(s, t);
    WordSplit(t, w);
    TokenSplit(s, s[..|s| - |t|], t, r);
  }

  /** Skipping white space cuts the text into white space and the rest. */
  lemma SkipSplit(s: string, t: string)
    requires t == SkipSpace(s)
    ensures |t| <= |s| && s == s[..|s| - |t|] + t && AllSpace(s[..|s| - |t|])
    ensures t == [] || !IsSpace(t[0])
  {
    CutAt(s, |s| - |t|);
  }

  /** A text is its part before an index followed by its part from there on. */
  lemma CutAt(s: string, k: nat)
    requires k <= |s|
    ensures s == s[..k] + s[k..]
  {
  }

  /** Taking a word cuts the text into the word and what starts at the next white space. */
  lemma WordSplit(t: string, w: string)
    requires w == Word(t)
    ensures |w| <= |t| && t == w + t[|w|..] && NoSpace(w)
    ensures t[|w|..] == [] || IsSpace(t[|w|..][0])
  {
    CutAt(t, |w|);
    if |w| < |t| {
      assert t[|w|..][0] == t[|w|];
    }
  }

  /** White space, a word and what follows, as one extraction sees them. */
  lemma TokenSplit(s: string, lead: string, t: string, r: (string, string))
    requires s == lead + t && AllSpace(lead) && (t == [] || !IsSpace(t[0]))
    requires t == r.0 + r.1 && NoSpace(r.0) && (r.1 == [] || IsSpace(r.1[0]))
    ensures var k := |s| - |r.0| - |r.1|;
      0 <= k && s == s[..k] + r.0 + r.1 && AllSpace(s[..k])
    ensures NoSpace(r.0)
    ensures r.1 == [] || IsSpace(r.1[0])
    ensures r.0 == [] <==> AllSpace(s)
    ensures r.0 == [] ==> r.1 == []
  {
    assert s[..|lead|] == lead;
    if r.0 == [] {
      assert t == [];
      assert s == lead;
    } else {
      assert s[|lead|] == r.0[0];
    }
  }

  lemma {:induction false} SkipSpaceOf(lead: string, t: string)
    requires AllSpace(lead)
    requires t == [] || !IsSpace(t[0])
    ensures SkipSpace(lead + t) == t
  {
    if lead != [] {
      assert (lead + t)[1..] == lead[1..] + t;
      SkipSpaceOf(lead[1..], t);
    }
  }

  lemma {:induction false} WordOf(w: string, rest: string)
    requires NoSpace(w)
    requires rest == [] || IsSpace(rest[0])
    ensures Word(w + rest) == w
  {
    if w != [] {
      assert (w + rest)[1..] == w[1..] + rest;
      WordOf(w[1..], rest);
      assert [w[0]] + w[1..] == w;
    } else {
      assert w + rest == rest;
    }
  }

  /** An extraction from `lead + w + rest` yields `w`, and `rest` stays. */
  lemma NextTokenOf(lead: string, w: string, rest: string)
    requires AllSpace(lead) && w != [] && NoSpace(w)
    requires rest == [] || IsSpace(rest[0])
    ensures NextToken(lead + w + rest) == (w, rest)
  {
    assert lead + w + rest == lead + (w + rest);
    SkipSpaceOf(lead, w + rest);
    WordOf(w, rest);
  }

  datatype RequestLine = RequestLine(verb: string, uri: string, version: string)

  /**
   * The method, URI and version: the first three tokens of the line. A
   * token that is not there is the empty string.
   */
  function ParseRequestLine(line: string): (r: RequestLine)
    ensures NoSpace(r.verb) && NoSpace(r.uri) && NoSpace(r.version)
    ensures r.verb == [] <==> AllSpace(line)
    ensures r.verb == [] ==> r.uri == []
    ensures r.uri == [] ==> r.version == []
  {
    var (m, a) := NextToken(line);
    var (u, b) := NextToken(a);
    var (v, _) := NextToken(b);
    RequestLine(m, u, v)
  }

  /** Three tokens, separated and surrounded by any white space, are read back in order. */
  lemma RequestLineOf(lead: string, m: string, sep1: string, u: string, sep2: string, v: string, tail: string)
    requires AllSpace(lead) && AllSpace(sep1) && AllSpace(sep2)
    requires sep1 != [] && sep2 != []
    requires m != [] && u != [] && v != [] && NoSpace(m) && NoSpace(u) && NoSpace(v)
    requires tail == [] || IsSpace(tail[0])
    ensures ParseRequestLine(lead + m + sep1 + u + sep2 + v + tail) == RequestLine(m, u, v)
  {
    var r2 := sep2 + v + tail;
    var r1 := sep1 + u + r2;
    assert lead + m + sep1 + u + sep2 + v + tail == lead + m + r1;
    NextTokenOf(lead, m, r1);
    assert r1 == sep1 + u + r2;
    NextTokenOf(sep1, u, r2);
    NextTokenOf(sep2, v, tail);
  }

  /** A line with one token: the method is that token, and the URI and the version are empty. */
  lemma OneToken(lead: string, m: string, tail: string)
    requires AllSpace(lead) && AllSpace(tail)
    requires m != [] && NoSpace(m)
    ensures ParseRequestLine(lead + m + tail) == RequestLine(m, "", "")
  {
    assert tail == [] || IsSpace(tail[0]);
    NextTokenOf(lead, m, tail);
  }

  /** A line with two tokens: the method and the URI are those tokens, and the version is empty. */
  lemma TwoTokens(lead: string, m: string, sep1: string, u: string, tail: string)
    requires AllSpace(lead) && AllSpace(sep1) && AllSpace(tail) && sep1 != []
    requires m != [] && u != [] && NoSpace(m) && NoSpace(u)
    ensures ParseRequestLine(lead + m + sep1 + u + tail) == RequestLine(m, u, "")
  {
    var r1 := sep1 + u + tail;
    assert lead + m + sep1 + u + tail == lead + m + r1;
    NextTokenOf(lead, m, r1);
    assert tail == [] || IsSpace(tail[0]);
    NextTokenOf(sep1, u, tail);
  }

  // ---------------------------------------------------------------------
  // The file a request names

  /**
   * dir + uri.substr(0, uri.find_first_of('?')): the served directory
   * followed by the URI up to the first '?', taken as it is.
   */
  function FilePath(dir: string, uri: string): (p: string)
    ensures |dir| <= |p| <= |dir| + |uri| && p[..|dir|] == dir
    ensures p[|dir|..] == uri[..|p| - |dir|] && '?' !in p[|dir|..]
    ensures |p| < |dir| + |uri| ==> uri[|p| - |dir|] == '?'
  {
    var q := Before(uri, '?');
    assert (dir + q)[|dir|..] == q;
    dir + q
  }

  /** The query, from the first '?' on, is dropped; a URI without '?' is used whole. */
  lemma FilePathDropsQuery(dir: string, path: string, query: string)
    requires '?' !in path
    ensures FilePath(dir, path + "?" + query) == dir + path
    ensures FilePath(dir, path) == dir + path
  {
    BeforeDelimited(path, '?', query);
    assert path + "?" + query == path + ['?'] + query;
    BeforeAbsent(path, '?');
  }

  /** c_str(): the path the C library sees ends at the first NUL. */
  function CString(s: string): (c: string)
    ensures |c| <= |s| && c == s[..|c|] && '\0' !in c
    ensures |c| < |s| ==> s[|c|] == '\0'
  {
    Before(s, '\0')
  }

  // ---------------------------------------------------------------------
  // The response

  /** The text the `response` helper builds for a status, a content type and a body. */
  function ResponseText(code: string, msg: string, contentType: string, content: string): (r: string)
    ensures |r| >= |content| && r[|r| - |content|..] == content
  {
    "HTTP/1.1 " + code + " " + msg + "\r\n"
    + "Server: HttpServer\r\n"
    + "Connection: close\r\n"
    + "Content-length: " + Decimal(|content|) + "\r\n"
    + "Content-type: " + contentType + "\r\n"
    + "X-Content-Type-Options: nosniff" + "\r\n\r\n"
    + content
  }

  /** The `response` lambda: the text built by successive appends. */
  method Frame(code: string, msg: string, contentType: string, content: string) returns (res: string)
    ensures res == ResponseText(code, msg, contentType, content)
  {
    res := "HTTP/1.1 ";
    res := res + code;
    res := res + " ";
    res := res + msg;
    res := res + "\r\n";
    res := res + "Server: HttpServer\r\n";
    res := res + "Connection: close\r\n";
    res := res + "Content-length: ";
    res := res + Decimal(|content|);
    res := res + "\r\n";
    res := res + "Content-type: ";
    res := res + contentType;
    res := res + "\r\n";
    res := res + "X-Content-Type-Options: nosniff";
    res := res + "\r\n\r\n";
    res := res + content;
  }

  /** A field value that stays one line and that a reader takes back as it is. */
  predicate FieldSafe(v: string)
  {
    '\r' !in v && (v == [] || (v[0] != ' ' && v[0] != '\t'))
  }

  /** A field line: `name: value` and CRLF. */
  function FieldLine(name: string, value: string): string
  {
    name + ": " + value + "\r\n"
  }

  /** The fields every response carries, for a content type and a body length. */
  function ResponseFields(contentType: string, length: nat): (fs: seq<Field>)
    ensures |fs| == 5 && fs[2] == Field("Content-length", Decimal(length)) && fs[3] == Field("Content-type", contentType)
  {
    [ Field("Server", "HttpServer"), Field("Connection", "close"),
      Field("Content-length", Decimal(length)), Field("Content-type", contentType),
      Field("X-Content-Type-Options", "nosniff") ]
  }

  /** The field lines of those fields, then the empty line and the body. */
  function FieldsText(fs: seq<Field>, body: string): string
  {
    if fs == [] then "\r\n" + body else FieldLine(fs[0].name, fs[0].value) + FieldsText(fs[1..], body)
  }

  lemma Assoc(a: string, b: string, c: string)
    ensures (a + b) + c == a + (b + c)
  {
  }

  /** The fixed header text, split into field lines. */
  lemma HeaderLines()
    ensures "Server: HttpServer\r\n" == FieldLine("Server", "HttpServer")
    ensures "Connection: close\r\n" == FieldLine("Connection", "close")
    ensures "Content-length: " == "Content-length" + ": "
    ensures "Content-type: " == "Content-type" + ": "
    ensures "X-Content-Type-Options: nosniff" + "\r\n" == FieldLine("X-Content-Type-Options", "nosniff")
    ensures "\r\n\r\n" == "\r\n" + "\r\n"
  {
  }

  /** A field line whose name and ": " come as one literal, followed by more text. */
  lemma FieldLineOf(head: string, name: string, value: string, rest: string)
    requires head == name + ": "
    ensures head + (value + ("\r\n" + rest)) == FieldLine(name, value) + rest
  {
    Assoc(head, value, "\r\n");
    Assoc(head + value, "\r\n", rest);
    Assoc(head, value, "\r\n" + rest);
  }

  /** The appends of the response, re-associated to the right one piece at a time. */
  lemma ResponseRightNested(code: string, msg: string, contentType: string, content: string)
    ensures ResponseText(code, msg, contentType, content)
         == "HTTP/1.1 " + code + " " + msg + "\r\n"
            + ("Server: HttpServer\r\n" + ("Connection: close\r\n"
            + ("Content-length: " + (Decimal(|content|) + ("\r\n"
            + ("Content-type: " + (contentType + ("\r\n"
            + ("X-Content-Type-Options: nosniff" + ("\r\n\r\n" + content))))))))))
  {
    var x := "HTTP/1.1 " + code + " " + msg + "\r\n";
    var p1, p2, p3, p4, p5 := "Server: HttpServer\r\n", "Connection: close\r\n", "Content-length: ", Decimal(|content|), "\r\n";
    var p6, p7, p8, p9, p10 := "Content-type: ", contentType, "\r\n", "X-Content-Type-Options: nosniff", "\r\n\r\n";
    var r10 := p10 + content;
    var r9 := p9 + r10;
    var r8 := p8 + r9;
    var r7 := p7 + r8;
    var r6 := p6 + r7;
    var r5 := p5 + r6;
    var r4 := p4 + r5;
    var r3 := p3 + r4;
    var r2 := p2 + r3;
    var a1 := x + p1;
    var a2 := a1 + p2;
    var a3 := a2 + p3;
    var a4 := a3 + p4;
    var a5 := a4 + p5;
    var a6 := a5 + p6;
    var a7 := a6 + p7;
    var a8 := a7 + p8;
    var a9 := a8 + p9;
    Assoc(a9, p10, content);
    Assoc(a8, p9, r10);
    Assoc(a7, p8, r9);
    Assoc(a6, p7, r8);
    Assoc(a5, p6, r7);
    Assoc(a4, p5, r6);
    Assoc(a3, p4, r5);
    Assoc(a2, p3, r4);
    Assoc(a1, p2, r3);
    Assoc(x, p1, r2);
  }

  /** The right-nested header text is the field lines of ResponseFields, then the empty line and the body. */
  lemma HeaderFieldLines(contentType: string, content: string)
    ensures "Server: HttpServer\r\n" + ("Connection: close\r\n"
            + ("Content-length: " + (Decimal(|content|) + ("\r\n"
            + ("Content-type: " + (contentType + ("\r\n"
            + ("X-Content-Type-Options: nosniff" + ("\r\n\r\n" + content)))))))))
         == FieldsText(ResponseFields(contentType, |content|), content)
  {
    var n := Decimal(|content|);
    var fs := ResponseFields(contentType, |content|);
    HeaderLines();
    var p9 := "X-Content-Type-Options: nosniff";
    var l5 := FieldLine("X-Content-Type-Options", "nosniff");
    var r9 := p9 + ("\r\n\r\n" + content);
    Assoc("\r\n", "\r\n", content);
    Assoc(p9, "\r\n", "\r\n" + content);
    assert r9 == l5 + ("\r\n" + content);
    FieldLineOf("Content-type: ", "Content-type", contentType, r9);
    var r6 := "Content-type: " + (contentType + ("\r\n" + r9));
    FieldLineOf("Content-length: ", "Content-length", n, r6);
    FieldsTextSteps(fs, content);
  }

  lemma FieldsTextSteps(fs: seq<Field>, content: string)
    requires |fs| == 5
    ensures FieldsText(fs, content)
         == FieldLine(fs[0].name, fs[0].value) + (FieldLine(fs[1].name, fs[1].value)
            + (FieldLine(fs[2].name, fs[2].value) + (FieldLine(fs[3].name, fs[3].value)
            + (FieldLine(fs[4].name, fs[4].value) + ("\r\n" + content)))))
  {
    assert fs[4..][1..] == [];
    assert FieldsText(fs[4..], content) == FieldLine(fs[4].name, fs[4].value) + ("\r\n" + content);
    assert fs[3..][1..] == fs[4..];
    assert FieldsText(fs[3..], content) == FieldLine(fs[3].name, fs[3].value) + FieldsText(fs[4..], content);
    assert fs[2..][1..] == fs[3..];
    assert FieldsText(fs[2..], content) == FieldLine(fs[2].name, fs[2].value) + FieldsText(fs[3..], content);
    assert fs[1..][1..] == fs[2..];
    assert FieldsText(fs[1..], content) == FieldLine(fs[1].name, fs[1].value) + FieldsText(fs[2..], content);
  }

  /** The response is the status line, the five field lines, the empty line and the body. */
  lemma ResponseLayout(code: string, msg: string, contentType: string, content: string)
    ensures ResponseText(code, msg, contentType, content)
         == "HTTP/1.1 " + code + " " + msg + "\r\n" + FieldsText(ResponseFields(contentType, |content|), content)
  {
    ResponseRightNested(code, msg, contentType, content);
    HeaderFieldLines(contentType, content);
  }

  /** A field a reader takes back as it is: a colon-free one-line name and a safe value. */
  predicate FieldOk(f: Field)
  {
    ':' !in f.name && '\r' !in f.name && FieldSafe(f.value)
  }

  /** The fixed field names of the response header hold no colon and no CR. */
  lemma FixedNamesOk()
    ensures ':' !in "Server" && '\r' !in "Server"
    ensures ':' !in "Connection" && '\r' !in "Connection"
    ensures ':' !in "Content-length" && '\r' !in "Content-length"
  {
  }

  lemma MoreFixedNamesOk()
    ensures ':' !in "Content-type" && '\r' !in "Content-type"
    ensures ':' !in "X-Content-Type-Options" && '\r' !in "X-Content-Type-Options"
  {
  }

  /** The fixed field values of the response header are safe. */
  lemma FixedValuesOk()
    ensures FieldSafe("HttpServer") && FieldSafe("close") && FieldSafe("nosniff")
  {
  }

  lemma ResponseFieldsSafe(contentType: string, length: nat)
    requires FieldSafe(contentType)
    ensures forall k :: 0 <= k < |ResponseFields(contentType, length)| ==> FieldOk(ResponseFields(contentType, length)[k])
  {
    var fs := ResponseFields(contentType, length);
    var n := Decimal(length);
    assert FieldSafe(n) by {
      assert forall i :: 0 <= i < |n| ==> IsDigit(n[i]);
    }
    FixedNamesOk();
    MoreFixedNamesOk();
    FixedValuesOk();
    assert FieldOk(fs[0]) && FieldOk(fs[1]) && FieldOk(fs[2]) && FieldOk(fs[3]) && FieldOk(fs[4]);
  }

  /** One field line is read back as its field, and field parsing goes on after it. */
  lemma FieldLineReadsBack(name: string, value: string, rest: string)
    requires FieldOk(Field(name, value))
    ensures ParseFields(FieldLine(name, value) + rest)
         == match ParseFields(rest)
            case None => None
            case Some(fb) => Some(([Field(name, value)] + fb.0, fb.1))
  {
    var line := name + ": " + value;
    assert '\r' !in line by {
      assert forall i :: 0 <= i < |line| ==> line[i] == (if i < |name| then name[i] else if i < |name| + 2 then ": "[i - |name|] else value[i - |name| - 2]);
    }
    assert FieldLine(name, value) + rest == line + "\r\n" + rest;
    SplitLineOf(line, rest);
    assert line == name + [':'] + (" " + value);
    BeforeDelimited(name, ':', " " + value);
    assert line[|name| + 1..] == " " + value;
    assert SkipOws(" " + value) == SkipOws(value) by {
      assert (" " + value)[1..] == value;
    }
  }

  /** Field lines with colon-free names and one-line values are read back as those fields, then the body. */
  lemma {:induction false} FieldsReadBack(fs: seq<Field>, body: string)
    requires forall k :: 0 <= k < |fs| ==> FieldOk(fs[k])
    ensures ParseFields(FieldsText(fs, body)) == Some((fs, body))
    decreases |fs|
  {
    if fs == [] {
      SplitLineOf([], body);
      assert [] + "\r\n" + body == "\r\n" + body;
    } else {
      var tail := FieldsText(fs[1..], body);
      FieldsReadBack(fs[1..], body);
      assert ParseFields(tail) == Some((fs[1..], body));
      FieldLineReadsBack(fs[0].name, fs[0].value, tail);
      assert FieldsText(fs, body) == FieldLine(fs[0].name, fs[0].value) + tail;
      assert [fs[0]] + fs[1..] == fs;
    }
  }

  /** The status line `HTTP/1.1 code msg` is read back, and field parsing goes on after it. */
  lemma StatusLineReadsBack(code: string, msg: string, rest: string)
    requires code != [] && ' ' !in code && '\r' !in code && '\r' !in msg
    ensures ParseResponse("HTTP/1.1 " + code + " " + msg + "\r\n" + rest)
         == match ParseFields(rest)
            case None => None
            case Some(fb) => Some(Response("HTTP/1.1", code, msg, fb.0, fb.1))
  {
    var status := "HTTP/1.1 " + code + " " + msg;
    assert '\r' !in status by {
      assert forall i :: 0 <= i < |status| ==> status[i] == (if i < 9 then "HTTP/1.1 "[i] else if i < 9 + |code| then code[i - 9] else if i == 9 + |code| then ' ' else msg[i - 10 - |code|]);
    }
    SplitLineOf(status, rest);
    assert status == "HTTP/1.1" + [' '] + (code + " " + msg);
    BeforeDelimited("HTTP/1.1", ' ', code + " " + msg);
    assert status[9..] == code + [' '] + msg;
    BeforeDelimited(code, ' ', msg);
  }

  /** What a reader takes from Content-length in these fields is the length they were built with. */
  lemma ContentLengthReadsBack(code: string, msg: string, contentType: string, length: nat, body: string)
    ensures ContentLength(Response("HTTP/1.1", code, msg, ResponseFields(contentType, length), body)) == Some(length)
  {
    var fs := ResponseFields(contentType, length);
    assert FieldValue(fs, "Content-length") == FieldValue(fs[1..], "Content-length") == FieldValue(fs[2..], "Content-length");
    DecimalRoundTrip(length);
  }

  /**
   * The response reads back as the status line, the five fields and the
   * body; what the reader takes from Content-length is the body's length.
   */
  lemma ResponseReadsBack(code: string, msg: string, contentType: string, content: string)
    requires code != [] && ' ' !in code && '\r' !in code && '\r' !in msg && FieldSafe(contentType)
    ensures var r := ParseResponse(ResponseText(code, msg, contentType, content));
      && r == Some(Response("HTTP/1.1", code, msg, ResponseFields(contentType, |content|), content))
      && ContentLength(r.value) == Some(|content|)
  {
    var fs := ResponseFields(contentType, |content|);
    ResponseLayout(code, msg, contentType, content);
    StatusLineReadsBack(code, msg, FieldsText(fs, content));
    ResponseFieldsSafe(contentType, |content|);
    FieldsReadBack(fs, content);
    ContentLengthReadsBack(code, msg, contentType, |content|, content);
  }

  // ---------------------------------------------------------------------
  // The content type

  /** The extensions the `type` lookup tries, in order, with their types. */
  const MimeTable: seq<(string, string)> := [
    (".html", "text/html"), (".css", "text/css"), (".js", "text/javascript"),
    (".png", "image/png"), (".gif", "image/gif"), (".jpg", "image/jpeg"),
    (".svg", "image/svg+xml"), (".eot", "application/vnd.ms-fontobject"),
    (".ttf", "font/ttf"), (".woff", "font/woff"), (".woff2", "font/woff2")
  ]

  /**
   * The reference lookup: the type of the table's first entry, from entry
   * i on, whose extension occurs in the name; text/plain past the end.
   */
  function FirstMatch(name: string, i: nat): string
    requires i <= |MimeTable|
    decreases |MimeTable| - i
  {
    if i == |MimeTable| then "text/plain"
    else if Contains(name, MimeTable[i].0) then MimeTable[i].1
    else FirstMatch(name, i + 1)
  }

  /**
   * FirstMatch gives the type of the first entry whose extension occurs in
   * the name, and text/plain exactly when no extension occurs.
   */
  lemma {:induction false} FirstMatchSpec(name: string, i: nat)
    requires i <= |MimeTable|
    ensures forall k :: i <= k < |MimeTable| ==>
      (Contains(name, MimeTable[k].0) && (forall j :: i <= j < k ==> !Contains(name, MimeTable[j].0))
       ==> FirstMatch(name, i) == MimeTable[k].1)
    ensures (forall k :: i <= k < |MimeTable| ==> !Contains(name, MimeTable[k].0)) ==> FirstMatch(name, i) == "text/plain"
    decreases |MimeTable| - i
  {
    if i < |MimeTable| && !Contains(name, MimeTable[i].0) {
      FirstMatchSpec(name, i + 1);
    }
  }

  /**
   * The `type` lookup, an if-chain of strstr tests. It is the first-match
   * lookup over the table, entry by entry.
   */
  function ContentType(name: string): (t: string)
    ensures t == FirstMatch(name, 0)
  {
    if Contains(name, ".html") then "text/html"
    else
      assert FirstMatch(name, 0) == FirstMatch(name, 1);
      if Contains(name, ".css") then "text/css"
      else
        assert FirstMatch(name, 1) == FirstMatch(name, 2);
        if Contains(name, ".js") then "text/javascript"
        else
          assert FirstMatch(name, 2) == FirstMatch(name, 3);
          if Contains(name, ".png") then "image/png"
          else
            assert FirstMatch(name, 3) == FirstMatch(name, 4);
            if Contains(name, ".gif") then "image/gif"
            else
              assert FirstMatch(name, 4) == FirstMatch(name, 5);
              if Contains(name, ".jpg") then "image/jpeg"
              else
                assert FirstMatch(name, 5) == FirstMatch(name, 6);
                if Contains(name, ".svg") then "image/svg+xml"
                else
                  assert FirstMatch(name, 6) == FirstMatch(name, 7);
                  if Contains(name, ".eot") then "application/vnd.ms-fontobject"
                  else
                    assert FirstMatch(name, 7) == FirstMatch(name, 8);
                    if Contains(name, ".ttf") then "font/ttf"
                    else
                      assert FirstMatch(name, 8) == FirstMatch(name, 9);
                      if Contains(name, ".woff") then "font/woff"
                      else
                        assert FirstMatch(name, 9) == FirstMatch(name, 10);
                        if Contains(name, ".woff2") then "font/woff2"
                        else
                          assert FirstMatch(name, 10) == FirstMatch(name, 11);
                          "text/plain"
  }

  /**
   * The `type` lookup gives the type of the first listed extension that
   * occurs anywhere in the name, and text/plain when none occurs.
   */
  lemma ContentTypeFirstListed(name: string)
    ensures forall k :: 0 <= k < |MimeTable| ==>
      (Contains(name, MimeTable[k].0) && (forall j :: 0 <= j < k ==> !Contains(name, MimeTable[j].0))
       ==> ContentType(name) == MimeTable[k].1)
    ensures (forall k :: 0 <= k < |MimeTable| ==> !Contains(name, MimeTable[k].0)) ==> ContentType(name) == "text/plain"
  {
    FirstMatchSpec(name, 0);
  }

  /** The first six types of the table are safe field values. */
  lemma TextImageTypesSafe()
    ensures FieldSafe("text/html") && FieldSafe("text/css") && FieldSafe("text/javascript")
    ensures FieldSafe("image/png") && FieldSafe("image/gif") && FieldSafe("image/jpeg")
  {
  }

  /** The other five types of the table, and the fallback, are safe field values. */
  lemma OtherTypesSafe()
    ensures FieldSafe("image/svg+xml") && FieldSafe("application/vnd.ms-fontobject") && FieldSafe("font/ttf")
    ensures FieldSafe("font/woff") && FieldSafe("font/woff2") && FieldSafe("text/plain")
  {
  }

  /** Whatever the first-match lookup gives, from any entry on, is a safe field value. */
  lemma {:induction false} FirstMatchSafe(name: string, i: nat)
    requires i <= |MimeTable|
    ensures FieldSafe(FirstMatch(name, i))
    decreases |MimeTable| - i
  {
    if i < |MimeTable| && !Contains(name, MimeTable[i].0) {
      FirstMatchSafe(name, i + 1);
    } else {
      TextImageTypesSafe();
      OtherTypesSafe();
    }
  }

  /** Every type the lookup gives can be sent as a field value. */
  lemma ContentTypeSafe(name: string)
    ensures FieldSafe(ContentType(name))
  {
    FirstMatchSafe(name, 0);
  }

  /** The test is for a substring, not a suffix: ".html" anywhere in the name gives text/html. */
  lemma ContentTypeAnywhere(front: string, back: string)
    ensures ContentType(front + ".html" + back) == "text/html"
  {
    var s := front + ".html" + back;
    assert OccursAt(s, ".html", |front|) by {
      assert s[|front|..|front| + 5] == ".html";
    }
  }

  /**
   * ".woff" comes first and is part of ".woff2", so the font/woff2 branch
   * is never taken: a .woff2 file that no earlier extension claims is
   * served as font/woff.
   */
  lemma WoffTwoUnreachable(name: string)
    ensures ContentType(name) != "font/woff2"
    ensures Contains(name, ".woff2") && (forall j :: 0 <= j < 9 ==> !Contains(name, MimeTable[j].0)) ==>
      ContentType(name) == "font/woff"
  {
    if Contains(name, ".woff2") {
      ContainsPrefix(name, ".woff2", 5);
      assert ".woff2"[..5] == ".woff";
      ContentTypeFirstListed(name);
      assert MimeTable[9] == (".woff", "font/woff");
    }
  }

  /** ".json" contains ".js": a JSON file is served as text/javascript unless an earlier extension matches. */
  lemma JsonIsJavascript(name: string)
    requires Contains(name, ".json") && !Contains(name, ".html") && !Contains(name, ".css")
    ensures ContentType(name) == "text/javascript"
  {
    ContainsPrefix(name, ".json", 3);
    assert ".json"[..3] == ".js";
  }

  // ---------------------------------------------------------------------
  // Request::Perform

  /**
   * The reply to a request line: the file the URI names, or the 404 page.
   * The body is the file's octets, one character each, or the fixed
   * message; the reply ends with it.
   */
  function Respond(dir: string, line: string, files: map<string, seq<IO.Byte>>): (res: string)
    ensures var path := RequestedPath(dir, line);
      var body := if path in files then IO.Chars(files[path]) else "Error occured";
      |res| >= |body| && res[|res| - |body|..] == body
  {
    var path := RequestedPath(dir, line);
    if path in files then
      var body := IO.Chars(files[path]);
      ResponseText("200", "OK", ContentType(path), body)
    else
      var body := "Error occured";
      ResponseText("404", "Not found", "text/plain", body)
  }

  /** The 200 reply reads back with the looked-up type and the file's bytes as the body. */
  lemma FoundReadsBack(path: string, body: string)
    ensures var r := ParseResponse(ResponseText("200", "OK", ContentType(path), body));
      && r == Some(Response("HTTP/1.1", "200", "OK", ResponseFields(ContentType(path), |body|), body))
      && ContentLength(r.value) == Some(|body|)
  {
    ContentTypeSafe(path);
    ResponseReadsBack("200", "OK", ContentType(path), body);
  }

  /** The 404 reply reads back as text/plain with the fixed message as the body. */
  lemma NotFoundReadsBack()
    ensures var r := ParseResponse(ResponseText("404", "Not found", "text/plain", "Error occured"));
      && r == Some(Response("HTTP/1.1", "404", "Not found", ResponseFields("text/plain", 13), "Error occured"))
      && ContentLength(r.value) == Some(13)
  {
    ResponseReadsBack("404", "Not found", "text/plain", "Error occured");
  }

  /** The path Perform opens for a request line: the file part of its URI, as the C library sees it. */
  function RequestedPath(dir: string, line: string): (path: string)
    ensures '\0' !in path
  {
    CString(FilePath(dir, ParseRequestLine(line).uri))
  }

  /**
   * What a client reads back: 200 with the file's bytes and its looked-up
   * type when the path can be opened, 404 with text/plain and the fixed
   * message otherwise; Content-length is always the body's length.
   */
  lemma RespondReadsBack(dir: string, line: string, files: map<string, seq<IO.Byte>>)
    ensures var path := RequestedPath(dir, line);
      var r := ParseResponse(Respond(dir, line, files));
      && r.Some?
      && (path in files ==>
            r.value == Response("HTTP/1.1", "200", "OK",
                                ResponseFields(ContentType(path), |files[path]|), IO.Chars(files[path])))
      && (path !in files ==>
            r.value == Response("HTTP/1.1", "404", "Not found",
                                ResponseFields("text/plain", 13), "Error occured"))
      && ContentLength(r.value) == Some(|r.value.body|)
  {
    var path := RequestedPath(dir, line);
    if path in files {
      FoundReadsBack(path, IO.Chars(files[path]));
    } else {
      NotFoundReadsBack();
    }
  }

  /**
   * Request::Perform: a fresh BufReader on the connection reads the request
   * line, and the reply for it is built; the result is what is sent.
   */
  method Perform(conn: IO.Stream, dir: string, files: map<string, seq<IO.Byte>>) returns (msg: string)
    requires conn.Valid()
    modifies conn
    ensures msg == Respond(dir, IO.Chars(IO.LineOf(old(IO.Flatten(conn.chunks)))), files)
  {
    var reader := new IO.BufReader(conn);
    var line := reader.ReadLine();
    var request := ParseRequestLine(line);
    var file := FilePath(dir, request.uri);
    var path := CString(file);
    if path !in files {
      msg := Frame("404", "Not found", "text/plain", "Error occured");
      return;
    }
    msg := Frame("200", "OK", ContentType(path), IO.Chars(files[path]));
  }

  // ---------------------------------------------------------------------
  // The worker pool of Server::Impl

  /**
   * max(1u, hardware_concurrency() * (1 + 50 / 5)): 50 / 5 is 10 in integer
   * division, the product is taken modulo 2^32 as an unsigned value, and the
   * result is never 0.
   */
  function PoolSize(hw: nat): (n: nat)
    requires hw < Pool.UintLimit
    ensures 1 <= n < Pool.UintLimit
    ensures n == (if (hw * 11) % Pool.UintLimit == 0 then 1 else (hw * 11) % Pool.UintLimit)
    ensures hw * 11 < Pool.UintLimit ==> n == if hw == 0 then 1 else hw * 11
  {
    var product := (hw * (1 + 50 / 5)) % Pool.UintLimit;
    if product < 1 then 1 else product
  }

  /** Server::Impl's pool: PoolSize(hw) idle workers, so there is always one to submit to. */
  method NewServerPool<T>(hw: nat) returns (pool: Pool.RoundRobinWorkerPool<T>)
    requires hw < Pool.UintLimit
    ensures fresh(pool) && pool.Valid()
    ensures |pool.workers| == PoolSize(hw) && |pool.workers| >= 1
    ensures pool.nextWorker == 0 && pool.submitted == 0
  {
    pool := new Pool.RoundRobinWorkerPool(PoolSize(hw));
  }

  /** A task: the accepted connection and the served directory. */
  datatype Request = Request(conn: int, dir: string)

  /** AcceptRequest: the accepted connection goes to the pool as a new task, to the worker whose turn it is. */
  method AcceptRequest(pool: Pool.RoundRobinWorkerPool<Request>, conn: int, dir: string)
    requires pool.Valid() && |pool.workers| > 0
    modifies pool, pool.workers[pool.nextWorker].taskQueue
    ensures pool.Valid() && pool.workers == old(pool.workers) && pool.submitted == old(pool.submitted) + 1
    ensures var q := pool.workers[Pool.Turn(old(pool.submitted), |pool.workers|)].taskQueue;
      q.Model() == Queue.Sent(old(q.Model()), Request(conn, dir)).0
  {
    var _ := pool.SubmitTask(Request(conn, dir));
  }
}
