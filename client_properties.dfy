/**
 * What the client's text handling promises: a receiver that splits a framed
 * request at its first line break and at its first blank line gets the
 * request line and exactly the body back; the response reader returns the
 * body of a well-framed 2xx response and refuses everything else in a fixed
 * order; the status-line parser reads the second token.
 */
module ClientProperties {
  import opened Text
  import opened Client

  // ---------------------------------------------------------------------
  // Splitting at CRLF and at the first blank line

  /** A line without CR, then CRLF: the split at the first CRLF is right after the line. */
  lemma SplitAfterLine(line: string, rest: string)
    requires NoCR(line)
    ensures SplitOnce(line + CRLF + rest, CRLF) == Some((line, rest))
  {
    var s := line + CRLF + rest;
    assert OccursAt(s, CRLF, |line|) by { assert s[|line|..|line| + 2] == CRLF; }
    forall j | 0 <= j < |line| ensures !OccursAt(s, CRLF, j) {
      assert s[j..j + 2][0] == s[j] == line[j];
    }
    SplitOnceAt(s, CRLF, |line|);
    assert s[..|line|] == line;
    assert s[|line| + 2..] == rest;
  }

  /** No CR is followed two places later by another CR. */
  predicate SpacedCR(s: string) {
    forall j :: 0 <= j < |s| - 2 && s[j] == '\r' ==> s[j + 2] != '\r'
  }

  /** In CRLF-terminated plain lines a CR is never followed two places later by another CR. */
  lemma {:induction false} NoEarlyBlankLine(lines: seq<string>)
    requires PlainLines(lines)
    ensures SpacedCR(TerminatedLines(lines))
    decreases |lines|
  {
    if |lines| > 0 {
      var l, rest := lines[0], lines[1..];
      var r := TerminatedLines(rest);
      var s := TerminatedLines(lines);
      assert s == l + CRLF + r;
      assert PlainLines(rest) by {
        forall k | 0 <= k < |rest| ensures |rest[k]| > 0 && NoCR(rest[k]) { assert rest[k] == lines[k + 1]; }
      }
      NoEarlyBlankLine(rest);
      forall j | 0 <= j < |s| - 2 ensures s[j] == '\r' ==> s[j + 2] != '\r' {
        if j < |l| {
          assert s[j] == l[j];
        } else if j == |l| {
          assert |r| > 0;
          assert |rest| > 0;
          assert r == rest[0] + CRLF + TerminatedLines(rest[1..]);
          assert |rest[0]| > 0 && NoCR(rest[0]);
          assert s[j + 2] == r[0] == rest[0][0];
        } else if j == |l| + 1 {
          assert s[j] == '\n';
        } else {
          var k := j - |l| - 2;
          assert s[j] == r[k];
          assert s[j + 2] == r[k + 2];
          assert 0 <= k < |r| - 2;
          assert SpacedCR(r);
          assert r[k] == '\r' ==> r[k + 2] != '\r';
        }
      }
    }
  }

  lemma TerminatedLinesEnd(lines: seq<string>)
    requires |lines| > 0
    ensures var s := TerminatedLines(lines); |s| >= 2 && s[|s| - 2..] == CRLF
    decreases |lines|
  {
    if |lines| > 1 {
      TerminatedLinesEnd(lines[1..]);
    }
  }

  /** Plain header lines, a blank line, a body: the first blank line is the one after the headers. */
  lemma BlankLineSplit(lines: seq<string>, body: string)
    requires |lines| > 0 && PlainLines(lines)
    ensures var h := TerminatedLines(lines);
      SplitOnce(h + CRLF + body, BLANK_LINE) == Some((h[..|h| - 2], body))
  {
    var h := TerminatedLines(lines);
    var s := h + CRLF + body;
    var n := |h| - 2;
    TerminatedLinesEnd(lines);
    NoEarlyBlankLine(lines);
    assert OccursAt(s, BLANK_LINE, n) by {
      assert s[n..n + 4] == h[n..] + CRLF;
    }
    NoBlankLineIn(h, CRLF + body);
    assert s == h + (CRLF + body);
    SplitOnceAt(s, BLANK_LINE, n);
    assert s[..n] == h[..n];
    assert s[n + 4..] == body;
  }

  /** Text whose CRs are spaced out holds no blank line starting inside it, except in its last two places. */
  lemma NoBlankLineIn(h: string, rest: string)
    requires SpacedCR(h) && |h| >= 2
    ensures forall j :: 0 <= j < |h| - 2 ==> !OccursAt(h + rest, BLANK_LINE, j)
  {
    var s := h + rest;
    forall j | 0 <= j < |h| - 2 ensures !OccursAt(s, BLANK_LINE, j) {
      if j + 4 <= |s| {
        assert s[j..j + 4][0] == s[j] == h[j];
        assert s[j..j + 4][2] == s[j + 2] == h[j + 2];
      }
    }
  }

  // ---------------------------------------------------------------------
  // Request framing

  lemma TerminatedLinesCons(l: string, rest: seq<string>)
    ensures TerminatedLines([l] + rest) == l + CRLF + TerminatedLines(rest)
  {
    assert ([l] + rest)[1..] == rest;
  }

  /** The content headers are the CRLF-terminated content lines of the request. */
  lemma ContentHeaderLines(body: string)
    ensures ContentHeader(body) == TerminatedLines(ContentLines(body))
  {
    if body != "" {
      var len := "Content-Length: " + ShowNat(Utf8Len(body));
      assert ContentLines(body) == ["Content-Type: application/json"] + [len];
      TerminatedLinesCons("Content-Type: application/json", [len]);
      TerminatedLinesCons(len, []);
    }
  }

  lemma ThreeLines(a: string, b: string, c: string, extra: seq<string>)
    ensures TerminatedLines([a, b, c] + extra) == a + CRLF + (b + CRLF + (c + CRLF + TerminatedLines(extra)))
  {
    var tail2 := [c] + extra;
    var tail1 := [b] + tail2;
    assert [a, b, c] + extra == [a] + tail1;
    TerminatedLinesCons(c, extra);
    TerminatedLinesCons(b, tail2);
    TerminatedLinesCons(a, tail1);
  }

  /** The formatted request is its header lines, each CRLF-terminated, a blank line and the body. */
  lemma RequestTextLines(verb: string, path: string, body: string)
    ensures RequestText(verb, path, body) == TerminatedLines(RequestLines(verb, path, body)) + CRLF + body
  {
    var first := verb + " " + path + " HTTP/1.1";
    ContentHeaderLines(body);
    ThreeLines(first, "Host: localhost", "Connection: close", ContentLines(body));
  }

  lemma DigitsNoCR(s: string)
    requires AllDigits(s)
    ensures NoCR(s)
  {
  }

  /**
   * A receiver splitting the request at its first CRLF gets the request line,
   * and splitting at its first blank line gets exactly the body that was sent;
   * the last header line before it states the body's UTF-8 length.
   */
  lemma RequestFraming(verb: string, path: string, body: string)
    requires NoCR(verb) && NoCR(path)
    ensures var req := RequestText(verb, path, body);
      && SplitOnce(req, CRLF).Some?
      && SplitOnce(req, CRLF).value.0 == verb + " " + path + " HTTP/1.1"
      && SplitOnce(req, BLANK_LINE).Some?
      && SplitOnce(req, BLANK_LINE).value.1 == body
    ensures body != "" ==> RequestLines(verb, path, body)[4] == "Content-Length: " + ShowNat(Utf8Len(body))
    ensures body == "" <==> |RequestLines(verb, path, body)| == 3
  {
    RequestLineSplit(verb, path, body);
    RequestBodySplit(verb, path, body);
  }

  /** The first CRLF of a request ends its request line. */
  lemma RequestLineSplit(verb: string, path: string, body: string)
    requires NoCR(verb) && NoCR(path)
    ensures var req := RequestText(verb, path, body);
      SplitOnce(req, CRLF).Some? && SplitOnce(req, CRLF).value.0 == verb + " " + path + " HTTP/1.1"
  {
    var first := verb + " " + path + " HTTP/1.1";
    var rest := "Host: localhost" + CRLF + "Connection: close" + CRLF + ContentHeader(body) + CRLF + body;
    assert RequestText(verb, path, body) == first + CRLF + rest;
    RequestLineNoCR(verb, path);
    SplitAfterLine(first, rest);
  }

  /** The first blank line of a request is the one before its body. */
  lemma RequestBodySplit(verb: string, path: string, body: string)
    requires NoCR(verb) && NoCR(path)
    ensures var req := RequestText(verb, path, body);
      SplitOnce(req, BLANK_LINE).Some? && SplitOnce(req, BLANK_LINE).value.1 == body
  {
    var lines := RequestLines(verb, path, body);
    RequestLinesPlain(verb, path, body);
    RequestTextLines(verb, path, body);
    BlankLineSplit(lines, body);
  }

  lemma RequestLineNoCR(verb: string, path: string)
    requires NoCR(verb) && NoCR(path)
    ensures NoCR(verb + " " + path + " HTTP/1.1")
  {
    var first := verb + " " + path + " HTTP/1.1";
    forall i | 0 <= i < |first| ensures first[i] != '\r' {
      if i < |verb| {
        assert first[i] == verb[i];
      } else if |verb| + 1 <= i < |verb| + 1 + |path| {
        assert first[i] == path[i - |verb| - 1];
      }
    }
  }

  lemma ContentLengthNoCR(n: nat)
    ensures NoCR("Content-Length: " + ShowNat(n))
  {
    var d := ShowNat(n);
    var line := "Content-Length: " + d;
    forall i | 0 <= i < |line| ensures line[i] != '\r' {
      if i >= 16 {
        assert line[i] == d[i - 16];
      }
    }
  }

  lemma RequestLinesPlain(verb: string, path: string, body: string)
    requires NoCR(verb) && NoCR(path)
    ensures PlainLines(RequestLines(verb, path, body))
  {
    RequestLineNoCR(verb, path);
    ContentLengthNoCR(Utf8Len(body));
  }

  // ---------------------------------------------------------------------
  // Status line

  /**
   * `parse_status_code` reads the second token, whatever surrounds it: any
   * leading and trailing whitespace, any runs of whitespace between tokens,
   * any tokens after it, and a code written with a '+' or leading zeros.
   */
  lemma StatusLineRoundTrip(pre: string, ws: seq<string>, gaps: seq<string>, plus: bool, zeros: nat, code: nat)
    requires AllWhitespace(pre) && |ws| == |gaps| && Gaps(gaps)
    requires forall k :: 0 <= k < |ws| ==> IsWord(ws[k])
    requires |ws| >= 2 && ws[1] == DecimalToken(plus, zeros, code)
    ensures ParseStatusCode(pre + Layout(ws, gaps)) == if code <= U16_MAX then Ok(code) else Err(InvalidCode)
  {
    WordsLayout(pre, ws, gaps);
    ParseU16Padded(plus, zeros, code);
  }

  /** A second token that is not a u16 (non-digits, or above 65535) is refused, whatever surrounds it. */
  lemma StatusLineBadCode(pre: string, ws: seq<string>, gaps: seq<string>)
    requires AllWhitespace(pre) && |ws| == |gaps| && Gaps(gaps)
    requires forall k :: 0 <= k < |ws| ==> IsWord(ws[k])
    requires |ws| >= 2 && ParseU16(ws[1]) == None
    ensures ParseStatusCode(pre + Layout(ws, gaps)) == Err(InvalidCode)
  {
    WordsLayout(pre, ws, gaps);
  }

  /** The status line a server writes: version, code and reason separated by single spaces. */
  lemma StatusLineSpaced(version: string, code: nat, reason: string)
    requires IsWord(version)
    ensures ParseStatusCode(version + " " + ShowNat(code) + " " + reason)
            == if code <= U16_MAX then Ok(code) else Err(InvalidCode)
  {
    var d := ShowNat(code);
    assert IsWord(d);
    StatusLineTokens(version, d, reason);
    ParseU16Show(code);
  }

  lemma StatusLineTokens(version: string, tok: string, reason: string)
    requires IsWord(version) && IsWord(tok)
    ensures Words(version + " " + tok + " " + reason) == [version, tok] + Words(reason)
  {
    var tail := tok + " " + reason;
    assert version + " " + tok + " " + reason == version + " " + tail;
    WordThenSpace(version, tail);
    WordThenSpace(tok, reason);
  }

  /** A word and a space: the word is the first token, and the space is skipped. */
  lemma WordThenSpace(w: string, rest: string)
    requires IsWord(w)
    ensures Words(w + " " + rest) == [w] + Words(rest)
  {
    assert w + " " + rest == w + ([' '] + rest);
    WordsCons(w, [' '] + rest);
    WordsSkipSpace(' ', rest);
  }

  /** Fewer than two tokens is refused, naming the missing one. */
  lemma StatusLineTooShort(line: string)
    requires |Words(line)| < 2
    ensures ParseStatusCode(line) == if |Words(line)| == 0 then Err(MissingVersion) else Err(MissingCode)
  {
  }

  lemma StatusLineOk()
    ensures ParseStatusCode("HTTP/1.1 200 OK") == Ok(200)
  {
    assert ShowNat(200) == "200";
    assert "HTTP/1.1 200 OK" == "HTTP/1.1" + " " + ShowNat(200) + " " + "OK";
    StatusLineSpaced("HTTP/1.1", 200, "OK");
  }

  lemma StatusLineNotFound()
    ensures ParseStatusCode("HTTP/1.1 404 Not Found") == Ok(404)
  {
    assert ShowNat(404) == "404";
    assert "HTTP/1.1 404 Not Found" == "HTTP/1.1" + " " + ShowNat(404) + " " + "Not Found";
    StatusLineSpaced("HTTP/1.1", 404, "Not Found");
  }

  lemma StatusLineNonDigits()
    ensures ParseStatusCode("HTTP/1.1 abc OK") == Err(InvalidCode)
  {
    ParseU16RejectsNonDigit("abc", 0);
    assert "HTTP/1.1 abc OK" == "HTTP/1.1" + " " + "abc" + " " + "OK";
    StatusLineTokens("HTTP/1.1", "abc", "OK");
  }

  lemma StatusLineTooLarge()
    ensures ParseStatusCode("HTTP/1.1 65536 OK") == Err(InvalidCode)
  {
    assert ShowNat(65536) == "65536";
    assert "HTTP/1.1 65536 OK" == "HTTP/1.1" + " " + ShowNat(65536) + " " + "OK";
    StatusLineSpaced("HTTP/1.1", 65536, "OK");
  }

  /** No reason phrase: `HTTP/1.1 200` gives 200. */
  lemma StatusLineNoReason()
    ensures ParseStatusCode("HTTP/1.1 200") == Ok(200)
  {
    var ws, gaps := ["HTTP/1.1", "200"], [" ", ""];
    assert ShowNat(200) == "200";
    assert Layout(ws[1..], gaps[1..]) == "200";
    assert "" + Layout(ws, gaps) == "HTTP/1.1 200";
    StatusLineRoundTrip("", ws, gaps, false, 0, 200);
  }

  /** Tabs, doubled and surrounding blanks, a '+' and a leading zero: ` HTTP/1.1\t\t+0200 OK ` gives 200. */
  lemma StatusLineLoose()
    ensures ParseStatusCode(" HTTP/1.1\t\t+0200 OK ") == Ok(200)
  {
    var ws, gaps := LooseTokens(), LooseGaps();
    LooseShape();
    StatusLineRoundTrip(" ", ws, gaps, true, 1, 200);
  }

  function LooseTokens(): seq<string> { ["HTTP/1.1", "+0200", "OK"] }

  function LooseGaps(): seq<string> { ["\t\t", " ", " "] }

  lemma LooseShape()
    ensures forall k :: 0 <= k < 3 ==> IsWord(LooseTokens()[k])
    ensures Gaps(LooseGaps()) && LooseTokens()[1] == DecimalToken(true, 1, 200)
    ensures " " + Layout(LooseTokens(), LooseGaps()) == " HTTP/1.1\t\t+0200 OK "
  {
    var ws, gaps := LooseTokens(), LooseGaps();
    assert ShowNat(200) == "200";
    assert AllWhitespace(gaps[0]) && AllWhitespace(gaps[1]) && AllWhitespace(gaps[2]);
    assert ws[2..] == ["OK"] && gaps[2..] == [" "];
    assert Layout(ws[2..], gaps[2..]) == "OK ";
    assert Layout(ws[1..], gaps[1..]) == "+0200 OK ";
  }

  lemma StatusLineVersionOnly()
    ensures ParseStatusCode("HTTP/1.1") == Err(MissingCode)
  {
    WordsCons("HTTP/1.1", "");
    assert "HTTP/1.1" + "" == "HTTP/1.1";
  }

  // ---------------------------------------------------------------------
  // Response reading

  /**
   * A response framed with a status line, at least one header line and a
   * blank line yields its body when the code is 2xx and a `ServerStatus`
   * error carrying code and body otherwise, before any JSON decoding.
   */
  lemma ReadResponseRoundTrip(version: string, code: u16, reason: string, headers: seq<string>, body: string)
    requires IsWord(version) && NoCR(reason)
    requires |headers| > 0 && PlainLines(headers)
    ensures ReadResponse(FramedResponse(version + " " + ShowNat(code) + " " + reason, headers, body))
            == if 200 <= code < 300 then Ok(body) else Err(ServerStatus(code, body))
  {
    var statusLine := version + " " + ShowNat(code) + " " + reason;
    var h := TerminatedLines(headers);
    var rest := h + CRLF + body;
    assert NoCR(statusLine) by {
      var d := ShowNat(code);
      DigitsNoCR(d);
      forall i | 0 <= i < |statusLine| ensures statusLine[i] != '\r' {
        if i < |version| {
          assert statusLine[i] == version[i];
          assert !IsWhitespace(version[i]);
        } else if |version| < i < |version| + 1 + |d| {
          assert statusLine[i] == d[i - |version| - 1];
        } else if i > |version| + 1 + |d| {
          assert statusLine[i] == reason[i - |version| - 2 - |d|];
        }
      }
    }
    assert FramedResponse(statusLine, headers, body) == statusLine + CRLF + rest;
    SplitAfterLine(statusLine, rest);
    StatusLineSpaced(version, code, reason);
    BlankLineSplit(headers, body);
  }

  /**
   * A response with no header lines at all is refused, whatever its status:
   * its blank line is taken as the end of the status line, and no second one
   * follows in a body without CR.
   */
  lemma HeaderlessResponseRejected(statusLine: string, body: string)
    requires NoCR(statusLine) && NoCR(body)
    requires ParseStatusCode(statusLine).Ok?
    ensures ReadResponse(statusLine + CRLF + CRLF + body) == Err(MissingBodySeparator)
  {
    var rest := CRLF + body;
    assert statusLine + CRLF + CRLF + body == statusLine + CRLF + rest;
    SplitAfterLine(statusLine, rest);
    forall j | 0 <= j <= |rest| ensures !OccursAt(rest, BLANK_LINE, j) {
      if j + 4 <= |rest| {
        assert rest[j..j + 4][2] == rest[j + 2] == body[j];
      }
    }
  }

  // ---------------------------------------------------------------------
  // Subcommands

  /** Only Start and Extend send a body, and it is `{"seconds":n}` with their n. */
  lemma CommandPayloads(c: Command)
    ensures CommandRequest(c).payload.Some? <==> c.Start? || c.Extend?
    ensures c.Start? || c.Extend? ==> CommandRequest(c).payload == Some(SecondsJson(c.seconds))
  {
  }

  lemma SecondsJsonInjective(a: nat, b: nat)
    requires SecondsJson(a) == SecondsJson(b)
    ensures a == b
  {
    var s, t := SecondsJson(a), SecondsJson(b);
    assert s[11..|s| - 1] == ShowNat(a);
    assert t[11..|t| - 1] == ShowNat(b);
    ShowNatInjective(a, b);
  }

  /** Different subcommands send different requests: each has its own (method, path), and the body tells seconds apart. */
  lemma CommandRequestInjective(c1: Command, c2: Command)
    requires CommandRequest(c1) == CommandRequest(c2)
    ensures c1 == c2
  {
    if c1.Start? || c1.Extend? {
      SecondsJsonInjective(c1.seconds, c2.seconds);
    }
  }

  /** The empty body sends no content headers; a seconds body declares its byte length. */
  lemma SecondsBodyLength(n: nat)
    ensures ContentHeader("") == ""
    ensures Utf8Len(SecondsJson(n)) == |ShowNat(n)| + 12
  {
    Utf8LenAscii(SecondsJson(n));
  }

  /**
   * What each subcommand puts on the wire: the request line names its method
   * and path, the body after the first blank line is exactly its
   * `{"seconds":n}` payload (empty for the others), and a seconds body is
   * announced with a Content-Length of its digit count plus 12.
   */
  lemma CommandWire(c: Command)
    ensures var out := CommandRequest(c);
      var text := SendText(out);
      && SplitOnce(text, CRLF).Some?
      && SplitOnce(text, CRLF).value.0 == out.verb + " " + out.path + " HTTP/1.1"
      && SplitOnce(text, BLANK_LINE).Some?
      && SplitOnce(text, BLANK_LINE).value.1 == (if c.Start? || c.Extend? then SecondsJson(c.seconds) else "")
    ensures !(c.Start? || c.Extend?) ==> |RequestLines(CommandRequest(c).verb, CommandRequest(c).path, "")| == 3
    ensures c.Start? || c.Extend? ==>
      var out := CommandRequest(c);
      RequestLines(out.verb, out.path, SecondsJson(c.seconds))[4] == "Content-Length: " + ShowNat(|ShowNat(c.seconds)| + 12)
  {
    match c
    case Status => EmptyWire("GET", "/time_left");
    case Start(n) => SecondsWire("POST", "/start", n);
    case Pause => EmptyWire("POST", "/pause");
    case Resume => EmptyWire("POST", "/resume");
    case Toggle => EmptyWire("POST", "/toggle");
    case Extend(n) => SecondsWire("POST", "/extend", n);
  }

  lemma EmptyWire(verb: string, path: string)
    requires NoCR(verb) && NoCR(path)
    ensures var text := SendText(Outgoing(verb, path, None));
      && SplitOnce(text, CRLF).Some?
      && SplitOnce(text, CRLF).value.0 == verb + " " + path + " HTTP/1.1"
      && SplitOnce(text, BLANK_LINE).Some?
      && SplitOnce(text, BLANK_LINE).value.1 == ""
    ensures |RequestLines(verb, path, "")| == 3
  {
    assert SendText(Outgoing(verb, path, None)) == RequestText(verb, path, "");
    RequestFraming(verb, path, "");
  }

  lemma SecondsWire(verb: string, path: string, n: nat)
    requires NoCR(verb) && NoCR(path)
    ensures var text := SendText(Outgoing(verb, path, Some(SecondsJson(n))));
      && SplitOnce(text, CRLF).Some?
      && SplitOnce(text, CRLF).value.0 == verb + " " + path + " HTTP/1.1"
      && SplitOnce(text, BLANK_LINE).Some?
      && SplitOnce(text, BLANK_LINE).value.1 == SecondsJson(n)
    ensures RequestLines(verb, path, SecondsJson(n))[4] == "Content-Length: " + ShowNat(|ShowNat(n)| + 12)
  {
    var body := SecondsJson(n);
    assert SendText(Outgoing(verb, path, Some(body))) == RequestText(verb, path, body);
    RequestFraming(verb, path, body);
    SecondsBodyLength(n);
  }
}
