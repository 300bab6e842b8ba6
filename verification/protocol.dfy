/** The request front end that all three versions of the server share:
    splitting the received request with strtok, reading the command, the
    resource name and the Content-Length, the check on the shape of a
    resource name, and the fixed text of each status response. */
module Protocol {
  import opened Text

  /** A strtok token: a non-empty run of characters other than ' '. */
  predicate IsToken(t: string) { |t| > 0 && ' ' !in t }

  /** Length of the run of characters other than ' ' at the start of s. */
  function RunLength(s: string): (k: nat)
    ensures k <= |s|
    ensures forall i :: 0 <= i < k ==> s[i] != ' '
    ensures k < |s| ==> s[k] == ' '
  {
    if |s| == 0 || s[0] == ' ' then 0 else 1 + RunLength(s[1..])
  }

  /** The successive results of strtok(buf, " ") until it returns NULL:
      the maximal non-empty runs of characters other than ' ', in order. */
  function Tokens(s: string): (r: seq<string>)
    ensures forall i :: 0 <= i < |r| ==> IsToken(r[i])
    decreases |s|
  {
    if |s| == 0 then []
    else if s[0] == ' ' then Tokens(s[1..])
    else
      var k := RunLength(s);
      [s[..k]] + Tokens(s[k..])
  }

  /** Tokens written back with one space between neighbours. */
  function Join(ts: seq<string>): string
  {
    if |ts| == 0 then "" else if |ts| == 1 then ts[0] else ts[0] + " " + Join(ts[1..])
  }

  lemma {:induction false} RunLengthOf(t: string, rest: string)
    requires ' ' !in t
    requires rest == [] || rest[0] == ' '
    ensures RunLength(t + rest) == |t|
  {
    if |t| > 0 {
      assert (t + rest)[1..] == t[1..] + rest;
      RunLengthOf(t[1..], rest);
    } else {
      assert t + rest == rest;
    }
  }

  /** A token followed by a space (or by nothing) is what strtok returns first. */
  lemma TokensOfToken(t: string, rest: string)
    requires IsToken(t)
    requires rest == [] || rest[0] == ' '
    ensures Tokens(t + rest) == [t] + Tokens(rest)
  {
    var s := t + rest;
    RunLengthOf(t, rest);
    assert s[..|t|] == t;
    assert s[|t|..] == rest;
  }

  /** strtok recovers exactly the tokens that were joined by single spaces. */
  lemma {:induction false} TokensJoin(ts: seq<string>)
    requires forall i :: 0 <= i < |ts| ==> IsToken(ts[i])
    ensures Tokens(Join(ts)) == ts
  {
    if |ts| == 1 {
      TokensOfToken(ts[0], "");
      assert ts[0] + "" == ts[0];
    } else if |ts| > 1 {
      var rest := " " + Join(ts[1..]);
      TokensJoin(ts[1..]);
      TokensOfToken(ts[0], rest);
      assert ts[0] + " " + Join(ts[1..]) == ts[0] + rest;
      assert rest[1..] == Join(ts[1..]);
    }
  }

  /** Marks the end of the header block. */
  const EndOfHeader := "\r\n\r\n"

  /** The only header field that is read. */
  const LengthField := "Content-Length"

  const IntMin: int := -0x8000_0000
  const IntMax: int := 0x7FFF_FFFF

  /** The long from strtol stored into the int field content_length: it
      saturates at the range of long, then keeps the low 32 bits as a
      two's-complement number. */
  function Narrow(v: nat): (r: int)
    ensures IntMin <= r <= IntMax
    ensures v <= IntMax ==> r == v
  {
    var c := if v > LongMax then LongMax else v;
    var w := c % 0x1_0000_0000;
    if w > IntMax then w - 0x1_0000_0000 else w
  }

  /** The header scan is defined: every token that contains Content-Length
      (before the end of the header) has a next token, and that token
      starts with a digit (otherwise the source reads a NULL token or an
      uninitialised length). */
  predicate LengthDefined(toks: seq<string>)
    decreases |toks|
  {
    if |toks| == 0 || Contains(toks[0], EndOfHeader) then true
    else if Contains(toks[0], LengthField) then
      2 <= |toks| && 0 < |toks[1]| && IsDigit(toks[1][0]) && LengthDefined(toks[2..])
    else LengthDefined(toks[1..])
  }

  /** The content length after the header scan over toks, starting from
      len: stop at a token containing the end of the header; after a token
      containing Content-Length take the value of the digits that start
      the next token, and skip that token. */
  function ScanLength(toks: seq<string>, len: int): int
    requires LengthDefined(toks)
    decreases |toks|
  {
    if |toks| == 0 || Contains(toks[0], EndOfHeader) then len
    else if Contains(toks[0], LengthField) then ScanLength(toks[2..], Narrow(LeadingValue(toks[1])))
    else ScanLength(toks[1..], len)
  }

  /** The parsed request line: command, resource name, content length
      (-1 when none is given). */
  datatype Header = Header(command: string, resource: string, contentLength: int)

  /** The received request can be parsed without undefined behaviour: it
      has a command and a resource name, and the length scan is defined. */
  predicate Parseable(buf: string)
  {
    var toks := Tokens(CString(buf));
    2 <= |toks| && LengthDefined(toks[2..])
  }

  /** The header parseHeader returns for the received buffer. */
  function HeaderOf(buf: string): (h: Header)
    requires Parseable(buf)
    ensures IsToken(h.command) && IsToken(h.resource)
  {
    var toks := Tokens(CString(buf));
    Header(toks[0], toks[1], ScanLength(toks[2..], -1))
  }

  /** parseHeader: the first token is the command, the second the resource
      name; the loop over the remaining tokens finds the content length. */
  method ParseHeader(buf: string) returns (h: Header)
    requires Parseable(buf)
    ensures h == HeaderOf(buf)
  {
    var toks := Tokens(CString(buf));
    var len := -1;
    var i := 2;
    while i < |toks|
      invariant 2 <= i <= |toks|
      invariant LengthDefined(toks[i..])
      invariant ScanLength(toks[2..], -1) == ScanLength(toks[i..], len)
      decreases |toks| - i
    {
      var rest := toks[i..];
      assert rest[0] == toks[i];
      if Contains(toks[i], EndOfHeader) {
        break;
      }
      if Contains(toks[i], LengthField) {
        assert rest[1] == toks[i + 1] && rest[2..] == toks[i + 2..];
        len := Narrow(LeadingValue(toks[i + 1]));
        i := i + 2;
      } else {
        assert rest[1..] == toks[i + 1..];
        i := i + 1;
      }
    }
    h := Header(toks[0], toks[1], len);
  }

  /** Without any Content-Length token the length stays as it was (-1 for
      a request). */
  lemma {:induction false} LengthAbsent(toks: seq<string>, len: int)
    requires forall i :: 0 <= i < |toks| ==> !Contains(toks[i], LengthField)
    ensures LengthDefined(toks) && ScanLength(toks, len) == len
  {
    if |toks| > 0 && !Contains(toks[0], EndOfHeader) {
      LengthAbsent(toks[1..], len);
    }
  }

  /** The length is either the starting value or the value of the digits
      at the start of the token after some Content-Length token. */
  lemma {:induction false} LengthFromField(toks: seq<string>, len: int)
    requires LengthDefined(toks)
    ensures var r := ScanLength(toks, len);
      r == len ||
      exists i :: 0 <= i < |toks| - 1 && Contains(toks[i], LengthField)
        && r == Narrow(LeadingValue(toks[i + 1]))
  {
    if |toks| == 0 || Contains(toks[0], EndOfHeader) {
    } else if Contains(toks[0], LengthField) {
      var v := Narrow(LeadingValue(toks[1]));
      LengthFromField(toks[2..], v);
      var r := ScanLength(toks[2..], v);
      if r != v {
        var i :| 0 <= i < |toks[2..]| - 1 && Contains(toks[2..][i], LengthField)
          && r == Narrow(LeadingValue(toks[2..][i + 1]));
        assert toks[i + 2] == toks[2..][i] && toks[i + 3] == toks[2..][i + 1];
      }
    } else {
      LengthFromField(toks[1..], len);
      var r := ScanLength(toks[1..], len);
      if r != len {
        var i :| 0 <= i < |toks[1..]| - 1 && Contains(toks[1..][i], LengthField)
          && r == Narrow(LeadingValue(toks[1..][i + 1]));
        assert toks[i + 1] == toks[1..][i] && toks[i + 2] == toks[1..][i + 1];
      }
    }
  }

  /** The scan stops at the first token that contains the end of the
      header: a Content-Length after it is never read. */
  lemma {:induction false} LengthStopsAtEnd(pre: seq<string>, t: string, post: seq<string>, len: int)
    requires forall i :: 0 <= i < |pre| ==> !Contains(pre[i], LengthField) && !Contains(pre[i], EndOfHeader)
    requires Contains(t, EndOfHeader)
    ensures LengthDefined(pre + [t] + post) && ScanLength(pre + [t] + post, len) == len
  {
    var s := pre + [t] + post;
    if |pre| == 0 {
      assert s[0] == t;
    } else {
      assert s[0] == pre[0] && s[1..] == pre[1..] + [t] + post;
      LengthStopsAtEnd(pre[1..], t, post, len);
    }
  }

  /** The shape of an ordinary resource name: exactly 11 characters, the
      last 10 letters or digits; the first character is not checked. */
  predicate ValidName(name: string)
  {
    |name| == 11 && forall i :: 1 <= i < 11 ==> IsAlnum(name[i])
  }

  lemma ValidNameExamples()
    ensures ValidName("/abcdefghij")
    ensures !ValidName("/abcdefghi")
    ensures !ValidName("/abc-defghi")
  {
    assert !IsAlnum("/abc-defghi"[4]);
  }

  /** The status codes send_response knows. */
  predicate KnownCode(code: int) { code in {200, 201, 400, 403, 404, 500} }

  /** The reason phrase of each known status code, word by word. */
  function Reason(code: int): (ws: seq<string>)
    ensures 0 < |ws| && forall i :: 0 <= i < |ws| ==> IsToken(ws[i])
    ensures forall i :: 0 <= i < |ws| ==> |ws[i]| < |LengthField| && '\r' !in ws[i] && '\n' !in ws[i]
  {
    if code == 200 then ["OK"]
    else if code == 201 then ["Created"]
    else if code == 400 then ["Bad", "Request"]
    else if code == 403 then ["Forbidden"]
    else if code == 404 then ["Not", "Found"]
    else ["Internal", "Server", "Error"]
  }

  /** The header line that every response carries after its reason phrase. */
  const LengthLine := "\r\nContent-Length:"

  /** The length a response announces: len for 200 and 400, 0 for the others. */
  function AnnouncedLength(code: int, len: int): int
  {
    if code == 200 || code == 400 then len else 0
  }

  /** The bytes send_response writes for a status code, for instance
      "HTTP/1.1 404 Not Found\r\nContent-Length: 0\r\n\r\n"; an unknown
      code sends nothing. */
  function Response(code: int, len: int): (r: string)
    ensures r != [] <==> KnownCode(code)
  {
    if KnownCode(code) then
      Join(["HTTP/1.1", Decimal(code)] + Reason(code)) + LengthLine + " "
        + IntText(AnnouncedLength(code, len)) + EndOfHeader
    else ""
  }

  /** Text appended to the last of the joined tokens. */
  lemma {:induction false} JoinAppendLast(ws: seq<string>, x: string)
    requires 0 < |ws|
    ensures Join(ws) + x == Join(ws[..|ws| - 1] + [ws[|ws| - 1] + x])
  {
    var r := ws[..|ws| - 1] + [ws[|ws| - 1] + x];
    if |ws| == 1 {
      assert r == [ws[0] + x];
    } else {
      JoinAppendLast(ws[1..], x);
      assert r[0] == ws[0] && r[1..] == ws[1..][..|ws| - 2] + [ws[|ws| - 1] + x];
    }
  }

  /** One more token after a space. */
  lemma {:induction false} JoinSnoc(ws: seq<string>, t: string)
    requires 0 < |ws|
    ensures Join(ws) + " " + t == Join(ws + [t])
  {
    var r := ws + [t];
    if |ws| == 1 {
      assert r[1..] == [t];
    } else {
      JoinSnoc(ws[1..], t);
      assert r[0] == ws[0] && r[1..] == ws[1..] + [t];
    }
  }

  /** strtok on joined tokens whose last one carries the length header
      line, followed by the value. */
  lemma HeadTokens(head: seq<string>, value: string)
    requires 0 < |head| && forall i :: 0 <= i < |head| ==> IsToken(head[i])
    requires IsToken(value)
    ensures Tokens(Join(head) + LengthLine + " " + value)
      == head[..|head| - 1] + [head[|head| - 1] + LengthLine, value]
  {
    var k := |head|;
    var lead := head[..k - 1] + [head[k - 1] + LengthLine];
    JoinAppendLast(head, LengthLine);
    JoinSnoc(lead, value);
    assert ' ' !in LengthLine;
    TokensJoin(lead + [value]);
  }

  /** The same for a status line: protocol, code, reason words. */
  lemma StatusTokens(protocol: string, code: string, reason: seq<string>, digits: string)
    requires IsToken(protocol) && IsToken(code) && IsToken(digits)
    requires 0 < |reason| && forall i :: 0 <= i < |reason| ==> IsToken(reason[i])
    ensures Tokens(Join([protocol, code] + reason) + LengthLine + " " + (digits + EndOfHeader))
      == [protocol, code] + reason[..|reason| - 1] + [reason[|reason| - 1] + LengthLine, digits + EndOfHeader]
  {
    var head := [protocol, code] + reason;
    assert ' ' !in EndOfHeader;
    HeadTokens(head, digits + EndOfHeader);
    assert head[..|head| - 1] == [protocol, code] + reason[..|reason| - 1];
  }

  /** A response is its head tokens joined, the length line, a space and
      the value with the end of the header. */
  lemma ResponseText(code: int, len: nat)
    requires KnownCode(code)
    ensures Response(code, len) == Join(["HTTP/1.1", Decimal(code)] + Reason(code)) + LengthLine
      + " " + (Decimal(AnnouncedLength(code, len)) + EndOfHeader)
  {
    var n: nat := AnnouncedLength(code, len);
    assert IntText(n) == Decimal(n);
  }

  /** The tokens of a response: protocol, code, the reason words, the last
      reason word joined to the length line, and the value. */
  lemma ResponseTokens(code: int, len: nat)
    requires KnownCode(code)
    ensures var reason := Reason(code);
      Tokens(Response(code, len)) == ["HTTP/1.1", Decimal(code)] + reason[..|reason| - 1]
        + [reason[|reason| - 1] + LengthLine, Decimal(AnnouncedLength(code, len)) + EndOfHeader]
  {
    StatusTokens("HTTP/1.1", Decimal(code), Reason(code), Decimal(AnnouncedLength(code, len)));
    ResponseText(code, len);
  }

  /** Reading a response back with the same tokenizer and header scan the
      server uses for requests: the first token is the protocol, the second
      the status code, and the Content-Length found is the announced one.
      A code send_response does not know produces no bytes at all. */
  lemma ResponseFields(code: int, len: nat)
    requires len <= IntMax
    ensures KnownCode(code) <==> Response(code, len) != []
    ensures KnownCode(code) ==>
      var toks := Tokens(Response(code, len));
      2 <= |toks| && toks[0] == "HTTP/1.1" && toks[1] == Decimal(code)
      && LengthDefined(toks[2..]) && ScanLength(toks[2..], -1) == AnnouncedLength(code, len)
  {
    if KnownCode(code) {
      KnownResponseFields(code, len);
    }
  }

  lemma KnownResponseFields(code: int, len: nat)
    requires len <= IntMax && KnownCode(code)
    ensures Response(code, len) != []
    ensures var toks := Tokens(Response(code, len));
      2 <= |toks| && toks[0] == "HTTP/1.1" && toks[1] == Decimal(code)
      && LengthDefined(toks[2..]) && ScanLength(toks[2..], -1) == AnnouncedLength(code, len)
  {
    ResponseTokens(code, len);
    FieldsOf(Decimal(code), Reason(code), AnnouncedLength(code, len), Tokens(Response(code, len)));
    ResponseText(code, len);
  }

  /** The fields of response tokens with the given code, reason words and
      announced length. */
  lemma FieldsOf(code: string, reason: seq<string>, n: nat, toks: seq<string>)
    requires n <= IntMax && 0 < |reason|
    requires forall i :: 0 <= i < |reason| ==> |reason[i]| < |LengthField| && '\r' !in reason[i] && '\n' !in reason[i]
    requires toks == ["HTTP/1.1", code] + reason[..|reason| - 1]
      + [reason[|reason| - 1] + LengthLine, Decimal(n) + EndOfHeader]
    ensures 2 <= |toks| && toks[0] == "HTTP/1.1" && toks[1] == code
    ensures LengthDefined(toks[2..]) && ScanLength(toks[2..], -1) == n
  {
    var last := reason[|reason| - 1];
    var words := reason[..|reason| - 1];
    var value := Decimal(n) + EndOfHeader;
    assert toks[2..] == words + [last + LengthLine, value];
    ResponseScan(words, last, value, n);
  }

  /** The tokens after the status code: the reason words, then the last
      reason word carrying Content-Length (but not the end of the header),
      then the value. */
  lemma ResponseScan(words: seq<string>, last: string, value: string, n: nat)
    requires n <= IntMax
    requires forall i :: 0 <= i < |words| ==> |words[i]| < |LengthField| && '\r' !in words[i]
    requires '\n' !in last
    requires value == Decimal(n) + EndOfHeader
    ensures LengthDefined(words + [last + LengthLine, value])
    ensures ScanLength(words + [last + LengthLine, value], -1) == n
  {
    var line := last + LengthLine;
    forall i | 0 <= i < |words|
      ensures !Contains(words[i], LengthField) && !Contains(words[i], EndOfHeader)
    {
      Shorter(words[i], LengthField);
      NotContains(words[i], EndOfHeader, '\r');
    }
    assert line[|last| + 2..|last| + 2 + |LengthField|] == LengthField;
    ContainsAt(line, LengthField, |last| + 2);
    LineNoEnd(last);
    DecimalRoundTrip(n, EndOfHeader);
    LengthSkipsWords(words, [line, value], -1);
    var rest := [line, value];
    assert rest[2..] == [];
  }

  /** A pattern longer than s is not found. */
  lemma Shorter(s: string, p: string)
    requires |s| < |p|
    ensures !Contains(s, p)
  {
    if Contains(s, p) {
      var i := ContainsWhere(s, p);
    }
  }

  /** A pattern with a character that does not occur in s is not found. */
  lemma NotContains(s: string, p: string, c: char)
    requires c in p && c !in s
    ensures !Contains(s, p)
  {
    if Contains(s, p) {
      ContainsMultiset(s, p);
    }
  }

  /** The last reason word with its header line holds one line break, so
      not the end of the header. */
  lemma LineNoEnd(last: string)
    requires '\n' !in last
    ensures !Contains(last + LengthLine, EndOfHeader)
  {
    var line := last + LengthLine;
    forall j | 0 <= j < |line| && line[j] == '\n'
      ensures j == |last| + 1
    {
      if j >= |last| {
        assert line[j] == LengthLine[j - |last|];
      }
    }
    forall i: nat
      ensures !OccursAt(line, EndOfHeader, i)
    {
      if i + 4 <= |line| {
        assert line[i + 1] != '\n' || line[i + 3] != '\n';
      }
    }
    if Contains(line, EndOfHeader) {
      var i := ContainsWhere(line, EndOfHeader);
    }
  }

  /** Words that hold neither marker are skipped by the scan. */
  lemma {:induction false} LengthSkipsWords(words: seq<string>, rest: seq<string>, len: int)
    requires forall i :: 0 <= i < |words| ==> !Contains(words[i], LengthField) && !Contains(words[i], EndOfHeader)
    requires LengthDefined(rest)
    ensures LengthDefined(words + rest) && ScanLength(words + rest, len) == ScanLength(rest, len)
  {
    if |words| > 0 {
      var s := words + rest;
      assert s[0] == words[0] && s[1..] == words[1..] + rest;
      LengthSkipsWords(words[1..], rest, len);
    } else {
      assert words + rest == rest;
    }
  }
}
