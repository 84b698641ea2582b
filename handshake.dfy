/**
 * The opening handshake of the WebSocket server (section 4.2 of RFC 6455): the request
 * line test, the header block read line by line into a map, the accept key computed from
 * Sec-WebSocket-Key, and the two replies the server can write (101 Switching Protocols,
 * or the 200 page for a plain HTTP request).
 *
 * The request arrives as the sequence of lines readLine() returns; a request that ends
 * early is a sequence that stops there. SHA-1 is the parameter `digest`.
 */
module Handshake {
  import opened Wrappers
  import opened Text
  import opened Bytes
  import Base64
  import Base64Lemmas

  /** The GUID of section 1.3 of RFC 6455. */
  const Magic: string := "258EAFA5-E914-47DA-95CA-C5AB0DC85B11"
  const KeyField: string := "Sec-WebSocket-Key"
  const AcceptField: string := "Sec-WebSocket-Accept"
  const LengthField: string := "Content-Length"

  /**
   * One header line: split at its first ':' into a name and a value, both trimmed.
   * A line without ':' is no header and is skipped.
   */
  function ParseHeader(line: string): (r: Option<(string, string)>)
    ensures r.Some? ==> Trimmed(r.value.0) && Trimmed(r.value.1)
  {
    var i := IndexOf(line, ':');
    if i < 0 then None else Some((Trim(line[..i]), Trim(line[i + 1..])))
  }

  /** The test the loop applies, line.contains(":"), is the test ParseHeader applies. */
  lemma ParseHeaderContains(line: string)
    ensures ParseHeader(line).Some? <==> Contains(line, ":")
  {
    ContainsChar(line, ':');
    IndexOfFirst(line, ':');
  }

  /** `line` is a header line whose name is `name`. */
  predicate Names(line: string, name: string) {
    ParseHeader(line).Some? && ParseHeader(line).value.0 == name
  }

  /** One header line put into the map: a later line for a name replaces the earlier one. */
  function Put(m: map<string, string>, line: string): map<string, string>
  {
    match ParseHeader(line)
    case None => m
    case Some((name, value)) => m[name := value]
  }

  /** The HashMap the header lines are put into, in order. */
  function HeaderMap(lines: seq<string>): map<string, string>
  {
    if lines == [] then map[] else Put(HeaderMap(lines[..|lines| - 1]), lines[|lines| - 1])
  }

  /** A prefix of the header lines, one line longer. */
  lemma HeaderMapSnoc(lines: seq<string>, line: string)
    ensures HeaderMap(lines + [line]) == Put(HeaderMap(lines), line)
  {
    assert (lines + [line])[..|lines|] == lines;
  }

  lemma PutNames(m: map<string, string>, line: string, name: string)
    ensures name in Put(m, line) <==> name in m || Names(line, name)
  {
  }

  /** A name is in the map exactly when some header line names it. */
  lemma {:induction false} HeaderMapNames(lines: seq<string>, name: string)
    ensures name in HeaderMap(lines) <==> exists i :: 0 <= i < |lines| && Names(lines[i], name)
    decreases |lines|
  {
    if lines != [] {
      var init, last := lines[..|lines| - 1], lines[|lines| - 1];
      HeaderMapNames(init, name);
      PutNames(HeaderMap(init), last, name);
      assert forall i :: 0 <= i < |init| ==> init[i] == lines[i];
      if name in HeaderMap(lines) && !Names(last, name) {
        var i :| 0 <= i < |init| && Names(init[i], name);
        assert Names(lines[i], name);
      }
    }
  }

  /** The value of a name is the value on the last line that names it. */
  lemma {:induction false} HeaderMapLastWins(lines: seq<string>, i: nat, name: string, value: string)
    requires i < |lines| && ParseHeader(lines[i]) == Some((name, value))
    requires forall j :: i < j < |lines| ==> !Names(lines[j], name)
    ensures name in HeaderMap(lines) && HeaderMap(lines)[name] == value
    decreases |lines|
  {
    if i < |lines| - 1 {
      var init := lines[..|lines| - 1];
      assert init[i] == lines[i];
      forall j | i < j < |init|
        ensures !Names(init[j], name)
      {
        assert init[j] == lines[j];
      }
      HeaderMapLastWins(init, i, name, value);
      assert !Names(lines[|lines| - 1], name);
    }
  }

  /** The position of the first empty line at or after `from`, if there is one. */
  function FirstBlank(lines: seq<string>, from: nat): (r: Option<nat>)
    requires from <= |lines|
    ensures r.Some? ==> from <= r.value < |lines| && |lines[r.value]| == 0
    ensures r.Some? ==> forall j :: from <= j < r.value ==> |lines[j]| > 0
    ensures r.None? ==> forall j :: from <= j < |lines| ==> |lines[j]| > 0
    decreases |lines| - from
  {
    if from == |lines| then None
    else if |lines[from]| == 0 then Some(from)
    else FirstBlank(lines, from + 1)
  }

  /**
   * The headers of a request whose request line is lines[0]: the map of everything up to
   * the first empty line. None when the lines run out first: readLine() then returns null
   * and the isEmpty() test on it throws.
   */
  function HeaderSection(lines: seq<string>): Option<map<string, string>>
    requires |lines| >= 1
  {
    match FirstBlank(lines, 1)
    case None => None
    case Some(end) => Some(HeaderMap(lines[1..end]))
  }

  /** Empty-free lines are skipped by the search for the first empty line. */
  lemma {:induction false} FirstBlankSkips(lines: seq<string>, from: nat, to: nat)
    requires from <= to <= |lines|
    requires forall j :: from <= j < to ==> |lines[j]| > 0
    ensures FirstBlank(lines, from) == FirstBlank(lines, to)
    decreases (to as int) - (from as int)
  {
    if from < to {
      FirstBlankSkips(lines, from + 1, to);
    }
  }

  /** One more line of the header block read into the map. */
  lemma ReadStep(lines: seq<string>, i: nat, m: map<string, string>, next: map<string, string>)
    requires 1 <= i < |lines|
    requires m == HeaderMap(lines[1..i])
    requires next == Put(m, lines[i])
    ensures next == HeaderMap(lines[1..i + 1])
  {
    assert lines[1..i + 1] == lines[1..i] + [lines[i]];
    HeaderMapSnoc(lines[1..i], lines[i]);
  }

  /** Where the header loop stops determines the header section. */
  lemma SectionAt(lines: seq<string>, i: nat)
    requires 1 <= i <= |lines|
    requires forall j :: 1 <= j < i ==> |lines[j]| > 0
    requires i == |lines| || |lines[i]| == 0
    ensures HeaderSection(lines) == if i == |lines| then None else Some(HeaderMap(lines[1..i]))
  {
    FirstBlankSkips(lines, 1, i);
  }

  /** The header loop of handleClient, line by line. */
  method ReadHeaders(lines: seq<string>) returns (headers: Option<map<string, string>>)
    requires |lines| >= 1
    ensures headers == HeaderSection(lines)
  {
    var m: map<string, string> := map[];
    var i := 1;
    while i < |lines| && |lines[i]| > 0
      invariant 1 <= i <= |lines|
      invariant m == HeaderMap(lines[1..i])
      invariant forall j :: 1 <= j < i ==> |lines[j]| > 0
      decreases |lines| - i
    {
      var next := Put(m, lines[i]);
      ReadStep(lines, i, m, next);
      m := next;
      i := i + 1;
    }
    SectionAt(lines, i);
    if i == |lines| {
      return None;
    }
    return Some(m);
  }

  /** How the handshake of one connection ends. */
  datatype Outcome =
    | NotRequest            // no first line, or one without "GET": closed without a reply
    | HeadersCut            // the request ends inside its headers: closed without a reply
    | Page                  // no Sec-WebSocket-Key: the 200 page, then closed
    | Upgraded(accept: string)  // 101 reply sent: the connection speaks frames from now on

  /**
   * Sec-WebSocket-Accept: base 64 of the SHA-1 digest of the UTF-8 of key + GUID. SHA-1 is
   * the parameter `digest`; its octets are given as bit vectors, the form Base64 groups.
   */
  function AcceptKey(key: string, digest: seq<byte> -> seq<bv8>): string
  {
    Base64.Encode(digest(Utf8(key + Magic)))
  }

  /** What handleClient decides from the request lines. */
  function Negotiate(lines: seq<string>, digest: seq<byte> -> seq<bv8>): Outcome
  {
    if |lines| == 0 || !Contains(lines[0], "GET") then NotRequest
    else match HeaderSection(lines)
      case None => HeadersCut
      case Some(headers) =>
        if KeyField !in headers then Page
        else Upgraded(AcceptKey(headers[KeyField], digest))
  }

  /** The first part of handleClient: the GET check, the header loop and the key lookup. */
  method NegotiateRequest(lines: seq<string>, digest: seq<byte> -> seq<bv8>) returns (outcome: Outcome)
    ensures outcome == Negotiate(lines, digest)
  {
    if |lines| == 0 || !Contains(lines[0], "GET") {
      return NotRequest;
    }
    var headers := ReadHeaders(lines);
    if headers.None? {
      return HeadersCut;
    }
    if KeyField !in headers.value {
      return Page;
    }
    return Upgraded(AcceptKey(headers.value[KeyField], digest));
  }

  /** A request: a request line, header lines, the empty line, and whatever follows. */
  function Request(requestLine: string, fields: seq<string>, rest: seq<string>): seq<string>
  {
    [requestLine] + fields + [""] + rest
  }

  lemma RequestSection(requestLine: string, fields: seq<string>, rest: seq<string>)
    requires forall j :: 0 <= j < |fields| ==> |fields[j]| > 0
    ensures HeaderSection(Request(requestLine, fields, rest)) == Some(HeaderMap(fields))
  {
    var lines := Request(requestLine, fields, rest);
    var end := FirstBlank(lines, 1);
    assert |lines[|fields| + 1]| == 0;
    assert forall j :: 1 <= j <= |fields| ==> lines[j] == fields[j - 1];
    assert end == Some(|fields| + 1);
    assert lines[1..|fields| + 1] == fields;
  }

  /**
   * A GET request whose header lines name Sec-WebSocket-Key is upgraded, with the accept
   * key of the value on the last such line.
   */
  lemma NegotiateUpgrades(requestLine: string, fields: seq<string>, rest: seq<string>,
                          i: nat, key: string, digest: seq<byte> -> seq<bv8>)
    requires Contains(requestLine, "GET")
    requires forall j :: 0 <= j < |fields| ==> |fields[j]| > 0
    requires i < |fields| && ParseHeader(fields[i]) == Some((KeyField, key))
    requires forall j :: i < j < |fields| ==> !Names(fields[j], KeyField)
    ensures Negotiate(Request(requestLine, fields, rest), digest) == Upgraded(AcceptKey(key, digest))
  {
    RequestSection(requestLine, fields, rest);
    HeaderMapLastWins(fields, i, KeyField, key);
  }

  /** A GET request none of whose header lines names Sec-WebSocket-Key gets the page. */
  lemma NegotiatePage(requestLine: string, fields: seq<string>, rest: seq<string>,
                      digest: seq<byte> -> seq<bv8>)
    requires Contains(requestLine, "GET")
    requires forall j :: 0 <= j < |fields| ==> |fields[j]| > 0
    requires forall j :: 0 <= j < |fields| ==> !Names(fields[j], KeyField)
    ensures Negotiate(Request(requestLine, fields, rest), digest) == Page
  {
    RequestSection(requestLine, fields, rest);
    HeaderMapNames(fields, KeyField);
  }

  /** Only a request line containing "GET" gets any reply at all. */
  lemma NegotiateNeedsGet(lines: seq<string>, digest: seq<byte> -> seq<bv8>)
    ensures Negotiate(lines, digest) != NotRequest <==> |lines| > 0 && Contains(lines[0], "GET")
  {
  }

  /** Lines that stop before an empty line leave the handshake unfinished. */
  lemma NegotiateCut(lines: seq<string>, digest: seq<byte> -> seq<bv8>)
    requires |lines| > 0 && Contains(lines[0], "GET")
    requires forall j :: 1 <= j < |lines| ==> |lines[j]| > 0
    ensures Negotiate(lines, digest) == HeadersCut
  {
  }

  /** A SHA-1 digest (20 bytes) gives a 28 character key, one '=' of padding, that decodes back. */
  lemma AcceptKeyShape(key: string, digest: seq<byte> -> seq<bv8>)
    requires |digest(Utf8(key + Magic))| == 20
    ensures |AcceptKey(key, digest)| == 28
    ensures AcceptKey(key, digest)[27] == '=' && AcceptKey(key, digest)[26] != '='
    ensures Base64.Decode(AcceptKey(key, digest)) == Some(digest(Utf8(key + Magic)))
  {
    var d := digest(Utf8(key + Magic));
    DigestKey(d);
  }

  lemma DigestKey(d: seq<bv8>)
    requires |d| == 20
    ensures |Base64.Encode(d)| == 28
    ensures Base64.Encode(d)[27] == '=' && Base64.Encode(d)[26] != '='
    ensures Base64.Decode(Base64.Encode(d)) == Some(d)
  {
    var r := Base64.Encode(d);
    assert |r| == 28 by {
      Base64Lemmas.EncodeLength(d);
    }
    assert r[27] == '=' && r[26] != '=' by {
      Base64Lemmas.EncodePadding(d);
    }
    assert Base64.Decode(r) == Some(d) by {
      Base64Lemmas.DecodeEncode(d);
    }
  }

  /** The accept key has no white space, so trim() on the client side leaves it whole. */
  lemma AcceptKeyTrimmed(key: string, digest: seq<byte> -> seq<bv8>)
    ensures Trimmed(AcceptKey(key, digest))
  {
    Base64Lemmas.EncodeVisible(digest(Utf8(key + Magic)));
  }

  /** The lines of an HTTP response head, each closed by CRLF, then the empty line. */
  function Fields(fields: seq<string>): string
  {
    if fields == [] then "" else fields[0] + "\r\n" + Fields(fields[1..])
  }

  function Head(status: string, fields: seq<string>): string
  {
    status + "\r\n" + Fields(fields) + "\r\n"
  }

  /** A header line `name: value`. */
  function Field(name: string, value: string): string
  {
    name + ": " + value
  }

  /** A header line written as `name: value` is read back as that name and value. */
  lemma ParseField(name: string, value: string)
    requires ':' !in name && Trimmed(name) && Trimmed(value)
    ensures ParseHeader(Field(name, value)) == Some((name, value))
  {
    FieldColon(name, value);
    FieldSides(name, value);
    ParseLine(Field(name, value), name, value);
  }

  lemma ParseLine(line: string, name: string, value: string)
    requires IndexOf(line, ':') == |name|
    requires line[..|name|] == name && line[|name| + 1..] == " " + value
    requires Trimmed(name) && Trimmed(value)
    ensures ParseHeader(line) == Some((name, value))
  {
    assert Trim(name) == name && Trim(" " + value) == value by {
      TrimSpaced(name);
      TrimSpaced(value);
    }
  }

  lemma FieldColon(name: string, value: string)
    requires ':' !in name
    ensures IndexOf(Field(name, value), ':') == |name|
  {
    assert Field(name, value) == name + [':'] + (" " + value);
    IndexOfAfter(name, ':', " " + value);
  }

  lemma FieldSides(name: string, value: string)
    ensures Field(name, value)[..|name|] == name
    ensures Field(name, value)[|name| + 1..] == " " + value
  {
  }

  function SwitchingFields(accept: string): seq<string>
  {
    [Field("Upgrade", "websocket"), Field("Connection", "Upgrade"), Field(AcceptField, accept)]
  }

  /** The 101 reply, as getBytes("UTF-8") writes it. */
  function SwitchingResponse(accept: string): seq<byte>
  {
    Utf8(Head("HTTP/1.1 101 Switching Protocols", SwitchingFields(accept)))
  }

  /** A head with three fields: the status line, then each field line, each closed by CRLF, then the empty line. */
  lemma HeadThree(status: string, u: string, c: string, a: string)
    ensures Head(status, [u, c, a]) == status + "\r\n" + u + "\r\n" + c + "\r\n" + a + "\r\n" + "\r\n"
  {
    assert Fields([a]) == a + "\r\n" + Fields([]);
    assert Fields([c, a]) == c + "\r\n" + Fields([a]);
    assert Fields([u, c, a]) == u + "\r\n" + Fields([c, a]);
  }

  /** The 101 reply spelled out: the status line and the three upgrade fields, each closed by CRLF, then the empty line. */
  lemma SwitchingText(accept: string)
    ensures SwitchingResponse(accept) == Utf8("HTTP/1.1 101 Switching Protocols" + "\r\n" + "Upgrade: websocket" + "\r\n" +
      "Connection: Upgrade" + "\r\n" + ("Sec-WebSocket-Accept: " + accept) + "\r\n" + "\r\n")
  {
    assert Field("Upgrade", "websocket") == "Upgrade: websocket";
    assert Field("Connection", "Upgrade") == "Connection: Upgrade";
    assert Field(AcceptField, accept) == "Sec-WebSocket-Accept: " + accept;
    HeadThree("HTTP/1.1 101 Switching Protocols", "Upgrade: websocket", "Connection: Upgrade", "Sec-WebSocket-Accept: " + accept);
  }

  lemma SnocThree(a: string, b: string, c: string)
    ensures [a] == [] + [a] && [a, b] == [a] + [b] && [a, b, c] == [a, b] + [c]
  {
  }

  /** Three header lines with their names and values. */
  lemma HeaderMapThree(a: string, b: string, c: string, n1: string, v1: string,
                       n2: string, v2: string, n3: string, v3: string)
    requires ParseHeader(a) == Some((n1, v1))
    requires ParseHeader(b) == Some((n2, v2))
    requires ParseHeader(c) == Some((n3, v3))
    ensures HeaderMap([a, b, c]) == map[n1 := v1, n2 := v2, n3 := v3]
  {
    SnocThree(a, b, c);
    HeaderMapSnoc([], a);
    HeaderMapSnoc([a], b);
    HeaderMapSnoc([a, b], c);
  }

  lemma AcceptLine(accept: string)
    requires Trimmed(accept)
    ensures ParseHeader(Field(AcceptField, accept)) == Some((AcceptField, accept))
  {
    ParseField(AcceptField, accept);
  }

  /** Read with the same header parser, the 101 reply carries exactly the three upgrade fields. */
  lemma SwitchingFieldsParse(accept: string)
    requires Trimmed(accept)
    ensures HeaderMap(SwitchingFields(accept)) ==
      map["Upgrade" := "websocket", "Connection" := "Upgrade", AcceptField := accept]
  {
    AcceptLine(accept);
    ParseField("Upgrade", "websocket");
    ParseField("Connection", "Upgrade");
    HeaderMapThree(Field("Upgrade", "websocket"), Field("Connection", "Upgrade"),
      Field(AcceptField, accept), "Upgrade", "websocket", "Connection", "Upgrade", AcceptField, accept);
  }

  /** The 101 reply to an upgraded request names the accept key the handshake computed. */
  lemma SwitchingNamesAccept(key: string, digest: seq<byte> -> seq<bv8>)
    ensures AcceptField in HeaderMap(SwitchingFields(AcceptKey(key, digest)))
    ensures HeaderMap(SwitchingFields(AcceptKey(key, digest)))[AcceptField] == AcceptKey(key, digest)
  {
    AcceptKeyTrimmed(key, digest);
    SwitchingFieldsParse(AcceptKey(key, digest));
  }

  function OkFields(length: nat): seq<string>
  {
    [Field("Content-Type", "text/html; charset=UTF-8"), Field(LengthField, Decimal(length)),
     Field("Connection", "close")]
  }

  /** sendHttpResponse: the 200 head, whose Content-Length counts the UTF-8 bytes of the page. */
  function OkResponse(html: string): seq<byte>
  {
    Utf8(Head("HTTP/1.1 200 OK", OkFields(|Utf8(html)|)) + html)
  }

  lemma DecimalTrimmed(n: nat)
    ensures ':' !in Decimal(n) && Trimmed(Decimal(n))
  {
    var d := Decimal(n);
    assert IsDigit(d[0]) && IsDigit(d[|d| - 1]);
  }

  lemma LengthLine(n: nat)
    ensures ParseHeader(Field(LengthField, Decimal(n))) == Some((LengthField, Decimal(n)))
  {
    DecimalTrimmed(n);
    ParseField(LengthField, Decimal(n));
  }

  /** The three fields of the 200 head, as the header parser reads them. */
  lemma OkFieldsParse(n: nat)
    ensures HeaderMap(OkFields(n)) ==
      map["Content-Type" := "text/html; charset=UTF-8", LengthField := Decimal(n), "Connection" := "close"]
  {
    LengthLine(n);
    ParseField("Content-Type", "text/html; charset=UTF-8");
    ParseField("Connection", "close");
    HeaderMapThree(Field("Content-Type", "text/html; charset=UTF-8"), Field(LengthField, Decimal(n)),
      Field("Connection", "close"), "Content-Type", "text/html; charset=UTF-8", LengthField, Decimal(n),
      "Connection", "close");
  }

  /** The declared Content-Length reads back, with Integer.parseInt, as `n`. */
  lemma OkLength(n: nat)
    requires n <= IntMax
    ensures LengthField in HeaderMap(OkFields(n)) && ParseInt(HeaderMap(OkFields(n))[LengthField]) == Some(n)
  {
    OkFieldsParse(n);
    ParseDecimal(n);
  }

  /** The response is the head followed by the page. */
  lemma OkResponseSplit(html: string)
    ensures var n := |Utf8(html)|;
      var r := OkResponse(html);
      n <= |r| && r[|r| - n..] == Utf8(html) && r[..|r| - n] == Utf8(Head("HTTP/1.1 200 OK", OkFields(n)))
  {
    Utf8Append(Head("HTTP/1.1 200 OK", OkFields(|Utf8(html)|)), html);
  }

  /**
   * The page follows the head and is exactly as long as the Content-Length field, read with
   * the same header parser and Integer.parseInt, says it is.
   */
  lemma OkResponseFraming(html: string)
    requires |Utf8(html)| <= IntMax
    ensures var n := |Utf8(html)|;
      var r := OkResponse(html);
      n <= |r| && r[|r| - n..] == Utf8(html) &&
      r[..|r| - n] == Utf8(Head("HTTP/1.1 200 OK", OkFields(n))) &&
      LengthField in HeaderMap(OkFields(n)) && ParseInt(HeaderMap(OkFields(n))[LengthField]) == Some(n)
  {
    OkResponseSplit(html);
    OkLength(|Utf8(html)|);
  }
}
