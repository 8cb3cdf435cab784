/**
 The protocol helpers of devices/ssdp.go: the M-SEARCH query serialiser and
 the tolerant datagram parser that turns an advertisement or reply into a
 Service record.
 */
module Ssdp {
  import opened Wrappers
  import opened ByteStrings
  import opened HttpHeader
  import opened Services

  /** The SSDP multicast group and port (UPnP Device Architecture 1.1, section 1). */
  const GroupAddr: Bytes := "239.255.255.250"
  const Port: nat := 1900

  // ---------------------------------------------------------------------
  // Query serialiser
  // ---------------------------------------------------------------------

  const SearchLine: Bytes := "M-SEARCH * HTTP/1.1"

  /** `fmt`'s `%q` of the literal "ssdp:discover": the text between double quotes. */
  const DiscoverDirective: Bytes := "\"ssdp:discover\""

  /** The header fields of a query, in the order they are written. */
  function SearchFields(searchType: Bytes, waitSec: int): Header {
    [ Field("HOST", GroupAddr + ":" + FormatInt(Port)),
      Field("MAN", DiscoverDirective),
      Field("MX", FormatInt(waitSec)),
      Field("ST", searchType) ]
  }

  /** Every field of a query is a well-formed header field. */
  lemma SearchFieldsWellFormed(searchType: Bytes, waitSec: int)
    requires ValidValue(searchType)
    ensures WellFormed(SearchFields(searchType, waitSec))
  {
    var fs := SearchFields(searchType, waitSec);
    PortDecimal();
    FormatIntValid(waitSec);
    FixedValueValid(fs[0].value);
    FixedValueValid(fs[1].value);
    forall j | 0 <= j < |fs| ensures ValidKey(fs[j].key) {
      QueryKeyValid(fs[j].key);
    }
  }

  /** The fixed HOST and MAN values are valid single-line header values. */
  lemma FixedValueValid(v: Bytes)
    requires v == GroupAddr + ":" + "1900" || v == DiscoverDirective
    ensures ValidValue(v)
  {
    assert v[0] == '2' || v[0] == '"';
  }

  /** The four query field names are valid header names. */
  lemma QueryKeyValid(k: Bytes)
    requires k == "HOST" || k == "MAN" || k == "MX" || k == "ST"
    ensures ValidKey(k)
  {
  }

  /** The decimal form of any integer is a valid single-line header value. */
  lemma FormatIntValid(n: int)
    ensures ValidValue(FormatInt(n))
  {
    var s := FormatInt(n);
    if n < 0 {
      assert forall i :: 1 <= i < |s| ==> s[i] == s[1..][i - 1];
    }
  }

  /** What a `bytes.Buffer` holds after writing each line followed by CRLF. */
  function WriteLines(lines: seq<Bytes>): (b: Bytes)
    decreases |lines|
  {
    if |lines| == 0 then [] else lines[0] + CRLF + WriteLines(lines[1..])
  }

  /** The lines of a query: request line, the four fields, and the closing empty line. */
  function SearchLines(searchType: Bytes, waitSec: int): seq<Bytes> {
    [SearchLine] + FieldLines(SearchFields(searchType, waitSec)) + [[]]
  }

  /** `buildSearch`: every line of the query written out with its CRLF. */
  function BuildSearch(searchType: Bytes, waitSec: int): (b: Bytes)
    ensures HasPrefix(b, SearchLine + CRLF)
    ensures HasSuffix(b, EndOfHeader)
  {
    var lines := SearchLines(searchType, waitSec);
    var ls := [SearchLine] + FieldLines(SearchFields(searchType, waitSec));
    WriteLinesIsJoin(lines);
    assert lines + [[]] == ls + [[], []];
    JoinTerminated(ls);
    assert WriteLines(lines) == SearchLine + CRLF + WriteLines(lines[1..]);
    AppendHasPrefix(SearchLine + CRLF, WriteLines(lines[1..]));
    WriteLines(lines)
  }

  /** CRLF-terminated lines are the same text as the lines joined by CRLF with an empty line after them. */
  lemma {:induction false} WriteLinesIsJoin(lines: seq<Bytes>)
    requires |lines| >= 1
    ensures WriteLines(lines) == Join(lines + [[]])
    decreases |lines|
  {
    if |lines| == 1 {
      JoinCons(lines[0], [[]]);
    } else {
      assert lines + [[]] == [lines[0]] + (lines[1..] + [[]]);
      JoinCons(lines[0], lines[1..] + [[]]);
      WriteLinesIsJoin(lines[1..]);
    }
  }

  /** The port is written as the four digits 1900. */
  lemma PortDecimal()
    ensures FormatInt(Port) == "1900"
  {
    assert Decimal(19) == Decimal(1) + "9";
    assert Decimal(190) == Decimal(19) + "0";
    assert Decimal(1900) == Decimal(190) + "0";
  }

  /** The HOST and MAN lines of every query. */
  const HostLine: Bytes := "HOST: 239.255.255.250:1900"
  const ManLine: Bytes := "MAN: \"ssdp:discover\""

  /** The HOST field names the multicast group and port. */
  lemma HostLineExact(searchType: Bytes, waitSec: int)
    ensures FieldLine(SearchFields(searchType, waitSec)[0]) == HostLine
  {
    PortDecimal();
    var f := SearchFields(searchType, waitSec)[0];
    HostText(f.key, f.value);
  }

  lemma HostText(k: Bytes, v: Bytes)
    requires k == "HOST" && v == GroupAddr + ":" + "1900"
    ensures k + ": " + v == HostLine
  {
  }

  /** The MAN field carries the quoted discover directive. */
  lemma ManLineExact(searchType: Bytes, waitSec: int)
    ensures FieldLine(SearchFields(searchType, waitSec)[1]) == ManLine
  {
    var f := SearchFields(searchType, waitSec)[1];
    ManText(f.key, f.value);
  }

  lemma ManText(k: Bytes, v: Bytes)
    requires k == "MAN" && v == DiscoverDirective
    ensures k + ": " + v == ManLine
  {
  }

  /** The four field lines of a query, spelled out. */
  lemma SearchFieldLinesExact(searchType: Bytes, waitSec: int)
    ensures FieldLines(SearchFields(searchType, waitSec)) ==
      [HostLine, ManLine, "MX: " + FormatInt(waitSec), "ST: " + searchType]
  {
    var fs := SearchFields(searchType, waitSec);
    var ls := FieldLines(fs);
    HostLineExact(searchType, waitSec);
    ManLineExact(searchType, waitSec);
    LabelledLine(fs[2], "MX: ");
    LabelledLine(fs[3], "ST: ");
  }

  /** A field line is the name with its colon and blank, then the value. */
  lemma LabelledLine(f: Field, lead: Bytes)
    requires (f.key == "MX" && lead == "MX: ") || (f.key == "ST" && lead == "ST: ")
    ensures FieldLine(f) == lead + f.value
  {
    assert f.key + ": " == lead;
  }

  /** Six lines, the last one empty, written out with their CRLFs. */
  lemma WriteSixLines(a: Bytes, b: Bytes, c: Bytes, d: Bytes, e: Bytes)
    ensures WriteLines([a, b, c, d, e, []]) == a + CRLF + (b + CRLF + (c + CRLF + (d + CRLF + (e + CRLF + CRLF))))
  {
    var ls: seq<Bytes> := [a, b, c, d, e, []];
    assert WriteLines(ls[5..]) == CRLF;
    assert WriteLines(ls[4..]) == e + CRLF + WriteLines(ls[5..]);
    assert WriteLines(ls[3..]) == d + CRLF + WriteLines(ls[4..]);
    assert WriteLines(ls[2..]) == c + CRLF + WriteLines(ls[3..]);
    assert WriteLines(ls[1..]) == b + CRLF + WriteLines(ls[2..]);
  }

  /**
   The exact bytes of a query: the request line, the HOST, MAN, MX and ST
   lines, each ended by CRLF, then one more CRLF.
   */
  lemma BuildSearchExact(searchType: Bytes, waitSec: int)
    ensures BuildSearch(searchType, waitSec) ==
      SearchLine + CRLF
      + (HostLine + CRLF
      + (ManLine + CRLF
      + (("MX: " + FormatInt(waitSec)) + CRLF
      + (("ST: " + searchType) + CRLF
      + CRLF))))
  {
    SearchFieldLinesExact(searchType, waitSec);
    var mx, st := "MX: " + FormatInt(waitSec), "ST: " + searchType;
    assert SearchLines(searchType, waitSec) == [SearchLine, HostLine, ManLine, mx, st, []];
    WriteSixLines(SearchLine, HostLine, ManLine, mx, st);
  }

  /** A query is the request line and its fields joined by CRLF, ended by an empty line. */
  lemma BuildSearchIsRendered(searchType: Bytes, waitSec: int)
    ensures BuildSearch(searchType, waitSec) == Datagram(SearchLine, SearchFields(searchType, waitSec), true)
  {
    var fs := SearchFields(searchType, waitSec);
    WriteLinesIsJoin([SearchLine] + FieldLines(fs) + [[]]);
    assert [SearchLine] + FieldLines(fs) + [[]] + [[]] == [SearchLine] + FieldLines(fs) + [[], []];
  }

  // ---------------------------------------------------------------------
  // Datagram parser
  // ---------------------------------------------------------------------

  /** The status line every datagram's first line is replaced with. */
  const StatusLine: Bytes := "HTTP/1.1 200 OK"
  const HTTPPrefix: Bytes := "HTTP"
  const EndOfHeader: Bytes := "\r\n\r\n"

  /** The header names a Service record is filled from. */
  const NtKey: Bytes := "NT"
  const UsnKey: Bytes := "USN"
  const LocationKey: Bytes := "LOCATION"
  const ServerKey: Bytes := "SERVER"

  datatype ParseError =
    | WithoutHTTPPrefix
    | BadResponse(cause: HeaderError)

  /**
   Split on CRLF, overwrite the first line with the status line, rejoin.
   Everything from the first CRLF of the input on is kept, byte for byte; an
   input without CRLF becomes the bare status line.
   */
  function ReplaceFirstLine(data: Bytes): (d: Bytes)
    ensures IndexCRLF(data).None? ==> d == StatusLine
    ensures IndexCRLF(data).Some? ==> d == StatusLine + data[IndexCRLF(data).value..]
  {
    var lines := Split(data);
    var lines' := if |lines| > 0 then [StatusLine] + lines[1..] else lines;
    ReplaceFirstLineShape(data);
    Join(lines')
  }

  lemma ReplaceFirstLineShape(data: Bytes)
    ensures IndexCRLF(data).None? ==> Join([StatusLine] + Split(data)[1..]) == StatusLine
    ensures IndexCRLF(data).Some? ==>
      Join([StatusLine] + Split(data)[1..]) == StatusLine + data[IndexCRLF(data).value..]
  {
    match IndexCRLF(data)
    case None =>
      assert [StatusLine] + Split(data)[1..] == [StatusLine];
    case Some(i) =>
      var rest := Split(data[i + 2..]);
      assert Split(data)[1..] == rest;
      JoinCons(StatusLine, rest);
      JoinSplit(data[i + 2..]);
      assert data[i..] == CRLF + data[i + 2..];
  }

  /** The status-line check can never fail: the rewritten text always starts with "HTTP". */
  lemma ReplacedHasHTTPPrefix(data: Bytes)
    ensures HasPrefix(ReplaceFirstLine(data), HTTPPrefix)
  {
    var d := ReplaceFirstLine(data);
    assert d[..|StatusLine|] == StatusLine;
    assert d[..4] == StatusLine[..4];
  }

  /**
   The terminator shim: make the text end with an empty line. Text that
   already does is returned unchanged; any other text gets CRLF CRLF appended.
   */
  function Terminate(d: Bytes): (t: Bytes)
    ensures HasSuffix(t, EndOfHeader)
    ensures HasSuffix(d, EndOfHeader) ==> t == d
    ensures !HasSuffix(d, EndOfHeader) ==> t == d + EndOfHeader
  {
    if HasSuffix(d, EndOfHeader) then d
    else
      AppendHasSuffix(d, EndOfHeader);
      d + EndOfHeader
  }

  lemma TerminateIdempotent(d: Bytes)
    ensures Terminate(Terminate(d)) == Terminate(d)
  {
  }

  /**
   `parseService`: normalise the first line, check the prefix, add a missing
   terminator, read the header block, and copy out NT, USN, LOCATION and
   SERVER. A header that is absent gives "".
   */
  function ParseService(from: Bytes, data: Bytes): (r: Result<Service, ParseError>)
    ensures r.Failure? ==> r.error.BadResponse?
    ensures r.Success? ==>
      && r.value.origin == from
      && r.value.serviceType == Get(r.value.rawHeader, NtKey)
      && r.value.usn == Get(r.value.rawHeader, UsnKey)
      && r.value.location == Get(r.value.rawHeader, LocationKey)
      && r.value.server == Get(r.value.rawHeader, ServerKey)
      && r.value.maxAge == None
  {
    var d := ReplaceFirstLine(data);
    ReplacedHasHTTPPrefix(data);
    if !HasPrefix(d, HTTPPrefix) then Failure(WithoutHTTPPrefix)
    else
      match ReadResponse(Terminate(d))
      case Failure(e) => Failure(BadResponse(e))
      case Success(h) =>
        Success(Service(from, Get(h, NtKey), Get(h, UsnKey), Get(h, LocationKey), Get(h, ServerKey), h, None))
  }

  /**
   A datagram as a device writes it: any first line, then header lines, and
   (when `terminated`) the closing empty line.
   */
  function Datagram(first: Bytes, h: Header, terminated: bool): Bytes {
    if terminated then Join([first] + FieldLines(h) + [[], []])
    else Join([first] + FieldLines(h))
  }

  /** Every line of a rendered datagram is free of line breaks. */
  lemma RenderedLinesNoBreak(first: Bytes, h: Header, tail: seq<Bytes>)
    requires NoLineBreak(first) && WellFormed(h)
    requires forall k :: 0 <= k < |tail| ==> NoLineBreak(tail[k])
    ensures forall k :: 0 <= k < |[first] + FieldLines(h) + tail| ==> NoLineBreak(([first] + FieldLines(h) + tail)[k])
  {
    var ls := [first] + FieldLines(h) + tail;
    forall k | 0 <= k < |ls| ensures NoLineBreak(ls[k]) {
      if 1 <= k <= |h| {
        FieldLineNoBreak(h[k - 1]);
      }
    }
  }

  /** The normalised, terminated text both forms of a datagram turn into. */
  function Normalised(h: Header): Bytes {
    Join([StatusLine] + FieldLines(h) + [[], []])
  }

  lemma NormalisedReads(h: Header)
    requires WellFormed(h)
    ensures ReadResponse(Normalised(h)) == Success(h)
  {
    var ls := [StatusLine] + FieldLines(h) + [[], []];
    RenderedLinesNoBreak(StatusLine, h, [[], []]);
    SplitJoin(ls);
    ReadFieldsRendered(h, ls[1..]);
    assert ls[0][..5] == StatusPrefix;
  }

  lemma NormalisedTerminated(h: Header)
    ensures HasSuffix(Normalised(h), EndOfHeader)
    ensures Normalised(h) == Join([StatusLine] + FieldLines(h)) + EndOfHeader
  {
    JoinTerminated([StatusLine] + FieldLines(h));
  }

  /** Two empty lines after a non-empty list of lines append exactly CRLF CRLF. */
  lemma JoinTerminated(ls: seq<Bytes>)
    requires |ls| >= 1
    ensures Join(ls + [[], []]) == Join(ls) + EndOfHeader
    ensures HasSuffix(Join(ls + [[], []]), EndOfHeader)
  {
    JoinTwoEmpty(ls);
    CrlfTwice(Join(ls));
    AppendHasSuffix(Join(ls), EndOfHeader);
  }

  lemma JoinTwoEmpty(ls: seq<Bytes>)
    requires |ls| >= 1
    ensures Join(ls + [[], []]) == Join(ls) + CRLF + CRLF
  {
    var one, two := ls + [[]], ls + [[], []];
    assert two == one + [[]];
    JoinSnoc(ls, []);
    DropEmpty(Join(ls) + CRLF);
    JoinSnoc(one, []);
    DropEmpty(Join(one) + CRLF);
  }

  lemma DropEmpty(x: Bytes)
    ensures x + [] == x
  {
  }

  lemma CrlfTwice(j: Bytes)
    ensures j + CRLF + CRLF == j + EndOfHeader
  {
    assert CRLF + CRLF == EndOfHeader;
    assert j + CRLF + CRLF == j + (CRLF + CRLF);
  }

  /** Both forms of a datagram normalise to the same terminated text. */
  lemma DatagramNormalises(first: Bytes, h: Header, terminated: bool)
    requires NoLineBreak(first) && WellFormed(h)
    ensures Terminate(ReplaceFirstLine(Datagram(first, h, terminated))) == Normalised(h)
  {
    var fl := FieldLines(h);
    NormalisedTerminated(h);
    if terminated {
      var rest := fl + [[], []];
      RenderedLinesNoBreak(first, h, [[], []]);
      assert [first] + fl + [[], []] == [first] + rest;
      assert [StatusLine] + fl + [[], []] == [StatusLine] + rest;
      ReplaceJoined(first, rest);
    } else {
      RenderedLinesNoBreak(first, h, []);
      assert [first] + fl + [] == [first] + fl;
      ReplaceJoined(first, fl);
      LastByteNotLF(h);
    }
  }

  /**
   Rewriting the first line of CRLF-joined lines replaces that line alone:
   the other lines come through unchanged.
   */
  lemma ReplaceJoined(first: Bytes, rest: seq<Bytes>)
    requires forall k :: 0 <= k < |[first] + rest| ==> NoLineBreak(([first] + rest)[k])
    ensures ReplaceFirstLine(Join([first] + rest)) == Join([StatusLine] + rest)
  {
    SplitJoin([first] + rest);
    assert ([first] + rest)[1..] == rest;
  }

  /** The joined status line and field lines never end in LF, so never in CRLF CRLF. */
  lemma LastByteNotLF(h: Header)
    requires WellFormed(h)
    ensures !HasSuffix(Join([StatusLine] + FieldLines(h)), EndOfHeader)
  {
    var ls := [StatusLine] + FieldLines(h);
    var j := Join(ls);
    var last := ls[|ls| - 1];
    assert |last| >= 1 && last[|last| - 1] != LF by {
      if |h| > 0 {
        FieldLineNoBreak(h[|h| - 1]);
      }
    }
    JoinEndsWithLast(ls);
    assert j[|j| - 1] != LF;
    assert EndOfHeader[3] == LF;
  }

  /**
   A datagram with a well-formed header parses into a record whose fields are
   the NT, USN, LOCATION and SERVER values of that header ("" when absent),
   with the header kept whole and no max-age computed yet. Whether or not the
   datagram carries its closing empty line makes no difference.
   */
  lemma ParseRendered(from: Bytes, first: Bytes, h: Header, terminated: bool)
    requires NoLineBreak(first) && WellFormed(h)
    ensures ParseService(from, Datagram(first, h, terminated)) ==
      Success(Service(from, Get(h, NtKey), Get(h, UsnKey), Get(h, LocationKey), Get(h, ServerKey), h, None))
  {
    var data := Datagram(first, h, terminated);
    ReplacedHasHTTPPrefix(data);
    DatagramNormalises(first, h, terminated);
    NormalisedReads(h);
  }

  /**
   The terminator shim makes a missing empty line irrelevant: any payload
   that does not end with CRLF CRLF parses exactly as it would with CRLF CRLF
   appended.
   */
  lemma ParseIgnoresMissingTerminator(from: Bytes, data: Bytes)
    requires !HasSuffix(data, EndOfHeader)
    ensures ParseService(from, data) == ParseService(from, data + EndOfHeader)
  {
    TerminatedAfterRewrite(data);
    ReplacedHasHTTPPrefix(data);
    ReplacedHasHTTPPrefix(data + EndOfHeader);
  }

  /** Appending CRLF CRLF before or after the first-line rewrite gives the same text. */
  lemma TerminatedAfterRewrite(data: Bytes)
    requires !HasSuffix(data, EndOfHeader)
    ensures Terminate(ReplaceFirstLine(data + EndOfHeader)) == Terminate(ReplaceFirstLine(data))
  {
    var t := data + EndOfHeader;
    match IndexCRLF(data)
    case None =>
      NoCRLFThenTerminator(data);
      assert t[|data|..] == EndOfHeader;
      assert StatusLine[|StatusLine| - 1] != EndOfHeader[3];
      AppendHasSuffix(StatusLine + [], EndOfHeader);
    case Some(i) =>
      FirstCRLFKept(data, EndOfHeader);
      var d := StatusLine + data[i..];
      assert t[i..] == data[i..] + EndOfHeader;
      assert ReplaceFirstLine(t) == d + EndOfHeader;
      RewriteNotTerminated(data, i);
      AppendHasSuffix(d, EndOfHeader);
  }

  /**
   Rewriting the first line of a payload that does not end with CRLF CRLF
   cannot produce text that does.
   */
  lemma RewriteNotTerminated(data: Bytes, i: nat)
    requires !HasSuffix(data, EndOfHeader)
    requires IndexCRLF(data) == Some(i)
    ensures !HasSuffix(StatusLine + data[i..], EndOfHeader)
  {
    var d := StatusLine + data[i..];
    if |data| - i >= 4 {
      assert d[|d| - 4..] == data[|data| - 4..];
    } else {
      assert d[|d| - 4] in {StatusLine[13], StatusLine[14]};
    }
  }

  /** A text whose first CRLF is at i. */
  lemma FirstCRLFAt(s: Bytes, i: nat)
    requires IsCRLFAt(s, i)
    requires forall j :: 0 <= j < i ==> !IsCRLFAt(s, j)
    ensures IndexCRLF(s) == Some(i)
  {
  }

  /** Bytes appended after the first CRLF do not move it. */
  lemma FirstCRLFKept(data: Bytes, w: Bytes)
    requires IndexCRLF(data).Some?
    ensures IndexCRLF(data + w) == IndexCRLF(data)
  {
    var i := IndexCRLF(data).value;
    var s := data + w;
    assert IsCRLFAt(s, i);
    forall j | 0 <= j < i
      ensures !IsCRLFAt(s, j)
    {
      assert !IsCRLFAt(data, j);
    }
    FirstCRLFAt(s, i);
  }

  /** A payload without CRLF gets its first CRLF from the appended terminator. */
  lemma NoCRLFThenTerminator(data: Bytes)
    requires IndexCRLF(data).None?
    ensures IndexCRLF(data + EndOfHeader) == Some(|data|)
  {
    var s := data + EndOfHeader;
    assert IsCRLFAt(s, |data|);
    forall j | 0 <= j < |data|
      ensures !IsCRLFAt(s, j)
    {
      if j + 1 < |data| {
        assert !IsCRLFAt(data, j);
      } else {
        assert s[j + 1] == EndOfHeader[0];
      }
    }
    FirstCRLFAt(s, |data|);
  }
}
