/**
 An abstract model of the part of Go's `net/http` the SSDP parser leans on:
 `http.ReadResponse` reading a status line and a MIME header block, and
 `http.Header.Get`. The real library is not part of this model; what is stated
 here is an assumption about it, kept deliberately small:

 - the text is cut into lines at CRLF;
 - the first line is the status line and must start with "HTTP/";
 - each following line up to the first empty line is `Name: value`, where the
   name is non-empty and holds no space, tab, colon or line break, and the
   value has its surrounding spaces and tabs removed;
 - any other line before the empty line is a failure, and so is running out
   of lines before the empty line (an unexpected end of input);
 - anything after the empty line is the body and is not looked at;
 - `Get` compares names without regard to ASCII case and returns the value of
   the first matching field, or the empty string when there is none.
 */
module HttpHeader {
  import opened Wrappers
  import opened ByteStrings

  datatype Field = Field(key: Bytes, value: Bytes)

  /** The header fields in the order they arrived (`http.Header` keeps that order per name). */
  type Header = seq<Field>

  datatype HeaderError = MalformedStatusLine | MalformedHeaderLine | UnexpectedEOF

  const StatusPrefix: Bytes := "HTTP/"

  // ---------------------------------------------------------------------
  // Case-insensitive names
  // ---------------------------------------------------------------------

  /** ASCII lower-casing; every other byte is left alone. */
  function Lower(c: byte): byte {
    if 'A' <= c <= 'Z' then (c as int + 32) as char else c
  }

  /** ASCII case-insensitive equality of two names. */
  predicate EqualFold(a: Bytes, b: Bytes) {
    |a| == |b| && forall i :: 0 <= i < |a| ==> Lower(a[i]) == Lower(b[i])
  }

  /** Index of the first field whose name matches `name`. */
  function Find(h: Header, name: Bytes): (r: Option<nat>)
    ensures r.Some? ==> r.value < |h| && EqualFold(h[r.value].key, name)
    ensures r.Some? ==> forall j :: 0 <= j < r.value ==> !EqualFold(h[j].key, name)
    ensures r.None? ==> forall j :: 0 <= j < |h| ==> !EqualFold(h[j].key, name)
    decreases |h|
  {
    if |h| == 0 then None
    else if EqualFold(h[0].key, name) then Some(0)
    else
      match Find(h[1..], name)
      case None => None
      case Some(i) => Some(i + 1)
  }

  /** `http.Header.Get`: the first value recorded under `name`, or "" when there is none. */
  function Get(h: Header, name: Bytes): (v: Bytes)
    ensures (forall j :: 0 <= j < |h| ==> !EqualFold(h[j].key, name)) ==> v == []
    ensures forall i :: 0 <= i < |h| && EqualFold(h[i].key, name) && Unmatched(h, name, i) ==> v == h[i].value
  {
    match Find(h, name)
    case None => []
    case Some(i) => h[i].value
  }

  /** No field before index i has a name matching `name`. */
  predicate Unmatched(h: Header, name: Bytes, i: int)
    requires 0 <= i <= |h|
  {
    forall j :: 0 <= j < i ==> !EqualFold(h[j].key, name)
  }

  /** Fields appended after a matching one never change what `Get` returns. */
  lemma GetFirstWins(h: Header, more: Header, name: Bytes)
    requires exists i :: 0 <= i < |h| && EqualFold(h[i].key, name)
    ensures Get(h + more, name) == Get(h, name)
  {
    var i := Find(h, name).value;
    assert (h + more)[i] == h[i];
    assert forall j :: 0 <= j < i ==> (h + more)[j] == h[j];
  }

  /** Two names that differ only in ASCII case look up the same value. */
  lemma GetIgnoresCase(h: Header, a: Bytes, b: Bytes)
    requires EqualFold(a, b)
    ensures Get(h, a) == Get(h, b)
  {
    assert forall k: Bytes :: EqualFold(k, a) <==> EqualFold(k, b);
  }

  // ---------------------------------------------------------------------
  // Header lines
  // ---------------------------------------------------------------------

  predicate IsBlank(c: byte) {
    c == ' ' || c == '\t'
  }

  /** A field name the parser accepts. */
  predicate ValidKey(k: Bytes) {
    |k| >= 1 && forall i :: 0 <= i < |k| ==> !IsBlank(k[i]) && k[i] != ':' && k[i] != CR && k[i] != LF
  }

  /** A field value that survives trimming and fits on one line. */
  predicate ValidValue(v: Bytes) {
    NoLineBreak(v) && (|v| == 0 || (!IsBlank(v[0]) && !IsBlank(v[|v| - 1])))
  }

  /** Drops leading spaces and tabs. */
  function TrimLeft(s: Bytes): (t: Bytes)
    ensures |t| <= |s| && t == s[|s| - |t|..]
    ensures |t| == 0 || !IsBlank(t[0])
    ensures forall i :: 0 <= i < |s| - |t| ==> IsBlank(s[i])
    decreases |s|
  {
    if |s| > 0 && IsBlank(s[0]) then TrimLeft(s[1..]) else s
  }

  /** Drops trailing spaces and tabs. */
  function TrimRight(s: Bytes): (t: Bytes)
    ensures |t| <= |s| && t == s[..|t|]
    ensures |t| == 0 || !IsBlank(t[|t| - 1])
    ensures forall i :: |t| <= i < |s| ==> IsBlank(s[i])
    decreases |s|
  {
    if |s| > 0 && IsBlank(s[|s| - 1]) then TrimRight(s[..|s| - 1]) else s
  }

  function Trim(s: Bytes): Bytes {
    TrimRight(TrimLeft(s))
  }

  /** Index of the first colon in s. */
  function IndexColon(s: Bytes): (r: Option<nat>)
    ensures r.Some? ==> r.value < |s| && s[r.value] == ':'
    ensures r.Some? ==> forall j :: 0 <= j < r.value ==> s[j] != ':'
    ensures r.None? ==> forall j :: 0 <= j < |s| ==> s[j] != ':'
    decreases |s|
  {
    if |s| == 0 then None
    else if s[0] == ':' then Some(0)
    else
      match IndexColon(s[1..])
      case None => None
      case Some(i) => Some(i + 1)
  }

  /** One `Name: value` line, or None when the line is not a header line. */
  function ParseField(line: Bytes): (f: Option<Field>)
    ensures f.Some? ==> ValidKey(f.value.key)
  {
    match IndexColon(line)
    case None => None
    case Some(i) =>
      var key := line[..i];
      if ValidKey(key) then
        assert line[..i + 1] == key + ":";
        Some(Field(key, Trim(line[i + 1..])))
      else None
  }

  /** The wire form of a field, `Name: value`. */
  function FieldLine(f: Field): Bytes {
    f.key + ": " + f.value
  }

  function FieldLines(h: Header): (lines: seq<Bytes>)
    ensures |lines| == |h|
    ensures forall i :: 0 <= i < |h| ==> lines[i] == FieldLine(h[i])
    decreases |h|
  {
    if |h| == 0 then [] else [FieldLine(h[0])] + FieldLines(h[1..])
  }

  /** A header that can be written out and read back unchanged. */
  predicate WellFormed(h: Header) {
    forall i :: 0 <= i < |h| ==> ValidKey(h[i].key) && ValidValue(h[i].value)
  }

  /** Writing a well-formed field and parsing the line gives the field back. */
  lemma ParseFieldLine(f: Field)
    requires ValidKey(f.key) && ValidValue(f.value)
    ensures ParseField(FieldLine(f)) == Some(f)
  {
    var line := FieldLine(f);
    assert line[|f.key|] == ':';
    assert forall j :: 0 <= j < |f.key| ==> line[j] == f.key[j];
    assert IndexColon(line) == Some(|f.key|);
    assert line[..|f.key|] == f.key;
    var rest := line[|f.key| + 1..];
    assert rest == " " + f.value;
    assert TrimLeft(rest) == f.value by {
      if |f.value| == 0 {
        assert TrimLeft(rest) == TrimLeft([]);
      } else {
        assert rest[1..] == f.value;
      }
    }
  }

  /** A written field line never contains a line break. */
  lemma FieldLineNoBreak(f: Field)
    requires ValidKey(f.key) && ValidValue(f.value)
    ensures NoLineBreak(FieldLine(f))
  {
    var line := FieldLine(f);
    forall i | 0 <= i < |line| ensures line[i] != CR && line[i] != LF {
      if i < |f.key| {
        assert line[i] == f.key[i];
      } else if i >= |f.key| + 2 {
        assert line[i] == f.value[i - |f.key| - 2];
      }
    }
  }

  // ---------------------------------------------------------------------
  // The header block
  // ---------------------------------------------------------------------

  /**
   Reads header lines up to the first empty line. On success the header holds
   one field per line before that empty line, in order.
   */
  function ReadFields(lines: seq<Bytes>): (r: Result<Header, HeaderError>)
    ensures r.Success? ==> |r.value| < |lines| && lines[|r.value|] == []
    ensures (forall i :: 0 <= i < |lines| ==> lines[i] != []) ==> r.Failure?
    decreases |lines|
  {
    if |lines| == 0 then Failure(UnexpectedEOF)
    else if lines[0] == [] then Success([])
    else
      match ParseField(lines[0])
      case None => Failure(MalformedHeaderLine)
      case Some(f) =>
        match ReadFields(lines[1..])
        case Failure(e) => Failure(e)
        case Success(h) => Success([f] + h)
  }

  /**
   A header block that reads is exactly the parse of its lines: every line
   before the empty line that ends it is non-empty and parses to the field at
   the same position. So the empty line is the first one, and any line before
   it that is not `Name: value` makes the read fail.
   */
  lemma {:induction false} ReadFieldsLines(lines: seq<Bytes>)
    requires ReadFields(lines).Success?
    ensures forall i :: 0 <= i < |ReadFields(lines).value| ==> LineReads(lines, ReadFields(lines).value, i)
    decreases |lines|
  {
    var h := ReadFields(lines).value;
    if lines[0] != [] {
      var t := ReadFields(lines[1..]).value;
      ReadFieldsLines(lines[1..]);
      assert h == [h[0]] + t;
      forall i | 0 <= i < |h|
        ensures LineReads(lines, h, i)
      {
        if i > 0 {
          assert LineReads(lines[1..], t, i - 1);
          assert lines[1..][i - 1] == lines[i];
        }
      }
    }
  }

  /** A line that is not `Name: value`, before any empty line, makes the read fail. */
  lemma ReadFieldsRejects(lines: seq<Bytes>, k: nat)
    requires k < |lines| && lines[k] != [] && ParseField(lines[k]).None?
    requires forall i :: 0 <= i < k ==> lines[i] != []
    ensures ReadFields(lines).Failure?
  {
    ReadFieldsRejectsFrom(lines, 0, k);
    assert lines[0..] == lines;
  }

  lemma {:induction false} ReadFieldsRejectsFrom(lines: seq<Bytes>, j: nat, k: nat)
    requires j <= k < |lines| && lines[k] != [] && ParseField(lines[k]).None?
    requires forall i :: j <= i < k ==> lines[i] != []
    ensures ReadFields(lines[j..]).Failure?
    decreases k - j
  {
    var ls := lines[j..];
    assert ls[0] == lines[j];
    if j < k {
      ReadFieldsRejectsFrom(lines, j + 1, k);
      assert ls[1..] == lines[j + 1..];
    }
  }

  /** Line i of a block that reads is the written form of field i. */
  lemma ReadFieldsLineAt(lines: seq<Bytes>, i: nat)
    requires ReadFields(lines).Success? && i < |ReadFields(lines).value|
    ensures lines[i] != [] && ParseField(lines[i]) == Some(ReadFields(lines).value[i])
  {
    ReadFieldsLines(lines);
    assert LineReads(lines, ReadFields(lines).value, i);
  }

  /** `http.ReadResponse` as far as the headers go: status line, then the header block. */
  function ReadResponse(data: Bytes): (r: Result<Header, HeaderError>)
    ensures r.Success? ==> HasPrefix(Split(data)[0], StatusPrefix)
  {
    var lines := Split(data);
    if !HasPrefix(lines[0], StatusPrefix) then Failure(MalformedStatusLine)
    else ReadFields(lines[1..])
  }

  /**
   Lines that each parse to the next field of h, followed by an empty line
   (and anything after it), read back as exactly h.
   */
  lemma ReadFieldsParsed(h: Header, lines: seq<Bytes>)
    requires |h| < |lines| && lines[|h|] == []
    requires forall i :: 0 <= i < |h| ==> LineReads(lines, h, i)
    ensures ReadFields(lines) == Success(h)
  {
    ReadFieldsFrom(h, lines, 0);
    assert lines[0..] == lines && h[0..] == h;
  }

  /** Line i is a non-empty header line that parses to field i of h. */
  predicate LineReads(lines: seq<Bytes>, h: Header, i: nat)
    requires i < |h| && i < |lines|
  {
    lines[i] != [] && ParseField(lines[i]) == Some(h[i])
  }

  /** ReadFieldsParsed for the lines from index k on. */
  lemma {:induction false} ReadFieldsFrom(h: Header, lines: seq<Bytes>, k: nat)
    requires k <= |h| < |lines| && lines[|h|] == []
    requires forall i :: k <= i < |h| ==> LineReads(lines, h, i)
    ensures ReadFields(lines[k..]) == Success(h[k..])
    decreases |h| - k
  {
    if k < |h| {
      ReadFieldsFrom(h, lines, k + 1);
      assert LineReads(lines, h, k);
      var ls := lines[k..];
      assert ls[1..] == lines[k + 1..];
      assert ls[0] == lines[k];
      ReadFieldsStep(ls, h[k], h[k + 1..]);
      HeadThenRest(h, k);
      assert ReadFields(ls) == Success(h[k..]);
    } else {
      var ls := lines[k..];
      assert |ls| >= 1 && ls[0] == lines[|h|] == [];
      assert ReadFields(ls) == Success([]);
      assert h[k..] == [];
    }
  }

  /** The field at k followed by those after it are the fields from k on. */
  lemma HeadThenRest(h: Header, k: nat)
    requires k < |h|
    ensures [h[k]] + h[k + 1..] == h[k..]
  {
  }

  /** One header line in front of a header block that reads as h reads as that field then h. */
  lemma ReadFieldsStep(lines: seq<Bytes>, f: Field, h: Header)
    requires |lines| >= 1 && lines[0] != [] && ParseField(lines[0]) == Some(f)
    requires ReadFields(lines[1..]) == Success(h)
    ensures ReadFields(lines) == Success([f] + h)
  {
  }

  /**
   Lines that are the written forms of a well-formed header, followed by an
   empty line (and anything after it), read back as exactly that header.
   */
  lemma ReadFieldsRendered(h: Header, lines: seq<Bytes>)
    requires WellFormed(h)
    requires |h| < |lines| && lines[|h|] == []
    requires forall i :: 0 <= i < |h| ==> lines[i] == FieldLine(h[i])
    ensures ReadFields(lines) == Success(h)
  {
    forall i | 0 <= i < |h| ensures LineReads(lines, h, i) {
      ParseFieldLine(h[i]);
    }
    ReadFieldsParsed(h, lines);
  }
}
