/**
 The service registry of devices/ssdp.go (`deviceMap`), the per-datagram step
 of the background listener that feeds it, and the two search entry points
 that read it. Sockets, sends and the external discovery client are outside
 the model: their outcomes arrive as parameters.
 */
module Registry {
  import opened Wrappers
  import opened ByteStrings
  import opened HttpHeader
  import opened Services
  import opened Ssdp

  /** `deviceMap`: unique service name to the latest record seen under it. */
  type DeviceMap = map<Bytes, Service>

  /** Every entry is filed under its own USN and carries a service type. */
  predicate KeyedByUsn(reg: DeviceMap) {
    forall k :: k in reg ==> reg[k].usn == k && reg[k].serviceType != []
  }

  /**
   The listener's upsert: a record with an empty type is dropped; otherwise
   it is filed under its USN, replacing any earlier record there wholesale,
   and every other entry stays as it was.
   */
  function Upsert(reg: DeviceMap, s: Service): (r: DeviceMap)
    ensures s.serviceType == [] ==> r == reg
    ensures s.serviceType != [] ==> r.Keys == reg.Keys + {s.usn} && r[s.usn] == s
    ensures forall k :: k in reg && k != s.usn ==> k in r && r[k] == reg[k]
    ensures KeyedByUsn(reg) ==> KeyedByUsn(r)
  {
    if s.serviceType != [] then reg[s.usn := s] else reg
  }

  /** Filing the same record twice is the same as filing it once. */
  lemma UpsertIdempotent(reg: DeviceMap, s: Service)
    ensures Upsert(Upsert(reg, s), s) == Upsert(reg, s)
  {
  }

  /** Last write wins: a typed record hides every earlier record with its USN. */
  lemma UpsertLastWriteWins(reg: DeviceMap, a: Service, b: Service)
    requires a.usn == b.usn && b.serviceType != []
    ensures Upsert(Upsert(reg, a), b) == Upsert(reg, b)
  {
  }

  /**
   After a typed record is filed, it is the only value in the registry with
   its USN: no field of an older version survives anywhere.
   */
  lemma UpsertReplacesWholesale(reg: DeviceMap, s: Service)
    requires KeyedByUsn(reg) && s.serviceType != []
    ensures forall v :: v in Upsert(reg, s).Values && v.usn == s.usn ==> v == s
  {
    var r := Upsert(reg, s);
    forall v | v in r.Values && v.usn == s.usn ensures v == s {
      var k :| k in r && r[k] == v;
    }
  }

  // ---------------------------------------------------------------------
  // The listener
  // ---------------------------------------------------------------------

  /** What one `ReadFrom` call yields: a datagram and its sender, or an error. */
  datatype Receipt = Received(from: Bytes, payload: Bytes) | ReceiveError

  /**
   One turn of the listener loop as intended: a receive error or an
   unparseable datagram leaves the registry alone; a parsed record is upserted.
   */
  function ListenerStep(reg: DeviceMap, d: Receipt): (r: DeviceMap)
    ensures KeyedByUsn(reg) ==> KeyedByUsn(r)
    ensures d.ReceiveError? ==> r == reg
    ensures d.Received? && ParseService(d.from, d.payload).Failure? ==> r == reg
  {
    match d
    case ReceiveError => reg
    case Received(from, payload) =>
      match ParseService(from, payload)
      case Failure(_) => reg
      case Success(s) => Upsert(reg, s)
  }

  /** A datagram that parses into a typed record files that record under its USN. */
  lemma StepFiles(reg: DeviceMap, from: Bytes, payload: Bytes, s: Service)
    requires ParseService(from, payload) == Success(s) && s.serviceType != []
    ensures ListenerStep(reg, Received(from, payload)) == reg[s.usn := s]
  {
  }

  /** The listener fed a sequence of receipts in arrival order. */
  function Listen(reg: DeviceMap, ds: seq<Receipt>): (r: DeviceMap)
    ensures KeyedByUsn(reg) ==> KeyedByUsn(r)
    decreases |ds|
  {
    if |ds| == 0 then reg else Listen(ListenerStep(reg, ds[0]), ds[1..])
  }

  lemma {:induction false} ListenAppend(reg: DeviceMap, a: seq<Receipt>, b: seq<Receipt>)
    ensures Listen(reg, a + b) == Listen(Listen(reg, a), b)
    decreases |a|
  {
    if |a| > 0 {
      assert (a + b)[0] == a[0];
      assert (a + b)[1..] == a[1..] + b;
      ListenAppend(ListenerStep(reg, a[0]), a[1..], b);
    } else {
      assert a + b == b;
    }
  }

  /**
   A bad receipt anywhere in the stream is as if it never arrived: it neither
   stops the listener nor disturbs what later datagrams do.
   */
  lemma BadReceiptIsSkipped(reg: DeviceMap, before: seq<Receipt>, bad: Receipt, after: seq<Receipt>)
    requires bad.ReceiveError? || ParseService(bad.from, bad.payload).Failure?
    ensures Listen(reg, before + [bad] + after) == Listen(reg, before + after)
  {
    ListenAppend(reg, before + [bad], after);
    ListenAppend(reg, before, [bad]);
    ListenAppend(reg, before, after);
    var mid := Listen(reg, before);
    assert Listen(mid, [bad]) == Listen(ListenerStep(mid, bad), []);
  }

  /**
   The socket is a member of the group it sends to, so the listener hears its
   own M-SEARCH queries. They parse (the first line is replaced like any
   other), but carry no NT header, so they never enter the registry.
   */
  lemma OwnQueryIgnored(reg: DeviceMap, from: Bytes, searchType: Bytes, waitSec: int)
    requires ValidValue(searchType)
    ensures ParseService(from, BuildSearch(searchType, waitSec)).Success?
    ensures ListenerStep(reg, Received(from, BuildSearch(searchType, waitSec))) == reg
  {
    var fs := SearchFields(searchType, waitSec);
    BuildSearchIsRendered(searchType, waitSec);
    SearchFieldsWellFormed(searchType, waitSec);
    assert NoLineBreak(SearchLine);
    ParseRendered(from, SearchLine, fs, true);
    QueryHasNoNt(searchType, waitSec);
  }

  /** None of the four query fields is named NT. */
  lemma QueryHasNoNt(searchType: Bytes, waitSec: int)
    ensures Get(SearchFields(searchType, waitSec), NtKey) == []
  {
    var fs := SearchFields(searchType, waitSec);
    forall j | 0 <= j < |fs| ensures !EqualFold(fs[j].key, NtKey) {
      NotNt(fs[j].key);
    }
  }

  /** HOST, MAN, MX and ST all differ from NT whatever the case. */
  lemma NotNt(k: Bytes)
    requires k == "HOST" || k == "MAN" || k == "MX" || k == "ST"
    ensures !EqualFold(k, NtKey)
  {
    assert Lower(k[0]) != Lower(NtKey[0]);
  }

  // ---------------------------------------------------------------------
  // Failure handling as the Go loop is written
  // ---------------------------------------------------------------------

  datatype Panic = NilPointerDereference

  /**
   One turn of the listener loop as devices/ssdp.go writes it. On a receive
   error the sender address is nil and `addr.String()` panics; on a parse
   error `srv` is nil and `srv.Type` panics. Where it does not panic it agrees
   with the intended step.
   */
  function ListenerStepAsWritten(reg: DeviceMap, d: Receipt): (r: Result<DeviceMap, Panic>)
    ensures r.Failure? <==> d.ReceiveError? || ParseService(d.from, d.payload).Failure?
    ensures r.Success? ==> r.value == ListenerStep(reg, d)
  {
    match d
    case ReceiveError => Failure(NilPointerDereference)
    case Received(from, payload) =>
      match ParseService(from, payload)
      case Failure(_) => Failure(NilPointerDereference)
      case Success(s) => Success(Upsert(reg, s))
  }

  /**
   A datagram whose second line is non-empty and has no colon fails to parse,
   whatever lines follow it and whether or not it ends with an empty line.
   */
  lemma ParseRejectsLineWithoutColon(from: Bytes, first: Bytes, tail: seq<Bytes>)
    requires NoLineBreak(first) && forall j :: 0 <= j < |tail| ==> NoLineBreak(tail[j])
    requires |tail| >= 1 && tail[0] != []
    requires forall i :: 0 <= i < |tail[0]| ==> tail[0][i] != ':'
    ensures ParseService(from, Join([first] + tail)).Failure?
  {
    var data := Join([first] + tail);
    LinesNoBreak(first, tail);
    ReplaceJoined(first, tail);
    TerminatedBadLine(tail);
    ParseFailsWithResponse(from, data);
  }

  /** Whether or not it gets a terminator, a status line then a colon-less line does not read. */
  lemma TerminatedBadLine(tail: seq<Bytes>)
    requires forall j :: 0 <= j < |tail| ==> NoLineBreak(tail[j])
    requires |tail| >= 1 && tail[0] != []
    requires forall i :: 0 <= i < |tail[0]| ==> tail[0][i] != ':'
    ensures ReadResponse(Terminate(Join([StatusLine] + tail))).Failure?
  {
    if HasSuffix(Join([StatusLine] + tail), EndOfHeader) {
      StatusThenBadLine(tail);
    } else {
      JoinTerminated([StatusLine] + tail);
      TerminatedTail(tail);
      StatusThenBadLine(tail + [[], []]);
    }
  }

  /** When the normalised, terminated text does not read, parsing fails. */
  lemma ParseFailsWithResponse(from: Bytes, data: Bytes)
    requires ReadResponse(Terminate(ReplaceFirstLine(data))).Failure?
    ensures ParseService(from, data).Failure?
  {
    ReplacedHasHTTPPrefix(data);
  }

  /** A line-break-free head on line-break-free lines gives line-break-free lines. */
  lemma LinesNoBreak(first: Bytes, tail: seq<Bytes>)
    requires NoLineBreak(first) && forall j :: 0 <= j < |tail| ==> NoLineBreak(tail[j])
    ensures forall k :: 0 <= k < |[first] + tail| ==> NoLineBreak(([first] + tail)[k])
  {
    forall k | 0 <= k < |[first] + tail|
      ensures NoLineBreak(([first] + tail)[k])
    {
      if k > 0 {
        assert ([first] + tail)[k] == tail[k - 1];
      }
    }
  }

  lemma TerminatedTail(tail: seq<Bytes>)
    ensures [StatusLine] + tail + [[], []] == [StatusLine] + (tail + [[], []])
  {
  }

  /** A status line followed by a non-empty line without a colon does not read as a response. */
  lemma StatusThenBadLine(rest: seq<Bytes>)
    requires forall j :: 0 <= j < |rest| ==> NoLineBreak(rest[j])
    requires |rest| >= 1 && rest[0] != []
    requires forall i :: 0 <= i < |rest[0]| ==> rest[0][i] != ':'
    ensures ReadResponse(Join([StatusLine] + rest)).Failure?
  {
    var lines := [StatusLine] + rest;
    assert NoLineBreak(StatusLine);
    LinesNoBreak(StatusLine, rest);
    SplitJoin(lines);
    assert lines[0][..5] == StatusPrefix;
    assert lines[1..] == rest;
    assert IndexColon(rest[0]).None?;
    ReadFieldsRejects(rest, 0);
  }

  /**
   The panic, exhibited: a datagram whose second line is not a header line
   crashes the Go loop, while the intended step leaves the registry as it was.
   */
  lemma MalformedDatagramPanics(reg: DeviceMap, from: Bytes)
    ensures ListenerStepAsWritten(reg, Received(from, Join(["NOTIFY * HTTP/1.1", "garbage", [], []])))
      == Failure(NilPointerDereference)
    ensures ListenerStep(reg, Received(from, Join(["NOTIFY * HTTP/1.1", "garbage", [], []]))) == reg
  {
    ParseRejectsLineWithoutColon(from, "NOTIFY * HTTP/1.1", ["garbage", [], []]);
    assert ["NOTIFY * HTTP/1.1"] + ["garbage", [], []] == ["NOTIFY * HTTP/1.1", "garbage", [], []];
  }

  /** A failed receive crashes the Go loop; the intended step ignores it. */
  lemma ReceiveErrorPanics(reg: DeviceMap)
    ensures ListenerStepAsWritten(reg, ReceiveError) == Failure(NilPointerDereference)
    ensures ListenerStep(reg, ReceiveError) == reg
  {
  }
}

/**
 A worked advertisement: one NOTIFY datagram from 10.0.0.5:1900 lands in an
 empty registry under its USN, and its max-age reads as 1800.
 */
module AdvertisementExample {
  import opened Wrappers
  import opened ByteStrings
  import opened HttpHeader
  import opened MaxAgeRegex
  import opened Services
  import opened Ssdp
  import opened Registry

  const Usn: Bytes := "uuid:abc123::urn:test:service:1"

  function NotifyHeader(): Header {
    [ Field("NT", "urn:test:service:1"),
      Field("USN", Usn),
      Field("LOCATION", "http://10.0.0.5:80/desc.xml"),
      Field("SERVER", "test/1.0"),
      Field("CACHE-CONTROL", "max-age=1800") ]
  }

  lemma NtFieldValid() ensures ValidKey("NT") && ValidValue("urn:test:service:1") {}
  lemma UsnFieldValid() ensures ValidKey("USN") && ValidValue(Usn) {}
  lemma LocationFieldValid() ensures ValidKey("LOCATION") && ValidValue("http://10.0.0.5:80/desc.xml") {}
  lemma ServerFieldValid() ensures ValidKey("SERVER") && ValidValue("test/1.0") {}
  lemma CacheControlFieldValid() ensures ValidKey("CACHE-CONTROL") && ValidValue("max-age=1800") {}

  lemma NotifyHeaderWellFormed()
    ensures WellFormed(NotifyHeader())
  {
    NtFieldValid();
    UsnFieldValid();
    LocationFieldValid();
    ServerFieldValid();
    CacheControlFieldValid();
    var h := NotifyHeader();
    forall i | 0 <= i < |h| ensures ValidKey(h[i].key) && ValidValue(h[i].value) {
    }
  }

  /** The record's fields are the header's NT, USN, LOCATION and SERVER values. */
  lemma NotifyLookups()
    ensures Get(NotifyHeader(), NtKey) == "urn:test:service:1"
    ensures Get(NotifyHeader(), UsnKey) == Usn
    ensures Get(NotifyHeader(), LocationKey) == "http://10.0.0.5:80/desc.xml"
    ensures Get(NotifyHeader(), ServerKey) == "test/1.0"
    ensures Get(NotifyHeader(), CacheControl) == "max-age=1800"
  {
    var h := NotifyHeader();
    assert EqualFold(h[0].key, NtKey);
    assert !EqualFold(h[0].key, UsnKey) && EqualFold(h[1].key, UsnKey);
    assert !EqualFold(h[0].key, LocationKey) && !EqualFold(h[1].key, LocationKey) && EqualFold(h[2].key, LocationKey);
    assert !EqualFold(h[0].key, ServerKey) && !EqualFold(h[1].key, ServerKey) && !EqualFold(h[2].key, ServerKey);
    assert EqualFold(h[3].key, ServerKey);
    assert forall j :: 0 <= j < 4 ==> |h[j].key| != |CacheControl|;
    assert EqualFold(h[4].key, CacheControl);
  }

  /** The record a NOTIFY with this header parses into. */
  function NotifyRecord(from: Bytes): Service {
    Service(from, "urn:test:service:1", Usn, "http://10.0.0.5:80/desc.xml", "test/1.0", NotifyHeader(), None)
  }

  /** A NOTIFY with this header, from any sender and with any first line, parses into that record. */
  lemma NotifyParses(from: Bytes, first: Bytes)
    requires NoLineBreak(first)
    ensures ParseService(from, Datagram(first, NotifyHeader(), true)) == Success(NotifyRecord(from))
  {
    NotifyHeaderWellFormed();
    ParseRendered(from, first, NotifyHeader(), true);
    NotifyLookups();
  }

  /**
   The whole path: the NOTIFY lands in an empty registry as the only entry,
   filed under its USN, and the record reports a max-age of 1800.
   */
  lemma NotifyIsRegistered(from: Bytes, first: Bytes)
    requires NoLineBreak(first)
    ensures ListenerStep(map[], Received(from, Datagram(first, NotifyHeader(), true))) == map[Usn := NotifyRecord(from)]
    ensures MaxAgeOf(NotifyRecord(from)).0 == 1800
  {
    NotifyParses(from, first);
    var s := NotifyRecord(from);
    assert s.serviceType != [] && s.usn == Usn;
    StepFiles(map[], from, Datagram(first, NotifyHeader(), true), s);
    NotifyMaxAge(s);
  }

  /** A fresh record with this header reports a max-age of 1800. */
  lemma NotifyMaxAge(s: Service)
    requires s.rawHeader == NotifyHeader() && s.maxAge.None?
    ensures MaxAgeOf(s).0 == 1800
  {
    NotifyLookups();
    Extract1800(NoMaxAge);
  }
}
