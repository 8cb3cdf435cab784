/**
 The discovered-service record of devices/service.go, its lazily computed
 max-age, and its header accessor.
 */
module Services {
  import opened Wrappers
  import opened ByteStrings
  import opened HttpHeader
  import opened MaxAgeRegex

  /**
   One observed advertisement. `origin` is the sender's `ip:port`;
   `serviceType`, `usn`, `location` and `server` are copied out of the
   header; `maxAge` is the memo slot Go keeps as a nil-able `*int`.
   */
  datatype Service = Service(
    origin: Bytes,
    serviceType: Bytes,
    usn: Bytes,
    location: Bytes,
    server: Bytes,
    rawHeader: Header,
    maxAge: Option<int>)

  const CacheControl: Bytes := "CACHE-CONTROL"

  /** What `MaxAge` reports when no usable max-age token is present. */
  const NoMaxAge: int := -1

  /** A cached max-age is either the sentinel or a number ParseInt accepted. */
  predicate CacheInRange(s: Service) {
    s.maxAge.Some? ==> s.maxAge.value == NoMaxAge || 0 <= s.maxAge.value <= MaxInt32
  }

  /**
   `(*Service).MaxAge`: the first call computes the value from the
   CACHE-CONTROL header and stores it; later calls return the stored value.
   The result pairs the value with the record as it is after the call.
   */
  function MaxAgeOf(s: Service): (res: (int, Service))
    ensures res.1 == s.(maxAge := Some(res.0))
    ensures s.maxAge.Some? ==> res.0 == s.maxAge.value
    ensures s.maxAge.None? ==> res.0 == ExtractMaxAge(Get(s.rawHeader, CacheControl), NoMaxAge)
    ensures CacheInRange(s) ==> CacheInRange(res.1)
  {
    match s.maxAge
    case Some(v) => (v, s)
    case None =>
      var v := ExtractMaxAge(Get(s.rawHeader, CacheControl), NoMaxAge);
      (v, s.(maxAge := Some(v)))
  }

  /**
   Memoisation: after one call, replacing the header set (the map `Header()`
   hands out can be mutated by callers) does not change what later calls
   return, and neither does calling again.
   */
  lemma MaxAgeMemoised(s: Service, h: Header)
    ensures var (v, s1) := MaxAgeOf(s);
      && MaxAgeOf(s1) == (v, s1)
      && MaxAgeOf(s1.(rawHeader := h)).0 == v
  {
  }

  /** A record without a CACHE-CONTROL header reports -1 on its first call. */
  lemma MaxAgeWithoutCacheControl(s: Service)
    requires s.maxAge.None?
    requires forall i :: 0 <= i < |s.rawHeader| ==> !EqualFold(s.rawHeader[i].key, CacheControl)
    ensures MaxAgeOf(s).0 == NoMaxAge
  {
  }

  /**
   The first call on a record reads the first max-age token of its
   CACHE-CONTROL value: the token's number when it fits in 32 bits, and -1
   when it does not, whatever follows the token.
   */
  lemma FirstCallReadsToken(s: Service, p: nat, q: nat, r: nat, e: nat)
    requires s.maxAge.None?
    requires MatchSpan(Get(s.rawHeader, CacheControl), p, q, r, e)
    requires forall k :: 0 <= k < p ==> MatchAt(Get(s.rawHeader, CacheControl), k).None?
    ensures AllDigits(Get(s.rawHeader, CacheControl)[r..e])
    ensures DigitsValue(Get(s.rawHeader, CacheControl)[r..e]) <= MaxInt32 ==>
      MaxAgeOf(s).0 == DigitsValue(Get(s.rawHeader, CacheControl)[r..e])
    ensures DigitsValue(Get(s.rawHeader, CacheControl)[r..e]) > MaxInt32 ==> MaxAgeOf(s).0 == NoMaxAge
  {
    ExtractFirstMatch(Get(s.rawHeader, CacheControl), p, q, r, e, NoMaxAge);
  }

  /** A first call on a record whose CACHE-CONTROL value holds no max-age token reports -1. */
  lemma FirstCallWithoutToken(s: Service)
    requires s.maxAge.None?
    requires forall p :: 0 <= p <= |Get(s.rawHeader, CacheControl)| ==> MatchAt(Get(s.rawHeader, CacheControl), p).None?
    ensures MaxAgeOf(s).0 == NoMaxAge
  {
  }

  /** `(*Service).Header`: the full header set, unchanged by any max-age computation. */
  function HeaderOf(s: Service): (h: Header)
    ensures h == s.rawHeader
    ensures h == MaxAgeOf(s).1.rawHeader
  {
    s.rawHeader
  }

  /**
   A service held by reference, as Go's pointer receivers see it. The memo
   slot is the record's `maxAge` field.
   */
  class ServiceRef {
    var record: Service

    constructor(s: Service)
      ensures record == s
    {
      record := s;
    }

    method MaxAge() returns (v: int)
      modifies this
      ensures (v, record) == MaxAgeOf(old(record))
      ensures old(record.maxAge).Some? ==> v == old(record.maxAge.value) && record == old(record)
    {
      var res := MaxAgeOf(record);
      v := res.0;
      record := res.1;
    }

    method Header() returns (h: Header)
      ensures h == record.rawHeader
    {
      h := record.rawHeader;
    }
  }
}
