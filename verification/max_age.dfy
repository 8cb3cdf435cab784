/**
 The max-age extractor of devices/service.go: the regular expression
 `\bmax-age\s*=\s*(\d+)\b` written out as a scanner, its first match taken,
 and the captured digits read as a 32-bit signed integer with a fallback.

 Go's regexp package (RE2 syntax) gives `\b` as the ASCII word boundary
 (word bytes are letters, digits and underscore), `\s` as the bytes tab,
 line feed, form feed, carriage return and space, and `\d` as 0-9. The
 keyword is matched case-sensitively.
 */
module MaxAgeRegex {
  import opened Wrappers
  import opened ByteStrings

  const Keyword: Bytes := "max-age"

  /** The largest value `strconv.ParseInt(_, 10, 32)` accepts. */
  const MaxInt32: int := 0x7fff_ffff

  predicate IsWordByte(c: byte) {
    IsDigit(c) || 'A' <= c <= 'Z' || 'a' <= c <= 'z' || c == '_'
  }

  /** RE2's `\s`: tab, line feed, form feed, carriage return, space. */
  predicate IsSpace(c: byte) {
    c == '\t' || c == '\n' || c as int == 12 || c == '\r' || c == ' '
  }

  predicate AllSpaces(w: Bytes) {
    forall i :: 0 <= i < |w| ==> IsSpace(w[i])
  }

  /** `\b` at position i: exactly one of the bytes either side of i is a word byte. */
  predicate WordBoundaryAt(s: Bytes, i: int)
    requires 0 <= i <= |s|
  {
    (i > 0 && IsWordByte(s[i - 1])) != (i < |s| && IsWordByte(s[i]))
  }

  /** The keyword, byte for byte and case-sensitively, at position p. */
  predicate KeywordAt(s: Bytes, p: nat) {
    p + |Keyword| <= |s| && s[p..p + |Keyword|] == Keyword
  }

  /** `\s*`, greedy: the end of the run of spaces starting at i. */
  function SkipSpaces(s: Bytes, i: nat): (j: nat)
    requires i <= |s|
    ensures i <= j <= |s| && AllSpaces(s[i..j])
    ensures j == |s| || !IsSpace(s[j])
    decreases |s| - i
  {
    if i < |s| && IsSpace(s[i]) then
      var j := SkipSpaces(s, i + 1);
      assert s[i..j] == [s[i]] + s[i + 1..j];
      j
    else i
  }

  /** `\d*`, greedy: the end of the run of digits starting at i. */
  function SkipDigits(s: Bytes, i: nat): (j: nat)
    requires i <= |s|
    ensures i <= j <= |s| && AllDigits(s[i..j])
    ensures j == |s| || !IsDigit(s[j])
    decreases |s| - i
  {
    if i < |s| && IsDigit(s[i]) then
      var j := SkipDigits(s, i + 1);
      assert s[i..j] == [s[i]] + s[i + 1..j];
      j
    else i
  }

  /**
   The pattern tried at start position p: the captured digits when it matches
   there, None otherwise. At a fixed start the pattern has only one way to
   match, because each run is taken greedily and the byte that ends it ('=',
   a digit, a non-word byte) cannot belong to the run.
   */
  function MatchAt(s: Bytes, p: nat): (m: Option<Bytes>)
    requires p <= |s|
    ensures m.Some? ==> |m.value| >= 1 && AllDigits(m.value)
  {
    if !WordBoundaryAt(s, p) || !KeywordAt(s, p) then None
    else
      var q := SkipSpaces(s, p + |Keyword|);
      if q == |s| || s[q] != '=' then None
      else
        var r := SkipSpaces(s, q + 1);
        var e := SkipDigits(s, r);
        if e == r || !WordBoundaryAt(s, e) then None
        else Some(s[r..e])
  }

  /**
   The declarative reading of the pattern, by positions: s holds the keyword
   at p, spaces on [p+7, q), '=' at q, spaces on (q, r), and a non-empty run
   of digits on [r, e), with a word boundary at p and at e. Nothing here says
   the runs are maximal; that follows.
   */
  ghost predicate MatchSpan(s: Bytes, p: nat, q: nat, r: nat, e: nat) {
    && p + |Keyword| <= q < r < e <= |s|
    && KeywordAt(s, p)
    && AllSpaces(s[p + |Keyword|..q])
    && s[q] == '='
    && AllSpaces(s[q + 1..r])
    && AllDigits(s[r..e])
    && WordBoundaryAt(s, p) && WordBoundaryAt(s, e)
  }

  /** Every match the scanner reports is a match of the pattern. */
  lemma MatchAtSound(s: Bytes, p: nat)
    requires p <= |s| && MatchAt(s, p).Some?
    ensures exists q: nat, r: nat, e: nat :: MatchSpan(s, p, q, r, e) && MatchAt(s, p).value == s[r..e]
  {
    var q := SkipSpaces(s, p + |Keyword|);
    var r := SkipSpaces(s, q + 1);
    var e := SkipDigits(s, r);
    assert MatchSpan(s, p, q, r, e);
  }

  /** Every match of the pattern at p is found by the scanner, with the same capture. */
  lemma MatchAtComplete(s: Bytes, p: nat, q: nat, r: nat, e: nat)
    requires MatchSpan(s, p, q, r, e)
    ensures MatchAt(s, p) == Some(s[r..e])
  {
    ScanStops(s, p, q, r, e);
  }

  /** The three greedy runs of the scanner end exactly where the span says. */
  lemma ScanStops(s: Bytes, p: nat, q: nat, r: nat, e: nat)
    requires MatchSpan(s, p, q, r, e)
    ensures SkipSpaces(s, p + |Keyword|) == q
    ensures SkipSpaces(s, q + 1) == r
    ensures SkipDigits(s, r) == e
  {
    SpacesAt(s, p + |Keyword|, q);
    SkipSpacesStops(s, p + |Keyword|, q);
    SpacesAt(s, q + 1, r);
    SkipSpacesStops(s, q + 1, r);
    DigitsAt(s, r, e);
    assert IsWordByte(s[e - 1]);
    SkipDigitsStops(s, r, e);
  }

  lemma SpacesAt(s: Bytes, i: nat, j: nat)
    requires i <= j <= |s| && AllSpaces(s[i..j])
    ensures forall k :: i <= k < j ==> IsSpace(s[k])
  {
    assert forall k :: i <= k < j ==> s[k] == s[i..j][k - i];
  }

  lemma DigitsAt(s: Bytes, i: nat, j: nat)
    requires i <= j <= |s| && AllDigits(s[i..j])
    ensures forall k :: i <= k < j ==> IsDigit(s[k])
  {
    assert forall k :: i <= k < j ==> s[k] == s[i..j][k - i];
  }

  lemma {:induction false} SkipSpacesStops(s: Bytes, i: nat, j: nat)
    requires i <= j <= |s| && forall k :: i <= k < j ==> IsSpace(s[k])
    requires j == |s| || !IsSpace(s[j])
    ensures SkipSpaces(s, i) == j
    decreases j - i
  {
    if i < j {
      SkipSpacesStops(s, i + 1, j);
    }
  }

  lemma {:induction false} SkipDigitsStops(s: Bytes, i: nat, j: nat)
    requires i <= j <= |s| && forall k :: i <= k < j ==> IsDigit(s[k])
    requires j == |s| || !IsDigit(s[j])
    ensures SkipDigits(s, i) == j
    decreases j - i
  {
    if i < j {
      SkipDigitsStops(s, i + 1, j);
    }
  }

  /** The leftmost start position at or after p where the pattern matches. */
  function FirstMatch(s: Bytes, p: nat): (r: Option<nat>)
    requires p <= |s|
    ensures r.Some? ==> p <= r.value <= |s| && MatchAt(s, r.value).Some?
    ensures r.Some? ==> forall q :: p <= q < r.value ==> MatchAt(s, q).None?
    ensures r.None? ==> forall q :: p <= q <= |s| ==> MatchAt(s, q).None?
    decreases |s| - p
  {
    if MatchAt(s, p).Some? then Some(p)
    else if p == |s| then None
    else FirstMatch(s, p + 1)
  }

  /** `rxMaxAge.FindStringSubmatch(s)[1]`: the capture of the leftmost match. */
  function FindSubmatch(s: Bytes): (m: Option<Bytes>)
    ensures m.Some? ==> |m.value| >= 1 && AllDigits(m.value)
    ensures m.None? <==> forall p :: 0 <= p <= |s| ==> MatchAt(s, p).None?
    ensures m.Some? ==>
      exists p :: 0 <= p <= |s| && MatchAt(s, p) == m && forall q :: 0 <= q < p ==> MatchAt(s, q).None?
  {
    match FirstMatch(s, 0)
    case None => None
    case Some(p) => MatchAt(s, p)
  }

  /** `strconv.ParseInt(ds, 10, 32)` on a non-empty digit string: fails only on overflow. */
  function ParseInt32(ds: Bytes): (r: Option<int>)
    requires |ds| >= 1 && AllDigits(ds)
    ensures r.Some? <==> DigitsValue(ds) <= MaxInt32
    ensures r.Some? ==> r.value == DigitsValue(ds)
  {
    if DigitsValue(ds) <= MaxInt32 then Some(DigitsValue(ds)) else None
  }

  /**
   `extractMaxAge(s, value)`: the first max-age token's number when it fits
   in 32 bits, `value` otherwise. A result different from the default is
   never negative, since the capture holds digits only.
   */
  function ExtractMaxAge(s: Bytes, default: int): (v: int)
    ensures v == default || 0 <= v <= MaxInt32
    ensures (forall p :: 0 <= p <= |s| ==> MatchAt(s, p).None?) ==> v == default
  {
    match FindSubmatch(s)
    case None => default
    case Some(ds) =>
      match ParseInt32(ds)
      case Some(n) => n
      case None => default
  }

  /**
   Only the first match counts: when the pattern matches at p and nowhere
   before p, the result is decided by that match alone, whatever follows it.
   An out-of-range number gives the default; a later token does not rescue it.
   */
  lemma ExtractFirstMatch(s: Bytes, p: nat, q: nat, r: nat, e: nat, default: int)
    requires MatchSpan(s, p, q, r, e)
    requires forall k :: 0 <= k < p ==> MatchAt(s, k).None?
    ensures AllDigits(s[r..e])
    ensures DigitsValue(s[r..e]) <= MaxInt32 ==> ExtractMaxAge(s, default) == DigitsValue(s[r..e])
    ensures DigitsValue(s[r..e]) > MaxInt32 ==> ExtractMaxAge(s, default) == default
  {
    MatchAtComplete(s, p, q, r, e);
    assert FirstMatch(s, 0) == Some(p);
  }

  /** The text a match consumes: keyword, spaces, '=', spaces, digits. */
  function Token(w1: Bytes, w2: Bytes, ds: Bytes): Bytes {
    Keyword + w1 + "=" + w2 + ds
  }

  /**
   A header value that opens with a max-age token (keyword, optional spaces,
   `=`, optional spaces, digits ds) closed by the end of the text or a
   non-word byte is decided by ds alone: whatever `rest` holds, including
   further max-age tokens, cannot change the result.
   */
  lemma ExtractLeadingToken(w1: Bytes, w2: Bytes, ds: Bytes, rest: Bytes, default: int)
    requires AllSpaces(w1) && AllSpaces(w2) && |ds| >= 1 && AllDigits(ds)
    requires |rest| == 0 || !IsWordByte(rest[0])
    ensures DigitsValue(ds) <= MaxInt32 ==> ExtractMaxAge(Token(w1, w2, ds) + rest, default) == DigitsValue(ds)
    ensures DigitsValue(ds) > MaxInt32 ==> ExtractMaxAge(Token(w1, w2, ds) + rest, default) == default
  {
    var q := |Keyword| + |w1|;
    var r := q + 1 + |w2|;
    var e := r + |ds|;
    LeadingTokenSpan(w1, w2, ds, rest);
    ExtractFirstMatch(Token(w1, w2, ds) + rest, 0, q, r, e, default);
  }

  /** Where the parts of a leading token sit. */
  lemma LeadingTokenSpan(w1: Bytes, w2: Bytes, ds: Bytes, rest: Bytes)
    requires AllSpaces(w1) && AllSpaces(w2) && |ds| >= 1 && AllDigits(ds)
    requires |rest| == 0 || !IsWordByte(rest[0])
    ensures var q := |Keyword| + |w1|; var r := q + 1 + |w2|;
      MatchSpan(Token(w1, w2, ds) + rest, 0, q, r, r + |ds|) && (Token(w1, w2, ds) + rest)[r..r + |ds|] == ds
  {
    var s := Token(w1, w2, ds) + rest;
    var q := |Keyword| + |w1|;
    var r := q + 1 + |w2|;
    var e := r + |ds|;
    assert s[..e] == Token(w1, w2, ds);
    assert s[..|Keyword|] == Keyword;
    assert s[|Keyword|..q] == w1;
    assert s[q] == '=';
    assert s[q + 1..r] == w2;
    assert s[r..e] == ds;
    assert IsWordByte(s[e - 1]);
    assert e == |s| || s[e] == rest[0];
  }

  /** A leading token carrying the decimal form of n reads as n when n fits in 32 bits. */
  lemma ExtractDecimal(n: nat, w1: Bytes, w2: Bytes, rest: Bytes, default: int)
    requires n <= MaxInt32
    requires AllSpaces(w1) && AllSpaces(w2)
    requires |rest| == 0 || !IsWordByte(rest[0])
    ensures ExtractMaxAge(Token(w1, w2, Decimal(n)) + rest, default) == n
  {
    DecimalRoundTrip(n);
    ExtractLeadingToken(w1, w2, Decimal(n), rest, default);
  }

  /**
   A leading token whose number does not fit in 32 bits gives the default,
   even when `rest` holds a valid max-age token later on.
   */
  lemma ExtractOverflow(n: nat, rest: Bytes, default: int)
    requires n > MaxInt32
    requires |rest| == 0 || !IsWordByte(rest[0])
    ensures ExtractMaxAge(Token([], [], Decimal(n)) + rest, default) == default
  {
    DecimalRoundTrip(n);
    ExtractLeadingToken([], [], Decimal(n), rest, default);
  }

  /** The keyword is case-sensitive: an upper-case `MAX-AGE` token gives the default. */
  lemma UpperCaseKeywordIgnored(default: int)
    ensures ExtractMaxAge("MAX-AGE=5", default) == default
  {
    var s: Bytes := "MAX-AGE=5";
    forall p | 0 <= p <= |s| ensures MatchAt(s, p).None? {
      assert !KeywordAt(s, p) by {
        if p + |Keyword| <= |s| {
          assert s[p..p + |Keyword|][0] != Keyword[0];
        }
      }
    }
  }

  /** `max-age=1800`, the common CACHE-CONTROL value, reads as 1800. */
  lemma Extract1800(default: int)
    ensures ExtractMaxAge("max-age=1800", default) == 1800
  {
    Spell1800();
    ExtractDecimal(1800, [], [], [], default);
  }

  lemma Spell1800()
    ensures Token([], [], Decimal(1800)) + [] == "max-age=1800"
  {
    assert Decimal(1800) == "1800" by {
      assert Decimal(1800) == Decimal(180) + "0";
      assert Decimal(180) == Decimal(18) + "0";
      assert Decimal(18) == Decimal(1) + "8";
    }
  }
}
