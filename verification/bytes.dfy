/**
 Byte strings and the handful of `bytes`/`strconv`/`fmt` helpers the SSDP code
 relies on: CRLF splitting and joining, prefix and suffix tests, and decimal
 formatting and parsing of integers.
 */
module ByteStrings {
  import opened Wrappers

  /** One octet. Go's `string` and `[]byte` are both sequences of these. */
  type byte = c: char | c as int < 0x100
  type Bytes = seq<byte>

  const CR: byte := '\r'
  const LF: byte := '\n'
  const CRLF: Bytes := "\r\n"

  predicate HasPrefix(s: Bytes, p: Bytes) {
    |p| <= |s| && s[..|p|] == p
  }

  predicate HasSuffix(s: Bytes, p: Bytes) {
    |p| <= |s| && s[|s| - |p|..] == p
  }

  /** Whatever follows it, w is a prefix of w + x. */
  lemma AppendHasPrefix(w: Bytes, x: Bytes)
    ensures HasPrefix(w + x, w)
  {
    assert (w + x)[..|w|] == w;
  }

  /** Whatever comes before it, w is a suffix of x + w. */
  lemma AppendHasSuffix(x: Bytes, w: Bytes)
    ensures HasSuffix(x + w, w)
  {
    assert (x + w)[|x|..] == w;
  }

  /** True when a CRLF pair starts at index i of s. */
  predicate IsCRLFAt(s: Bytes, i: int) {
    0 <= i && i + 1 < |s| && s[i] == CR && s[i + 1] == LF
  }

  /** No CR and no LF byte anywhere in s: a single protocol line. */
  predicate NoLineBreak(s: Bytes) {
    forall i :: 0 <= i < |s| ==> s[i] != CR && s[i] != LF
  }

  /** The position of the first CRLF in s (`bytes.Index(s, "\r\n")`). */
  function IndexCRLF(s: Bytes): (r: Option<nat>)
    ensures r.Some? ==> IsCRLFAt(s, r.value)
    ensures r.Some? ==> forall j :: 0 <= j < r.value ==> !IsCRLFAt(s, j)
    ensures r.None? ==> forall j :: 0 <= j < |s| ==> !IsCRLFAt(s, j)
    decreases |s|
  {
    if |s| < 2 then None
    else if s[0] == CR && s[1] == LF then Some(0)
    else
      match IndexCRLF(s[1..])
      case None =>
        assert forall j :: 1 <= j < |s| ==> IsCRLFAt(s, j) == IsCRLFAt(s[1..], j - 1);
        None
      case Some(i) =>
        assert forall j :: 1 <= j < |s| ==> IsCRLFAt(s, j) == IsCRLFAt(s[1..], j - 1);
        Some(i + 1)
  }

  /**
   `bytes.Split(s, "\r\n")`: the maximal CRLF-free pieces of s, in order.
   There is always at least one piece, and no piece contains a CRLF.
   */
  function Split(s: Bytes): (lines: seq<Bytes>)
    ensures |lines| >= 1
    ensures forall k, j :: 0 <= k < |lines| && 0 <= j < |lines[k]| ==> !IsCRLFAt(lines[k], j)
    decreases |s|
  {
    match IndexCRLF(s)
    case None => [s]
    case Some(i) =>
      assert forall j :: 0 <= j < i ==> IsCRLFAt(s[..i], j) ==> IsCRLFAt(s, j);
      [s[..i]] + Split(s[i + 2..])
  }

  /** `bytes.Join(lines, "\r\n")`. */
  function Join(lines: seq<Bytes>): (r: Bytes)
    ensures |lines| >= 1 ==> HasPrefix(r, lines[0])
    decreases |lines|
  {
    if |lines| == 0 then []
    else if |lines| == 1 then
      AppendHasPrefix(lines[0], []);
      assert lines[0] + [] == lines[0];
      lines[0]
    else
      AppendHasPrefix(lines[0], CRLF + Join(lines[1..]));
      assert lines[0] + CRLF + Join(lines[1..]) == lines[0] + (CRLF + Join(lines[1..]));
      lines[0] + CRLF + Join(lines[1..])
  }

  /** Joining a non-empty head onto a non-empty tail puts exactly one CRLF between them. */
  lemma JoinCons(x: Bytes, rest: seq<Bytes>)
    requires |rest| >= 1
    ensures Join([x] + rest) == x + CRLF + Join(rest)
  {
    assert ([x] + rest)[1..] == rest;
  }

  /** Appending a line to a non-empty list appends CRLF and that line to the joined text. */
  lemma {:induction false} JoinSnoc(lines: seq<Bytes>, y: Bytes)
    requires |lines| >= 1
    ensures Join(lines + [y]) == Join(lines) + CRLF + y
    decreases |lines|
  {
    if |lines| == 1 {
      JoinCons(lines[0], [y]);
    } else {
      assert lines + [y] == [lines[0]] + (lines[1..] + [y]);
      JoinCons(lines[0], lines[1..] + [y]);
      JoinSnoc(lines[1..], y);
      JoinCons(lines[0], lines[1..]);
      assert [lines[0]] + lines[1..] == lines;
    }
  }

  /** The joined text ends with the last line. */
  lemma {:induction false} JoinEndsWithLast(ls: seq<Bytes>)
    requires |ls| >= 1
    ensures HasSuffix(Join(ls), ls[|ls| - 1])
  {
    if |ls| == 1 {
      assert Join(ls)[|Join(ls)| - |ls[0]|..] == ls[0];
    } else {
      var init, last := ls[..|ls| - 1], ls[|ls| - 1];
      assert ls == init + [last];
      JoinSnoc(init, last);
      var j := Join(init) + CRLF + last;
      assert j[|j| - |last|..] == last;
    }
  }

  /** Splitting and rejoining gives back the original bytes. */
  lemma {:induction false} JoinSplit(s: Bytes)
    ensures Join(Split(s)) == s
    decreases |s|
  {
    match IndexCRLF(s)
    case None =>
    case Some(i) =>
      var rest := Split(s[i + 2..]);
      JoinSplit(s[i + 2..]);
      JoinCons(s[..i], rest);
      assert s == s[..i] + CRLF + s[i + 2..];
  }

  /**
   Splitting a CRLF-joined list of line-break-free lines gives back the lines.
   */
  lemma {:induction false} SplitJoin(lines: seq<Bytes>)
    requires |lines| >= 1
    requires forall k :: 0 <= k < |lines| ==> NoLineBreak(lines[k])
    ensures Split(Join(lines)) == lines
    decreases |lines|
  {
    var s := Join(lines);
    if |lines| == 1 {
      assert forall j :: 0 <= j < |s| ==> !IsCRLFAt(s, j);
    } else {
      var x := lines[0];
      JoinCons(x, lines[1..]);
      assert [x] + lines[1..] == lines;
      var t := Join(lines[1..]);
      assert s == x + CRLF + t;
      assert IsCRLFAt(s, |x|);
      assert forall j :: 0 <= j < |x| ==> !IsCRLFAt(s, j);
      assert IndexCRLF(s) == Some(|x|);
      assert s[..|x|] == x;
      assert s[|x| + 2..] == t;
      SplitJoin(lines[1..]);
    }
  }

  // ---------------------------------------------------------------------
  // Decimal digits
  // ---------------------------------------------------------------------

  predicate IsDigit(c: byte) {
    '0' <= c <= '9'
  }

  predicate AllDigits(s: Bytes) {
    forall i :: 0 <= i < |s| ==> IsDigit(s[i])
  }

  function DigitValue(c: byte): nat
    requires IsDigit(c)
  {
    c as int - '0' as int
  }

  function DigitChar(d: nat): (c: byte)
    requires d < 10
    ensures IsDigit(c) && DigitValue(c) == d
  {
    ('0' as int + d) as char
  }

  /** The number a string of decimal digits denotes (leading zeros allowed). */
  function DigitsValue(ds: Bytes): nat
    requires AllDigits(ds)
    decreases |ds|
  {
    if |ds| == 0 then 0
    else DigitsValue(ds[..|ds| - 1]) * 10 + DigitValue(ds[|ds| - 1])
  }

  /** Canonical decimal digits of n: at least one digit and no leading zero. */
  function Decimal(n: nat): (ds: Bytes)
    ensures 1 <= |ds| && AllDigits(ds)
    ensures ds[0] == '0' ==> ds == "0"
    decreases n
  {
    if n < 10 then [DigitChar(n)]
    else Decimal(n / 10) + [DigitChar(n % 10)]
  }

  /** Decimal and DigitsValue are inverse: formatting then parsing returns n. */
  lemma {:induction false} DecimalRoundTrip(n: nat)
    ensures DigitsValue(Decimal(n)) == n
    decreases n
  {
    if n >= 10 {
      var ds := Decimal(n);
      assert ds[..|ds| - 1] == Decimal(n / 10);
      DecimalRoundTrip(n / 10);
    }
  }

  /**
   `fmt`'s `%d` verb: a minus sign for negative n, then the digits of |n|,
   with no leading zero.
   */
  function FormatInt(n: int): (s: Bytes)
    ensures n >= 0 ==> AllDigits(s) && DigitsValue(s) == n
    ensures n < 0 ==> |s| >= 2 && s[0] == '-' && AllDigits(s[1..]) && DigitsValue(s[1..]) == -n
    ensures n >= 0 ==> |s| >= 1 && (s[0] == '0' ==> s == "0")
    ensures n < 0 ==> s[1] != '0'
  {
    if n < 0 then
      DecimalRoundTrip(-n);
      assert Decimal(-n) != "0";
      assert ("-" + Decimal(-n))[1..] == Decimal(-n);
      "-" + Decimal(-n)
    else
      DecimalRoundTrip(n);
      Decimal(n)
  }
}
