/**
 * The `Range` header value `Send(s, e)` builds (download.go:144), and a
 * reader for the single-range form it produces: the `int-range` of section
 * 14.1.2 of RFC 9110, `bytes=first-last`, both positions inclusive.
 */
module RangeRequest {
  import opened Wrappers
  import opened Decimal
  import opened Download

  /** `fmt.Sprintf("bytes=%v-%v", s, e-1)`: the request for bytes s up to but excluding e. */
  function RangeHeader(s: int, e: int): (h: string)
    ensures |h| >= 9 && h[..6] == "bytes="
    ensures h[6] == '-' <==> s < 0
  {
    var h := "bytes=" + FormatInt(s) + "-" + FormatInt(e - 1);
    assert h[6] == FormatInt(s)[0];
    h
  }

  /** A satisfiable-looking int-range: first <= last. */
  datatype ByteRange = ByteRange(first: nat, last: nat)
  {
    /** How many bytes the range names. */
    function Size(): nat
      requires first <= last
    {
      last - first + 1
    }
  }

  /** Position of the first c in s, if any. */
  function IndexOf(s: string, c: char): (r: Option<nat>)
    ensures r.Some? ==> r.value < |s| && s[r.value] == c && forall i :: 0 <= i < r.value ==> s[i] != c
    ensures r.None? ==> forall i :: 0 <= i < |s| ==> s[i] != c
  {
    if s == [] then None
    else if s[0] == c then Some(0)
    else match IndexOf(s[1..], c)
      case None => None
      case Some(i) => Some(i + 1)
  }

  /**
   * Reads `bytes=<first>-<last>` with both positions one or more digits and
   * last >= first; anything else (another unit, a suffix range, a sign,
   * a reversed range) is None.
   */
  function ParseByteRange(h: string): (r: Option<ByteRange>)
    ensures r.Some? ==> r.value.first <= r.value.last
  {
    if |h| < 6 || h[..6] != "bytes=" then None
    else
      var spec := h[6..];
      match IndexOf(spec, '-')
      case None => None
      case Some(i) =>
        var first, last := spec[..i], spec[i + 1..];
        if first == [] || last == [] || !AllDigits(first) || !AllDigits(last) then None
        else if DecimalValue(last) < DecimalValue(first) then None
        else Some(ByteRange(DecimalValue(first), DecimalValue(last)))
  }

  /** The header splits back into its two formatted positions. */
  lemma SplitRangeHeader(s: nat, e: int)
    ensures var h := RangeHeader(s, e);
      |h| >= 6 && h[..6] == "bytes=" &&
      IndexOf(h[6..], '-') == Some(|FormatInt(s)|) &&
      h[6..][..|FormatInt(s)|] == FormatInt(s) &&
      h[6..][|FormatInt(s)| + 1..] == FormatInt(e - 1)
  {
    var a, b := FormatInt(s), FormatInt(e - 1);
    var h := RangeHeader(s, e);
    assert h[6..] == a + "-" + b;
    DigitsThenDash(a, b);
  }

  lemma {:induction false} DigitsThenDash(a: string, b: string)
    requires AllDigits(a)
    ensures IndexOf(a + "-" + b, '-') == Some(|a|)
  {
    if a != [] {
      assert (a + "-" + b)[1..] == a[1..] + "-" + b;
      DigitsThenDash(a[1..], b);
    }
  }

  /**
   * For 0 <= s < e the header is a valid int-range naming exactly bytes
   * s..e-1, that is e - s bytes.
   */
  lemma RangeHeaderRoundTrip(s: nat, e: int)
    requires s < e
    ensures ParseByteRange(RangeHeader(s, e)) == Some(ByteRange(s, e - 1))
    ensures ParseByteRange(RangeHeader(s, e)).value.Size() == e - s
  {
    var a, b := FormatInt(s), FormatInt(e - 1);
    assert a == NatToDecimal(s) && b == NatToDecimal(e - 1);
    SplitRangeHeader(s, e);
    DecimalOfNat(s);
    DecimalOfNat(e - 1);
    assert DecimalValue(a) == s && DecimalValue(b) == e - 1;
  }

  /**
   * For e <= s the header names no bytes: it is not a valid int-range
   * (the last position is below the first, or negative).
   */
  lemma RangeHeaderEmpty(s: nat, e: int)
    requires e <= s
    ensures ParseByteRange(RangeHeader(s, e)) == None
  {
    SplitRangeHeader(s, e);
    DecimalOfNat(s);
    if e - 1 >= 0 {
      DecimalOfNat(e - 1);
    } else {
      assert !IsDigit(FormatInt(e - 1)[0]);
    }
  }

  /** A worker's request `Send(ctx, s, s+sizePerRoutine)` asks for exactly one chunk of SizePerRoutine bytes. */
  lemma WorkerRequestsOneChunk(s: nat)
    ensures ParseByteRange(RangeHeader(s, s + SizePerRoutine)) == Some(ByteRange(s, s + SizePerRoutine - 1))
    ensures ParseByteRange(RangeHeader(s, s + SizePerRoutine)).value.Size() == SizePerRoutine
  {
    RangeHeaderRoundTrip(s, s + SizePerRoutine);
  }
}
