/**
 * The decision `Head` takes on the response to its HEAD request
 * (download.go:168-176). The two inputs are the first values of the
 * `Accept-Ranges` and `Content-Length` response headers, or "" when a header
 * is absent (what `Header.Get` returns).
 */
module Probe {
  import opened Wrappers
  import opened Decimal

  datatype HeadError =
    | RangeAccessFailed      // Accept-Ranges is not exactly "bytes"
    | ContentLengthInvalid   // Content-Length is not an Atoi numeral within 64 bits

  function Head(acceptRanges: string, contentLength: string): (r: Result<int, HeadError>)
    ensures r == Failure(RangeAccessFailed) <==> acceptRanges != "bytes"
    ensures r.Success? <==> acceptRanges == "bytes" && Atoi(contentLength).Some?
    ensures r.Success? ==> InInt64(r.value)
  {
    if acceptRanges != "bytes" then Failure(RangeAccessFailed)
    else
      match Atoi(contentLength)
      case None => Failure(ContentLengthInvalid)
      case Some(cl) => Success(cl)
  }

  /**
   * Without `Accept-Ranges: bytes` the probe fails with RangeAccessFailed,
   * whatever Content-Length says: the range check comes first.
   */
  lemma HeadRequiresByteRanges(acceptRanges: string, contentLength: string, other: string)
    requires acceptRanges != "bytes"
    ensures Head(acceptRanges, contentLength) == Failure(RangeAccessFailed)
    ensures Head(acceptRanges, contentLength) == Head(acceptRanges, other)
  {
  }

  /**
   * With range support, any 64-bit value written as `%v` writes it is read
   * back, negative values included; values beyond 64 bits are rejected.
   */
  lemma HeadReadsFormattedLength(n: int)
    ensures Head("bytes", FormatInt(n)) == if InInt64(n) then Success(n) else Failure(ContentLengthInvalid)
  {
    AtoiFormatInt(n);
  }

  /**
   * A successful probe saw `Accept-Ranges: bytes` and a Content-Length that
   * is the decimal spelling of the returned length up to a plus sign,
   * leading zeros and `-0`.
   */
  lemma HeadSuccess(acceptRanges: string, contentLength: string)
    requires Head(acceptRanges, contentLength).Success?
    ensures acceptRanges == "bytes"
    ensures var cl := Head(acceptRanges, contentLength).value;
      InInt64(cl) && FormatInt(cl) == Canonical(contentLength)
  {
    AtoiCanonical(contentLength);
  }

  /**
   * A negative Content-Length that reaches Atoi is accepted (Atoi takes the
   * sign); the HTTP transport's own header checks are not part of this model.
   */
  lemma HeadAcceptsNegativeLength(digits: string)
    requires |digits| >= 1 && AllDigits(digits) && 1 <= DecimalValue(digits) <= MaxInt64
    ensures Head("bytes", "-" + digits) == Success(-(DecimalValue(digits) as int))
    ensures Head("bytes", "-" + digits).value < 0
  {
    AtoiSigned(digits);
  }

  /** An absent Content-Length header ("" from Header.Get) fails the probe. */
  lemma HeadRejectsMissingLength()
    ensures Head("bytes", "") == Failure(ContentLengthInvalid)
  {
  }
}
