/** Shared vocabulary of the HTTP core: optional values, results carrying the
    error a C++ `throw` (or undefined behaviour) would end the operation with,
    transport error codes, decimal digits and the decimal rendering used by
    `std::to_string`. */
module Common {

  datatype Option<+T> = None | Some(value: T)

  /** The failures the core can end an operation with. Each one stands for a
      `throw std::runtime_error(...)` of the source, or for a point where the
      source has undefined behaviour (a null or empty-view dereference, an
      unsigned underflow); those are named as such. */
  datatype Error =
    | InvalidStatusCode(code: int)          // status_code_to_string
    | InvalidContentTypeCode(code: int)     // content_type_to_string
    | InvalidContentType(name: string)      // content_type_from_string
    | MissingContentType                    // fetch of an absent Content-Type (null var)
    | UnsupportedTransferEncoding(encoding: string)
    | BadContentLength(text: string)        // Content-Length that var::to_i is not modelled for
    | BodyOverrun(declared: nat, available: nat)  // undefined: size_t underflow at line 277
    | DanglingPercent                       // undefined: front() of an empty view
    | InvalidEscape                         // "invalid character following hex scape sequence"
    | UnrecognizedVersion(version: string)  // request line without HTTP/
    | InvalidResponse                       // status line without HTTP/
    | NullStream                            // undefined: dereference of an empty stream slot

  datatype Result<+T> = Ok(value: T) | Err(error: Error)

  /** A transport error code as asio reports it: either no error, or a code. */
  datatype ErrorCode = NoError | Failure(code: nat)

  /** `isdigit` in the "C" locale. */
  predicate IsDigit(c: char) {
    '0' <= c <= '9'
  }

  predicate AllDigits(s: string) {
    forall i :: 0 <= i < |s| ==> IsDigit(s[i])
  }

  function DigitValue(c: char): (d: nat)
    requires IsDigit(c)
    ensures d < 10
  {
    (c as int) - ('0' as int)
  }

  function DigitChar(d: nat): (c: char)
    requires d < 10
    ensures IsDigit(c) && DigitValue(c) == d
  {
    (('0' as int) + d) as char
  }

  /** `std::to_string` of an unsigned value: its decimal digits, most
      significant first, without leading zeros. */
  function NatToString(n: nat): (s: string)
    ensures |s| > 0 && AllDigits(s)
    ensures |s| > 1 ==> s[0] != '0'
    decreases n
  {
    if n < 10 then [DigitChar(n)] else NatToString(n / 10) + [DigitChar(n % 10)]
  }

  /** The value of a string of decimal digits, most significant first. */
  function DecimalValue(s: string): nat
    requires AllDigits(s)
  {
    if s == [] then 0 else 10 * DecimalValue(s[..|s| - 1]) + DigitValue(s[|s| - 1])
  }

  /** Reading back the decimal rendering of a number gives the number. */
  lemma {:induction false} DecimalRoundTrip(n: nat)
    ensures DecimalValue(NatToString(n)) == n
    decreases n
  {
    if n >= 10 {
      DecimalRoundTrip(n / 10);
      var s := NatToString(n);
      assert s[..|s| - 1] == NatToString(n / 10);
    }
  }

  predicate StartsWith(s: string, prefix: string) {
    |prefix| <= |s| && s[..|prefix|] == prefix
  }

  predicate EndsWith(s: string, suffix: string) {
    |suffix| <= |s| && s[|s| - |suffix|..] == suffix
  }
}
