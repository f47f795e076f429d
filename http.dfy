/**
 * What both HTTP handlers share: status codes, the response shape, the
 * uploaded form part, the content-type default and the parsing of the
 * `:id` path parameter (Go's `strconv.ParseInt(s, 10, 64)`).
 */
module Http {
  import opened Types

  const StatusOK := 200
  const StatusCreated := 201
  const StatusNoContent := 204
  const StatusBadRequest := 400
  const StatusNotFound := 404
  const StatusInternalServerError := 500

  /** The content type stored when the upload names none. */
  const DefaultContentType := "application/octet-stream"

  /**
   * A response body: one record, a JSON array of records, an error message
   * (only its fixed text; the wrapped cause is not modelled) or nothing.
   */
  datatype Body<T> = One(item: T) | Many(items: seq<T>) | Message(text: string) | Empty

  datatype Response<T> = Response(status: int, body: Body<T>)

  /** An error response, as `echo.NewHTTPError(status, message)` produces. */
  function Error<T>(status: int, message: string): Response<T> {
    Response(status, Message(message))
  }

  /** The multipart part named `file`: its filename, declared size, Content-Type header and bytes. */
  datatype FormFile = FormFile(filename: string, size: int, contentType: string, content: Bytes)

  /** The part's Content-Type, or the generic binary type when the header is empty. */
  function ContentTypeOrDefault(header: string): (ct: string)
    ensures ct != ""
    ensures header != "" ==> ct == header
    ensures header == "" ==> ct == DefaultContentType
  {
    if header == "" then DefaultContentType else header
  }

  const MinInt64: int := -0x8000_0000_0000_0000
  const MaxInt64: int := 0x7FFF_FFFF_FFFF_FFFF

  predicate IsDigit(c: char) {
    '0' <= c <= '9'
  }

  predicate AllDigits(s: string) {
    forall i :: 0 <= i < |s| ==> IsDigit(s[i])
  }

  /** The value of a string of decimal digits. */
  function DigitsValue(s: string): nat
    requires AllDigits(s)
  {
    if s == [] then 0 else DigitsValue(s[..|s| - 1]) * 10 + (s[|s| - 1] as int - '0' as int)
  }

  predicate IsSign(c: char) {
    c == '-' || c == '+'
  }

  /** The text after one leading sign, if there is one. */
  function Unsigned(s: string): (d: string)
    requires s != []
    ensures IsSign(s[0]) ==> d == s[1..]
    ensures !IsSign(s[0]) ==> d == s
  {
    if IsSign(s[0]) then s[1..] else s
  }

  /**
   * `strconv.ParseInt(s, 10, 64)`: an optional `+` or `-`, then one or more
   * decimal digits (no underscores in base 10), with a value that fits in 64
   * bits. Anything else is an error.
   */
  function ParseInt64(s: string): (r: Option<int>)
    ensures r.Some? ==> MinInt64 <= r.value <= MaxInt64
    ensures r.Some? ==> s != "" && s != "-" && s != "+"
    ensures (exists i :: 0 <= i < |s| && !IsDigit(s[i]) && !(i == 0 && IsSign(s[0]))) ==> r.None?
    ensures r.Some? ==>
      var d := Unsigned(s);
      && d != [] && AllDigits(d)
      && r.value == (if s[0] == '-' then 0 - DigitsValue(d) as int else DigitsValue(d) as int)
    ensures s != [] && Unsigned(s) != [] && AllDigits(Unsigned(s)) ==>
      var v := if s[0] == '-' then 0 - DigitsValue(Unsigned(s)) as int else DigitsValue(Unsigned(s)) as int;
      r.Some? <==> MinInt64 <= v <= MaxInt64
  {
    if s == [] then None
    else
      var digits := Unsigned(s);
      if digits == [] || !AllDigits(digits) then None
      else
        var v: int := if s[0] == '-' then 0 - DigitsValue(digits) as int else DigitsValue(digits);
        if MinInt64 <= v <= MaxInt64 then Some(v) else None
  }

  /** The decimal digits of a natural number, without leading zeros. */
  function NatDigits(n: nat): string
  {
    if n < 10 then [('0' as int + n) as char]
    else NatDigits(n / 10) + [('0' as int + n % 10) as char]
  }

  /** `strconv.FormatInt(n, 10)`: the canonical decimal text of `n`. */
  function FormatInt(n: int): string {
    if n < 0 then "-" + NatDigits(-n) else NatDigits(n)
  }

  /** The digits of `n` are digits, at least one of them, and read back as `n`. */
  lemma {:induction false} NatDigitsValue(n: nat)
    ensures NatDigits(n) != [] && AllDigits(NatDigits(n))
    ensures DigitsValue(NatDigits(n)) == n
  {
    var s := NatDigits(n);
    if n >= 10 {
      NatDigitsValue(n / 10);
      assert s[..|s| - 1] == NatDigits(n / 10);
    }
  }

  /** Every 64-bit id, written in decimal, parses back to itself. */
  lemma ParseFormatRoundTrip(n: int)
    requires MinInt64 <= n <= MaxInt64
    ensures ParseInt64(FormatInt(n)) == Some(n)
  {
    var s := FormatInt(n);
    if n < 0 {
      NatDigitsValue(-n);
      assert s[1..] == NatDigits(-n);
    } else {
      NatDigitsValue(n);
      assert IsDigit(s[0]);
    }
  }
}
