/** What several components share: optional values and a few characters. */
module Basics {

  datatype Option<T> = None | Some(value: T)

  const BACKSPACE: char := '\U{08}'
  const FORM_FEED: char := '\U{0C}'

  function HexDigit(c: char): (r: Option<nat>)
    ensures r.Some? ==> r.value < 16
  {
    if '0' <= c <= '9' then Some(c as nat - '0' as nat)
    else if 'a' <= c <= 'f' then Some(c as nat - 'a' as nat + 10)
    else if 'A' <= c <= 'F' then Some(c as nat - 'A' as nat + 10)
    else None
  }

  /** A hexadecimal digit is read by its place among the sixteen, in either case. */
  lemma HexDigitIs(c: char, n: nat)
    ensures HexDigit(c) == Some(n) <==> n < 16 && (c == "0123456789abcdef"[n] || c == "0123456789ABCDEF"[n])
  {
  }
}
