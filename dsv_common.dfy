/** Definitions shared by the DSV row reader and the DSV row writer. */
module DSVCommon {

  /** The quote character: it opens and closes quoted spans, and it can never be the delimiter. */
  const Quote: char := '"'

  /** The only row terminator. */
  const Newline: char := '\n'

  /** The delimiter used when the caller asks for the quote character. */
  const DefaultDelimiter: char := ','

  /** The delimiter a reader or writer actually uses: a requested quote character
      falls back to a comma, and any other character is kept as it is. */
  function NormalizeDelimiter(requested: char): (d: char)
    ensures d != Quote
    ensures requested != Quote ==> d == requested
    ensures requested == Quote ==> d == DefaultDelimiter
  {
    if requested == Quote then DefaultDelimiter else requested
  }

  /** Number of occurrences of `c` in `s`. */
  function Occurrences(s: string, c: char): nat
  {
    if s == [] then 0 else Occurrences(s[..|s| - 1], c) + (if s[|s| - 1] == c then 1 else 0)
  }
}
