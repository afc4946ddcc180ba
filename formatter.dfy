/**
 * The field formatter applied to every extracted page element
 * (page_analyzer/app.py, `formatter`). An element is either absent or
 * supplied as its text; the result always fits a 255-character column.
 */
module Formatter {
  import opened Options

  /** The longest string the formatter returns. */
  const MaxLength: nat := 255
  /** How many characters of an over-long string are kept. */
  const KeptLength: nat := 252
  /** The marker appended to a truncated string. */
  const Ellipsis: string := "..."

  /** An absent element becomes "", an over-long one is cut to 252 characters plus "...". */
  function Format(element: Option<string>): (r: string)
    ensures |r| <= MaxLength
    ensures element.Some? ==> (r == element.value <==> |element.value| <= MaxLength)
  {
    match element
    case None => ""
    case Some(s) => if |s| > MaxLength then s[..KeptLength] + Ellipsis else s
  }

  /** An absent element yields the empty string. */
  lemma FormatAbsent()
    ensures Format(None) == ""
  {
  }

  /** A string of at most 255 characters passes through unchanged. */
  lemma FormatKeepsShort(s: string)
    requires |s| <= MaxLength
    ensures Format(Some(s)) == s
  {
  }

  /** A longer string becomes exactly its first 252 characters followed by "...". */
  lemma FormatTruncatesLong(s: string)
    requires |s| > MaxLength
    ensures |Format(Some(s))| == MaxLength
    ensures Format(Some(s))[..KeptLength] == s[..KeptLength]
    ensures Format(Some(s))[KeptLength..] == Ellipsis
  {
  }

  /** Formatting an already formatted value changes nothing. */
  lemma FormatIdempotent(element: Option<string>)
    ensures Format(Some(Format(element))) == Format(element)
  {
  }
}
