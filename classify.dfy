/** The script classifiers of main.go: `IsPersianLetter` and `IsPersian`. */
module Classify {
  import opened Text

  /** A code point of the Arabic block U+0600..U+06FF; none of them is
      white space, nor is U+0000 one of them. */
  predicate IsPersianLetter(ch: char): (b: bool)
    ensures b ==> !IsSpace(ch) && ch != '\0'
  {
    '\U{0600}' <= ch <= '\U{06FF}'
  }

  /** The range is inclusive at both ends and nothing outside it counts. */
  lemma PersianLetterBounds()
    ensures !IsPersianLetter('\U{05FF}') && IsPersianLetter('\U{0600}')
    ensures IsPersianLetter('\U{06FF}') && !IsPersianLetter('\U{0700}')
  {
  }

  /** No code point of the Arabic block is white space, and U+0000 is neither. */
  lemma PersianLetterNotSpace(ch: char)
    ensures IsPersianLetter(ch) ==> !IsSpace(ch)
    ensures !IsPersianLetter('\0') && !IsSpace('\0')
  {
  }

  /** What `IsPersian` decides: every code point is white space or a
      Persian letter. */
  predicate PersianText(s: seq<char>) {
    forall k :: 0 <= k < |s| ==> IsSpace(s[k]) || IsPersianLetter(s[k])
  }

  /** Scans the whole input, clearing the flag at each code point that is
      neither white space nor a Persian letter; the scan never stops early. */
  method IsPersian(input: seq<char>) returns (isPersian: bool)
    ensures isPersian == PersianText(input)
  {
    isPersian := true;
    for i := 0 to |input|
      invariant isPersian <==> forall k :: 0 <= k < i ==> IsSpace(input[k]) || IsPersianLetter(input[k])
    {
      var v := input[i];
      if !IsSpace(v) && !IsPersianLetter(v) {
        isPersian := false;
      }
    }
  }

  /** The empty string is vacuously Persian text. */
  lemma PersianTextEmpty()
    ensures PersianText([])
  {
  }
}
