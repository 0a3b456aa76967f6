/**
 * `ToPersianDigits` and `ToEnglishDigits` of main.go: a `strings.Replacer`
 * whose ten keys are single code points, so it rewrites the text one code
 * point at a time between the ASCII digits `0`..`9` and the Extended
 * Arabic-Indic digits U+06F0..U+06F9, leaving every other code point as it
 * is.
 */
module Digits {

  predicate IsAsciiDigit(c: char) {
    '0' <= c <= '9'
  }

  predicate IsPersianDigit(c: char) {
    '\U{06F0}' <= c <= '\U{06F9}'
  }

  /** The replacement for one code point in `ToPersianDigits`. */
  function PersianDigit(c: char): char
  {
    if IsAsciiDigit(c) then (c as int - '0' as int + 0x06F0) as char else c
  }

  /** The replacement for one code point in `ToEnglishDigits`. */
  function EnglishDigit(c: char): char
  {
    if IsPersianDigit(c) then (c as int - 0x06F0 + '0' as int) as char else c
  }

  /** The ten pairs of both replacers, written out. */
  lemma DigitPairs()
    ensures PersianDigit('0') == '\U{06F0}' && PersianDigit('1') == '\U{06F1}'
    ensures PersianDigit('2') == '\U{06F2}' && PersianDigit('3') == '\U{06F3}'
    ensures PersianDigit('4') == '\U{06F4}' && PersianDigit('5') == '\U{06F5}'
    ensures PersianDigit('6') == '\U{06F6}' && PersianDigit('7') == '\U{06F7}'
    ensures PersianDigit('8') == '\U{06F8}' && PersianDigit('9') == '\U{06F9}'
    ensures EnglishDigit('\U{06F0}') == '0' && EnglishDigit('\U{06F1}') == '1'
    ensures EnglishDigit('\U{06F2}') == '2' && EnglishDigit('\U{06F3}') == '3'
    ensures EnglishDigit('\U{06F4}') == '4' && EnglishDigit('\U{06F5}') == '5'
    ensures EnglishDigit('\U{06F6}') == '6' && EnglishDigit('\U{06F7}') == '7'
    ensures EnglishDigit('\U{06F8}') == '8' && EnglishDigit('\U{06F9}') == '9'
  {
  }

  /** `ToPersianDigits`: the text with each code point replaced where it
      stands. */
  function ToPersianDigits(s: seq<char>): (r: seq<char>)
    ensures |r| == |s|
    ensures forall k :: 0 <= k < |s| ==> r[k] == PersianDigit(s[k])
  {
    if s == [] then [] else [PersianDigit(s[0])] + ToPersianDigits(s[1..])
  }

  /** `ToEnglishDigits`: the text with each code point replaced where it
      stands. */
  function ToEnglishDigits(s: seq<char>): (r: seq<char>)
    ensures |r| == |s|
    ensures forall k :: 0 <= k < |s| ==> r[k] == EnglishDigit(s[k])
  {
    if s == [] then [] else [EnglishDigit(s[0])] + ToEnglishDigits(s[1..])
  }

  /** `ToPersianDigits` keeps the length; every ASCII digit becomes the
      Persian digit of the same value, every other code point stays where
      it was, and no ASCII digit is left. */
  lemma PersianDigitsPointwise(s: seq<char>)
    ensures |ToPersianDigits(s)| == |s|
    ensures forall k :: 0 <= k < |s| && IsAsciiDigit(s[k]) ==>
      IsPersianDigit(ToPersianDigits(s)[k]) && ToPersianDigits(s)[k] as int - 0x06F0 == s[k] as int - '0' as int
    ensures forall k :: 0 <= k < |s| && !IsAsciiDigit(s[k]) ==> ToPersianDigits(s)[k] == s[k]
    ensures forall k :: 0 <= k < |s| ==> !IsAsciiDigit(ToPersianDigits(s)[k])
  {
  }

  /** `ToEnglishDigits` keeps the length; every Persian digit becomes the
      ASCII digit of the same value, every other code point stays where it
      was, and no Persian digit is left. */
  lemma EnglishDigitsPointwise(s: seq<char>)
    ensures |ToEnglishDigits(s)| == |s|
    ensures forall k :: 0 <= k < |s| && IsPersianDigit(s[k]) ==>
      IsAsciiDigit(ToEnglishDigits(s)[k]) && ToEnglishDigits(s)[k] as int - '0' as int == s[k] as int - 0x06F0
    ensures forall k :: 0 <= k < |s| && !IsPersianDigit(s[k]) ==> ToEnglishDigits(s)[k] == s[k]
    ensures forall k :: 0 <= k < |s| ==> !IsPersianDigit(ToEnglishDigits(s)[k])
  {
  }

  /** Back from Persian digits: text holding no Persian digit of its own is
      restored by `ToEnglishDigits`. */
  lemma {:induction false} EnglishAfterPersian(s: seq<char>)
    requires forall k :: 0 <= k < |s| ==> !IsPersianDigit(s[k])
    ensures ToEnglishDigits(ToPersianDigits(s)) == s
    decreases |s|
  {
    if s != [] {
      EnglishAfterPersian(s[1..]);
      assert ToPersianDigits(s) == [PersianDigit(s[0])] + ToPersianDigits(s[1..]);
      assert ToPersianDigits(s)[1..] == ToPersianDigits(s[1..]);
    }
  }

  /** Back from ASCII digits: text holding no ASCII digit of its own is
      restored by `ToPersianDigits`. */
  lemma {:induction false} PersianAfterEnglish(s: seq<char>)
    requires forall k :: 0 <= k < |s| ==> !IsAsciiDigit(s[k])
    ensures ToPersianDigits(ToEnglishDigits(s)) == s
    decreases |s|
  {
    if s != [] {
      PersianAfterEnglish(s[1..]);
      assert ToEnglishDigits(s) == [EnglishDigit(s[0])] + ToEnglishDigits(s[1..]);
      assert ToEnglishDigits(s)[1..] == ToEnglishDigits(s[1..]);
    }
  }

  /** A second `ToPersianDigits` changes nothing. */
  lemma {:induction false} PersianDigitsIdempotent(s: seq<char>)
    ensures ToPersianDigits(ToPersianDigits(s)) == ToPersianDigits(s)
  {
    var r := ToPersianDigits(s);
    PersianDigitsPointwise(s);
    PersianDigitsPointwise(r);
  }

  /** A second `ToEnglishDigits` changes nothing. */
  lemma {:induction false} EnglishDigitsIdempotent(s: seq<char>)
    ensures ToEnglishDigits(ToEnglishDigits(s)) == ToEnglishDigits(s)
  {
    var r := ToEnglishDigits(s);
    EnglishDigitsPointwise(s);
    EnglishDigitsPointwise(r);
  }

  /** The replacement is local: it commutes with concatenation. */
  lemma {:induction false} PersianDigitsAppend(a: seq<char>, b: seq<char>)
    ensures ToPersianDigits(a + b) == ToPersianDigits(a) + ToPersianDigits(b)
  {
    var whole, left, right := ToPersianDigits(a + b), ToPersianDigits(a), ToPersianDigits(b);
    forall k | 0 <= k < |a + b|
      ensures whole[k] == (left + right)[k]
    {
      if k < |a| {
        assert (a + b)[k] == a[k];
      } else {
        assert (a + b)[k] == b[k - |a|];
      }
    }
  }
}
