/**
 * Word shaping (`shapeWord`) and rune reversal (`reverse`) of main.go.
 */
module Shaping {
  import opened Wrappers
  import opened Text
  import opened Classify
  import opened Shapes

  // ---------------------------------------------------------------- reverse

  /** `reverse`: copies the runes into a buffer and swaps them pairwise from
      both ends towards the middle. */
  method Reverse(s: seq<char>) returns (r: seq<char>)
    ensures r == Reversed(s)
  {
    var runes := new char[|s|](k requires 0 <= k < |s| => s[k]);
    var i, j := 0, |s| - 1;
    while i < j
      invariant 0 <= i && j == |s| - 1 - i && i <= j + 2
      invariant forall k :: 0 <= k < i ==> runes[k] == s[|s| - 1 - k] && runes[|s| - 1 - k] == s[k]
      invariant forall k :: i <= k <= j ==> runes[k] == s[k]
    {
      runes[i], runes[j] := runes[j], runes[i];
      i, j := i + 1, j - 1;
    }
    r := runes[..];
    forall k | 0 <= k < |s|
      ensures r[k] == Reversed(s)[k]
    {
      ReversedIndex(s, k);
    }
  }

  // ---------------------------------------------------------------- shapeWord

  /** The letter group of position `i`: a neighbour is present exactly when
      its index is inside the word, whatever code point it holds. */
  function GroupAt(w: seq<char>, i: int): LetterGroup
    requires 0 <= i < |w|
  {
    LetterGroup(if i - 1 >= 0 then Some(w[i - 1]) else None,
                w[i],
                if i != |w| - 1 then Some(w[i + 1]) else None)
  }

  /** What position `i` turns into before reversal: its resolved glyph when
      the code point is a key of the table, the code point itself otherwise. */
  function ResolveAt(w: seq<char>, i: int): char
    requires 0 <= i < |w|
  {
    if InTable(w[i]) then AdjustLetter(GroupAt(w, i)) else w[i]
  }

  /** Each position resolved, in logical order. */
  function Resolved(w: seq<char>): (r: seq<char>)
    ensures |r| == |w|
  {
    seq(|w|, i requires 0 <= i < |w| => ResolveAt(w, i))
  }

  /** What `shapeWord` returns. */
  function ShapedWord(w: seq<char>): seq<char>
  {
    if !PersianText(w) then w else Reversed(Resolved(w))
  }

  /** The loop of `shapeWord`: each rune resolved from its neighbours into
      a buffer. */
  method ResolveRunes(input: seq<char>) returns (shapedInput: seq<char>)
    ensures shapedInput == Resolved(input)
  {
    shapedInput := [];
    for i := 0 to |input|
      invariant |shapedInput| == i
      invariant forall k :: 0 <= k < i ==> shapedInput[k] == ResolveAt(input, k)
    {
      var backLetter: Option<char> := None;
      var frontLetter: Option<char> := None;
      if i - 1 >= 0 {
        backLetter := Some(input[i - 1]);
      }
      if i != |input| - 1 {
        frontLetter := Some(input[i + 1]);
      }
      var group := LetterGroup(backLetter, input[i], frontLetter);
      assert group == GroupAt(input, i);
      var next: char;
      if InTable(input[i]) {
        next := AdjustLetter(group);
      } else {
        next := input[i];
      }
      assert next == ResolveAt(input, i);
      shapedInput := shapedInput + [next];
    }
  }

  /** `shapeWord`: a word that is not Persian text comes back as it is;
      otherwise its runes are resolved and the result reversed. */
  method ShapeWord(input: seq<char>) returns (r: seq<char>)
    ensures r == ShapedWord(input)
  {
    var persian := IsPersian(input);
    if !persian {
      return input;
    }
    var shapedInput := ResolveRunes(input);
    r := Reverse(shapedInput);
  }

  // ---------------------------------------------------------------- properties

  /** A word that is not Persian text is returned unchanged. */
  lemma ShapedWordNotPersian(w: seq<char>)
    requires !PersianText(w)
    ensures ShapedWord(w) == w
  {
  }

  /** A Persian word keeps its length, and position `k` of the result holds
      the resolved form of position `|w| - 1 - k` of the word. */
  lemma ShapedWordIndex(w: seq<char>, k: int)
    requires PersianText(w) && 0 <= k < |w|
    ensures |ShapedWord(w)| == |w|
    ensures ShapedWord(w)[k] == ResolveAt(w, |w| - 1 - k)
  {
    var r := Resolved(w);
    var j := |w| - 1 - k;
    assert r[j] == ResolveAt(w, j);
    assert ShapedWord(w) == Reversed(r);
    ReversedIndex(r, k);
  }

  /** In a Persian word, a code point of the table at position `i` becomes
      the glyph chosen from its neighbour positions alone: it joins after it
      when `i` is not last, and before it when `i` is not first and the code
      point before it is not non-left-joining. Any other code point is copied
      unchanged. */
  lemma ShapedWordForms(w: seq<char>, i: int)
    requires PersianText(w) && 0 <= i < |w|
    ensures |ShapedWord(w)| == |w|
    ensures InTable(w[i]) ==>
      ShapedWord(w)[|w| - 1 - i] ==
        ShapeOf(w[i]).value.Glyph(FormOf(i > 0 && w[i - 1] !in NonLeftJoiningLetters, i < |w| - 1))
    ensures !InTable(w[i]) ==> ShapedWord(w)[|w| - 1 - i] == w[i]
  {
    ShapedWordIndex(w, |w| - 1 - i);
  }

  /** A three-letter word of joining letters: the first letter takes its
      initial form, the middle one its medial form and the last its final
      form, and the result lists them last to first. */
  lemma ThreeJoiningLetters(w: seq<char>)
    requires |w| == 3 && InTable(w[0]) && InTable(w[1]) && InTable(w[2])
    requires w[0] !in NonLeftJoiningLetters && w[1] !in NonLeftJoiningLetters
    ensures ShapedWord(w) == [ShapeOf(w[2]).value.final, ShapeOf(w[1]).value.medial, ShapeOf(w[0]).value.initial]
  {
    TableInArabicBlock();
    assert PersianText(w);
    ShapedWordForms(w, 0);
    ShapedWordForms(w, 1);
    ShapedWordForms(w, 2);
  }

  /** Each code point mapped back to the base letter it stands for. */
  function UnshapeAll(s: seq<char>): (r: seq<char>)
    ensures |r| == |s|
  {
    seq(|s|, i requires 0 <= i < |s| => Unshape(s[i]))
  }

  /** Shaping a Persian word, reversing the result and mapping each glyph
      back to its base letter gives the word back. */
  lemma ShapeRoundTrip(w: seq<char>)
    requires PersianText(w)
    ensures UnshapeAll(Reversed(ShapedWord(w))) == w
  {
    ReversedTwice(Resolved(w));
    var u := UnshapeAll(Reversed(ShapedWord(w)));
    forall i | 0 <= i < |w|
      ensures u[i] == w[i]
    {
      if InTable(w[i]) {
        UnshapeGlyph(w[i], FormOf(JoinsBack(GroupAt(w, i)), GroupAt(w, i).front.Some?));
      } else {
        UnshapeFixesText(w[i]);
      }
    }
  }

  /** No code point of Persian text is U+0000, the value main.go uses for an
      absent neighbour; so `None` here and rune 0 there mark the same
      positions. */
  lemma NoSentinelInPersianText(w: seq<char>)
    requires PersianText(w)
    ensures forall i :: 0 <= i < |w| ==> w[i] != '\0'
  {
  }
}
