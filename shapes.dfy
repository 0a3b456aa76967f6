/**
 * The letter-shape table of main.go, the non-left-joining letters, and
 * positional-form resolution (`adjustLetter`).
 */
module Shapes {
  import opened Wrappers
  import opened Classify
  import Text

  /** The four glyphs of one letter, in Arabic Presentation Forms-A/B. */
  datatype LetterShape = LetterShape(isolated: char, initial: char, medial: char, final: char)
  {
    function Glyph(f: Form): char {
      match f
      case Isolated => isolated
      case Initial => initial
      case Medial => medial
      case Final => final
    }
  }

  /** A positional form. */
  datatype Form = Isolated | Initial | Medial | Final

  /** A code point of Arabic Presentation Forms-A (U+FB50..U+FDFF) or
      Arabic Presentation Forms-B (U+FE70..U+FEFF). */
  predicate IsPresentationForm(g: char) {
    ('\U{FB50}' <= g <= '\U{FDFF}') || ('\U{FE70}' <= g <= '\U{FEFF}')
  }

  /** `persianAlphabetShapes`: for a key of the table (a base letter, by
      code point) its four glyphs; `None` for any other code point. Every
      key is in the Arabic block; every glyph is a presentation form, except
      that an initial form may be the base letter itself. */
  function ShapeOf(c: char): (r: Option<LetterShape>)
    ensures r.Some? ==> IsPersianLetter(c)
    ensures r.Some? ==>
      && IsPresentationForm(r.value.isolated)
      && IsPresentationForm(r.value.final)
      && IsPresentationForm(r.value.medial)
      && (r.value.initial == c || IsPresentationForm(r.value.initial))
  {
    match c as int
    case 0x0622 => Some(LetterShape('\U{FE81}', '\U{0622}', '\U{FE82}', '\U{FE82}'))
    case 0x0627 => Some(LetterShape('\U{FE8D}', '\U{0627}', '\U{FE8E}', '\U{FE8E}'))
    case 0x0628 => Some(LetterShape('\U{FE8F}', '\U{FE91}', '\U{FE92}', '\U{FE90}'))
    case 0x067E => Some(LetterShape('\U{FB56}', '\U{FB58}', '\U{FB59}', '\U{FB57}'))
    case 0x062A => Some(LetterShape('\U{FE95}', '\U{FE97}', '\U{FE98}', '\U{FE96}'))
    case 0x062B => Some(LetterShape('\U{FE99}', '\U{FE9B}', '\U{FE9C}', '\U{FE9A}'))
    case 0x062C => Some(LetterShape('\U{FE9D}', '\U{FE9F}', '\U{FEA0}', '\U{FE9E}'))
    case 0x0686 => Some(LetterShape('\U{FB7A}', '\U{FB7C}', '\U{FB7D}', '\U{FB7B}'))
    case 0x062D => Some(LetterShape('\U{FEA1}', '\U{FEA3}', '\U{FEA4}', '\U{FEA2}'))
    case 0x062E => Some(LetterShape('\U{FEA5}', '\U{FEA7}', '\U{FEA8}', '\U{FEA6}'))
    case 0x062F => Some(LetterShape('\U{FEA9}', '\U{062F}', '\U{FEAA}', '\U{FEAA}'))
    case 0x0630 => Some(LetterShape('\U{FEAB}', '\U{0630}', '\U{FEAC}', '\U{FEAC}'))
    case 0x0631 => Some(LetterShape('\U{FEAD}', '\U{0631}', '\U{FEAE}', '\U{FEAE}'))
    case 0x0632 => Some(LetterShape('\U{FEAF}', '\U{0632}', '\U{FEB0}', '\U{FEB0}'))
    case 0x0698 => Some(LetterShape('\U{FB8A}', '\U{0698}', '\U{FB8B}', '\U{FB8B}'))
    case 0x0633 => Some(LetterShape('\U{FEB1}', '\U{FEB3}', '\U{FEB4}', '\U{FEB2}'))
    case 0x0634 => Some(LetterShape('\U{FEB5}', '\U{FEB7}', '\U{FEB8}', '\U{FEB6}'))
    case 0x0635 => Some(LetterShape('\U{FEB9}', '\U{FEBB}', '\U{FEBC}', '\U{FEBA}'))
    case 0x0636 => Some(LetterShape('\U{FEBD}', '\U{FEBF}', '\U{FEC0}', '\U{FEBE}'))
    case 0x0637 => Some(LetterShape('\U{FEC1}', '\U{FEC3}', '\U{FEC4}', '\U{FEC2}'))
    case 0x0638 => Some(LetterShape('\U{FEC5}', '\U{FEC7}', '\U{FEC8}', '\U{FEC6}'))
    case 0x0639 => Some(LetterShape('\U{FEC9}', '\U{FECB}', '\U{FECC}', '\U{FECA}'))
    case 0x063A => Some(LetterShape('\U{FECD}', '\U{FECF}', '\U{FED0}', '\U{FECE}'))
    case 0x0641 => Some(LetterShape('\U{FED1}', '\U{FED3}', '\U{FED4}', '\U{FED2}'))
    case 0x0642 => Some(LetterShape('\U{FED5}', '\U{FED7}', '\U{FED8}', '\U{FED6}'))
    case 0x06A9 => Some(LetterShape('\U{FB8E}', '\U{FB90}', '\U{FB91}', '\U{FB8F}'))
    case 0x06AF => Some(LetterShape('\U{FB92}', '\U{FB94}', '\U{FB95}', '\U{FB93}'))
    case 0x0644 => Some(LetterShape('\U{FEDD}', '\U{FEDF}', '\U{FEE0}', '\U{FEDE}'))
    case 0x0645 => Some(LetterShape('\U{FEE1}', '\U{FEE3}', '\U{FEE4}', '\U{FEE2}'))
    case 0x0646 => Some(LetterShape('\U{FEE5}', '\U{FEE7}', '\U{FEE8}', '\U{FEE6}'))
    case 0x0648 => Some(LetterShape('\U{FEED}', '\U{0648}', '\U{FEEE}', '\U{FEEE}'))
    case 0x0647 => Some(LetterShape('\U{FEE9}', '\U{FEEB}', '\U{FEEC}', '\U{FEEA}'))
    case 0x06CC => Some(LetterShape('\U{FBFC}', '\U{FBFE}', '\U{FBFF}', '\U{FBFD}'))
    case _ => None
  }

  predicate InTable(c: char) {
    ShapeOf(c).Some?
  }

  /** The letters that do not join the letter after them. */
  const NonLeftJoiningLetters: seq<char> :=
    ['\U{0627}', '\U{0622}', '\U{0698}', '\U{062F}', '\U{0630}', '\U{0631}', '\U{0632}', '\U{0648}']

  /** Linear membership scan, first to last. */
  function Scan(items: seq<char>, letter: char): (found: bool)
    ensures found <==> exists i :: 0 <= i < |items| && items[i] == letter
  {
    if items == [] then false
    else items[0] == letter || Scan(items[1..], letter)
  }

  /** `isNoneLeftJoiningLetter`. */
  function IsNonLeftJoiningLetter(letter: char): (b: bool)
    ensures b <==> letter in NonLeftJoiningLetters
  {
    Scan(NonLeftJoiningLetters, letter)
  }

  /** `letterGroup`: a letter with the letters before and after it, each
      possibly absent. */
  datatype LetterGroup = LetterGroup(back: Option<char>, letter: char, front: Option<char>)

  /** The letter joins the one before it: there is one, and it joins the
      letter after it. */
  predicate JoinsBack(g: LetterGroup) {
    g.back.Some? && !IsNonLeftJoiningLetter(g.back.value)
  }

  /** The form of a letter from whether it connects before and after. */
  function FormOf(joinedBefore: bool, joinedAfter: bool): Form {
    if joinedBefore then (if joinedAfter then Medial else Final)
    else (if joinedAfter then Initial else Isolated)
  }

  /** `adjustLetter`: the switch over the presence of the two neighbours.
      Read as joining: a letter connects after it whenever a letter follows,
      and before it exactly when the letter before it exists and is not
      non-left-joining; the glyph is the table's form for that pair of
      connections. */
  function AdjustLetter(g: LetterGroup): (r: char)
    requires InTable(g.letter)
    ensures r == ShapeOf(g.letter).value.Glyph(FormOf(JoinsBack(g), g.front.Some?))
  {
    var shape := ShapeOf(g.letter).value;
    if g.back.Some? && g.front.Some? then
      if IsNonLeftJoiningLetter(g.back.value) then shape.initial else shape.medial
    else if g.back.None? && g.front.Some? then
      shape.initial
    else if g.back.Some? && g.front.None? then
      if IsNonLeftJoiningLetter(g.back.value) then shape.isolated else shape.final
    else
      shape.isolated
  }

  /** The four cases of the switch, each stated on its own. */
  lemma AdjustLetterCases(back: char, letter: char, front: char)
    requires InTable(letter)
    ensures AdjustLetter(LetterGroup(Some(back), letter, Some(front))) ==
            if back in NonLeftJoiningLetters then ShapeOf(letter).value.initial
            else ShapeOf(letter).value.medial
    ensures AdjustLetter(LetterGroup(None, letter, Some(front))) == ShapeOf(letter).value.initial
    ensures AdjustLetter(LetterGroup(Some(back), letter, None)) ==
            if back in NonLeftJoiningLetters then ShapeOf(letter).value.isolated
            else ShapeOf(letter).value.final
    ensures AdjustLetter(LetterGroup(None, letter, None)) == ShapeOf(letter).value.isolated
  {
  }

  /** Every letter of the table is in the Arabic block. */
  lemma TableInArabicBlock()
    ensures forall k :: InTable(k) ==> IsPersianLetter(k)
  {
  }

  /** The glyphs sit in Unicode's order, isolated, final, initial, medial,
      on consecutive code points inside one of the two presentation-form
      blocks. A non-left-joining letter has only the first two; its initial
      form is the base letter and its medial form is its final form. */
  lemma TableLayout(k: char)
    requires InTable(k)
    ensures var sh := ShapeOf(k).value;
      && ((0xFB50 <= sh.isolated as int && sh.isolated as int + 3 <= 0xFDFF)
          || (0xFE70 <= sh.isolated as int && sh.isolated as int + 3 <= 0xFEFF))
      && sh.final as int == sh.isolated as int + 1
      && if k in NonLeftJoiningLetters then sh.initial == k && sh.medial == sh.final
         else sh.initial as int == sh.isolated as int + 2 && sh.medial as int == sh.isolated as int + 3
  {
  }

  /** The non-left-joining letters are all in the table, and they are exactly
      the table letters whose initial form is the base letter itself. */
  lemma NonLeftJoiningInTable()
    ensures forall i :: 0 <= i < |NonLeftJoiningLetters| ==> InTable(NonLeftJoiningLetters[i])
    ensures forall k :: InTable(k) ==> (IsNonLeftJoiningLetter(k) <==> ShapeOf(k).value.initial == k)
  {
    forall k | InTable(k)
      ensures IsNonLeftJoiningLetter(k) <==> ShapeOf(k).value.initial == k
    {
      TableLayout(k);
    }
  }

  // ---------------------------------------------------------------- inverse

  /** Number of presentation-form glyphs of a table letter. */
  function GlyphCount(k: char): nat {
    if k in NonLeftJoiningLetters then 2 else 4
  }

  /** The letter whose isolated glyph is the code point `n`, if any. */
  function LetterAtBlockStart(n: int): Option<char> {
    match n
    case 0xFB56 => Some('\U{067E}')
    case 0xFB7A => Some('\U{0686}')
    case 0xFB8A => Some('\U{0698}')
    case 0xFB8E => Some('\U{06A9}')
    case 0xFB92 => Some('\U{06AF}')
    case 0xFBFC => Some('\U{06CC}')
    case 0xFE81 => Some('\U{0622}')
    case 0xFE8D => Some('\U{0627}')
    case 0xFE8F => Some('\U{0628}')
    case 0xFE95 => Some('\U{062A}')
    case 0xFE99 => Some('\U{062B}')
    case 0xFE9D => Some('\U{062C}')
    case 0xFEA1 => Some('\U{062D}')
    case 0xFEA5 => Some('\U{062E}')
    case 0xFEA9 => Some('\U{062F}')
    case 0xFEAB => Some('\U{0630}')
    case 0xFEAD => Some('\U{0631}')
    case 0xFEAF => Some('\U{0632}')
    case 0xFEB1 => Some('\U{0633}')
    case 0xFEB5 => Some('\U{0634}')
    case 0xFEB9 => Some('\U{0635}')
    case 0xFEBD => Some('\U{0636}')
    case 0xFEC1 => Some('\U{0637}')
    case 0xFEC5 => Some('\U{0638}')
    case 0xFEC9 => Some('\U{0639}')
    case 0xFECD => Some('\U{063A}')
    case 0xFED1 => Some('\U{0641}')
    case 0xFED5 => Some('\U{0642}')
    case 0xFEDD => Some('\U{0644}')
    case 0xFEE1 => Some('\U{0645}')
    case 0xFEE5 => Some('\U{0646}')
    case 0xFEE9 => Some('\U{0647}')
    case 0xFEED => Some('\U{0648}')
    case _ => None
  }

  /** The letter whose block of glyphs holds `g`: a block opens at most three
      code points below `g`, and a block of two glyphs reaches one above its
      start only. */
  function BlockOwner(g: char): Option<char> {
    var n := g as int;
    if LetterAtBlockStart(n).Some? then LetterAtBlockStart(n)
    else if LetterAtBlockStart(n - 1).Some? then LetterAtBlockStart(n - 1)
    else if LetterAtBlockStart(n - 2).Some? && GlyphCount(LetterAtBlockStart(n - 2).value) == 4 then LetterAtBlockStart(n - 2)
    else if LetterAtBlockStart(n - 3).Some? && GlyphCount(LetterAtBlockStart(n - 3).value) == 4 then LetterAtBlockStart(n - 3)
    else None
  }

  /** The base letter a glyph stands for; any other code point, base letters
      included, stands for itself. */
  function Unshape(g: char): char {
    match BlockOwner(g)
    case Some(k) => k
    case None => g
  }

  /** The isolated glyph of each letter opens that letter's block. */
  lemma BlockStartOwned(k: char)
    requires InTable(k)
    ensures LetterAtBlockStart(ShapeOf(k).value.isolated as int) == Some(k)
  {
  }

  /** No other block opens inside the block of a letter. */
  lemma BlockInteriorFree(k: char)
    requires InTable(k)
    ensures var b := ShapeOf(k).value.isolated as int;
      && LetterAtBlockStart(b + 1) == None
      && (GlyphCount(k) == 4 ==> LetterAtBlockStart(b + 2) == None && LetterAtBlockStart(b + 3) == None)
  {
  }

  /** The isolated and final glyphs of a letter belong to its block, and so do
      the initial and medial ones of a letter that joins on both sides. */
  lemma BlockOwnerOfGlyphs(k: char)
    requires InTable(k)
    ensures var sh := ShapeOf(k).value;
      && BlockOwner(sh.isolated) == Some(k)
      && BlockOwner(sh.final) == Some(k)
      && (k !in NonLeftJoiningLetters ==> BlockOwner(sh.initial) == Some(k) && BlockOwner(sh.medial) == Some(k))
  {
    TableLayout(k);
    BlockStartOwned(k);
    BlockInteriorFree(k);
  }

  /** Every glyph of a table letter maps back to that letter. */
  lemma UnshapeGlyph(k: char, f: Form)
    requires InTable(k)
    ensures Unshape(ShapeOf(k).value.Glyph(f)) == k
  {
    var sh := ShapeOf(k).value;
    BlockOwnerOfGlyphs(k);
    match f
    case Isolated =>
    case Final =>
    case Initial =>
      if k in NonLeftJoiningLetters {
        TableLayout(k);
        UnshapeFixesText(k);
      }
    case Medial =>
      if k in NonLeftJoiningLetters {
        TableLayout(k);
      }
  }

  /** Persian-block code points and white space are left alone by Unshape. */
  lemma UnshapeFixesText(c: char)
    requires IsPersianLetter(c) || Text.IsSpace(c)
    ensures Unshape(c) == c
  {
  }
}
