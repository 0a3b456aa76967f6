# go-persian-text in Dafny

This project models `main.go` of go-persian-text. That file is a small
shaping pipeline for Persian (Arabic-script) text that is meant for a
renderer without a shaping engine. It has four parts:

- **Positional forms.** `persianAlphabetShapes` maps each of 33 base letters
  to four glyphs: isolated, initial, medial and final. These are code points
  of the Arabic Presentation Forms blocks, except that the initial form of
  each of the eight non-left-joining letters is the base letter itself. `adjustLetter` picks one of the four. It looks at whether
  the letter has a neighbour on each side and at whether the letter before it
  is one of the eight non-left-joining letters (`isNoneLeftJoiningLetter`).
- **Word shaping.** `shapeWord` leaves a word that is not Persian text as it
  is. Otherwise it replaces every table letter with its resolved glyph,
  copies every other code point, and reverses the result (`reverse`).
- **Sentence reshaping.** `ReShape` cuts the input into maximal runs of
  Arabic-block code points (U+0600..U+06FF) and of other code points, and
  trims each run. A section that is Persian text is split into words, and
  each word is shaped. Any other section is kept as one unit. The list of
  units is then reversed in place and joined with single spaces.
- **Classifiers and digits.** `IsPersianLetter` is a range test and
  `IsPersian` is an all-code-points test. `ToPersianDigits` and
  `ToEnglishDigits` swap between ASCII digits and the Extended Arabic-Indic
  digits U+06F0..U+06F9.

Strings are sequences of code points (`seq<char>`).

The model follows the form of the source:

- The loops of `ReShape`, `shapeWord`, `reverse` and `IsPersian` are
  methods with loop invariants. Each one is proved equal to a specification
  function: `Sections`, `Units`, `ReShaped`, `Resolved`, `ShapedWord`,
  `Reversed` and `PersianText`.
- The properties the program promises are lemmas about those functions.
- `adjustLetter`, `isNoneLeftJoiningLetter`, the table and the digit maps
  are pure functions.

Files and modules:

| file | module | contents |
|---|---|---|
| `wrappers.dfy` | `Wrappers` | `Option`, for a neighbour that may be absent |
| `text.dfy` | `Text` | stand-ins for `unicode.IsSpace`, `strings.TrimSpace`, `strings.Fields` and `strings.Join`; the reference reversal `Reversed` |
| `classify.dfy` | `Classify` | `IsPersianLetter`, `IsPersian` |
| `shapes.dfy` | `Shapes` | the table, `isNoneLeftJoiningLetter`, `adjustLetter`, and an inverse map from glyphs to base letters |
| `shaping.dfy` | `Shaping` | `reverse`, `shapeWord` |
| `reshape.dfy` | `Reshape` | `ReShape`: segmentation, shaping of sections, unit reversal, join |
| `digits.dfy` | `Digits` | `ToPersianDigits`, `ToEnglishDigits` |

Some structural choices:

- `shapeWord` is split in two. Its loop is the method `ResolveRunes`; the
  early return and the final `reverse` stay in `ShapeWord`.
- The in-place reversal of `shapedSentence` is `ReverseUnits`. It works on
  an `array` and is generic in the element type.
- The rune `0` that `shapeWord` uses for a missing neighbour is an `Option`
  here. `NoSentinelInPersianText` shows that the two agree: no code point of
  a Persian-text word is U+0000.

### Behaviour worth knowing

- A section that is not Persian text is never split into words. So
  `ReShape("hello world")` is `"hello world"`, not the words in reverse
  order: `Reshape.ReShapedOtherText` proves that input without Persian-block
  code points comes back trimmed and otherwise unchanged.
- The length test on an accumulator is made before trimming (main.go:99-100,
  112-113), so a run of white space is appended as an empty section. It then
  contributes no unit, because `IsPersian("")` holds and `strings.Fields("")`
  is empty. `Reshape.SectionOfRun` states this as `RunUnit(r) == []` for a
  blank run.
- White space lies outside U+0600..U+06FF, so it never belongs to a
  Persian-block run: it shares a run with the other non-Persian code points
  around it. A Persian section is therefore always a single word, and two
  Persian words with white space between them come out as two units
  (`Reshape.ReShapedTwoWords`).

## Model

| member | source | states |
|---|---|---|
| `Shapes.ShapeOf` | main.go:21-89 | every key of the table is in the Arabic block; its isolated, final and medial glyphs are presentation forms (U+FB50..U+FDFF or U+FE70..U+FEFF), and its initial glyph is a presentation form or the base letter itself |
| `Shapes.AdjustLetter` | main.go:179-203 | the glyph is the table's form for the pair (joins before, joins after): the letter joins after when a letter follows, and before when a letter precedes that is not non-left-joining |
| `Shapes.IsNonLeftJoiningLetter` | main.go:206-214 | true exactly when the letter is one of the eight non-left-joining letters |
| `Shapes.Scan` | main.go:208-212 | the linear scan finds the letter exactly when some position holds it |
| `Shapes.AdjustLetterCases` | main.go:179-203 | the four cases of the switch: with both neighbours, initial after a non-left-joining letter and medial otherwise; initial with no letter before; isolated after a non-left-joining letter and final otherwise when no letter follows; isolated with no neighbours |
| `Shapes.TableInArabicBlock` | main.go:21-89 | every key of the table is in U+0600..U+06FF, so a table letter is a Persian letter |
| `Shapes.TableLayout` | main.go:21-89 | each letter's glyphs sit on consecutive code points in Unicode order (isolated, final, initial, medial), all inside U+FB50..U+FDFF or all inside U+FE70..U+FEFF. A non-left-joining letter's initial form is the base letter and its medial form equals its final form |
| `Shapes.NonLeftJoiningInTable` | main.go:206-214 | the eight non-left-joining letters are keys of the table, and they are exactly the keys whose initial form is the base letter |
| `Shapes.BlockStartOwned` | main.go:21-89 | each letter's isolated glyph opens a block that maps back to that letter |
| `Shapes.BlockInteriorFree` | main.go:21-89 | no other letter's block starts inside a letter's two or four glyphs |
| `Shapes.BlockOwnerOfGlyphs` | main.go:21-89 | every presentation-form glyph of a letter lies in that letter's block |
| `Shapes.UnshapeGlyph` | main.go:21-89 | each of the four glyphs of a table letter maps back to that letter, so no glyph is shared between letters |
| `Shapes.UnshapeFixesText` | main.go:217-219 | a Persian-block or white-space code point maps back to itself |
| `Classify.IsPersianLetter` | main.go:217-219 | a Persian letter is neither white space nor U+0000 |
| `Classify.PersianLetterBounds` | main.go:217-219 | U+0600 and U+06FF are Persian letters; U+05FF and U+0700 are not |
| `Classify.PersianLetterNotSpace` | main.go:217-219 | no Persian letter is white space, and U+0000 is neither |
| `Classify.IsPersian` | main.go:222-230 | the scan returns true exactly when every code point is white space or a Persian letter |
| `Classify.PersianTextEmpty` | main.go:222-230 | the empty string is Persian text |
| `Text.ReversedIndex` | main.go:170-176 | reversal sends index k to index n-1-k |
| `Text.ReversedTwice` | main.go:170-176 | reversal is an involution |
| `Text.TrimSpaceShape` | main.go:100 | the trimmed string is a slice of the input starting after its leading white space and followed only by white space; it is empty exactly when the input is all white space; it has no white space at either end |
| `Text.Fields` | main.go:122 | every field is non-empty and free of white space |
| `Text.FieldsKeepNonSpace` | main.go:122 | the fields, concatenated, are the input with its white space removed |
| `Text.FieldsOfWord` | main.go:122 | a non-empty word without white space is its own single field |
| `Text.FieldsOfBlank` | main.go:122 | an all-white-space string has no fields |
| `Text.FieldsSkip` | main.go:122 | white space in front of a string adds no field |
| `Text.FieldsSplit` | main.go:122 | a non-empty word followed by white space is one field, followed by the fields of the rest. With `FieldsSkip`, `FieldsOfWord` and `FieldsOfBlank` this fixes every result of `Fields` |
| `Text.JoinLength` | main.go:135 | the joined string is as long as all elements together plus one separator between each pair of neighbours |
| `Shaping.Reverse` | main.go:170-176 | the two-pointer swap loop returns the reversal of its input |
| `Shaping.ResolveRunes` | main.go:144-164 | the loop writes, at each position, the glyph `adjustLetter` picks from the neighbours at the previous and next index when the code point is a key of the table, and the code point itself otherwise |
| `Shaping.ShapeWord` | main.go:139-167 | a word that is not Persian text is returned as it is; otherwise the resolved code points are returned in reverse order |
| `Shaping.ShapedWordNotPersian` | main.go:140-142 | a word that is not Persian text is returned unchanged |
| `Shaping.ShapedWordIndex` | main.go:147-166 | a Persian word keeps its length, and position k holds the resolved form of position n-1-k |
| `Shaping.ShapedWordForms` | main.go:147-166 | in a Persian word, a table letter at i becomes the table glyph for (i > 0 and the previous letter is not non-left-joining, i < n-1) at position n-1-i. Neighbour presence depends on the index only. Any other code point is copied unchanged |
| `Shaping.ThreeJoiningLetters` | main.go:147-166 | three joining table letters come out as final, medial, initial, last to first |
| `Shaping.ShapeRoundTrip` | main.go:139-167 | reversing a shaped Persian word and mapping each glyph back to its base letter restores the word |
| `Shaping.NoSentinelInPersianText` | main.go:149-156 | no code point of a Persian-text word is U+0000, the value the code uses for a missing neighbour |
| `Reshape.Runs` | main.go:97-117 | the runs are empty exactly when the input is |
| `Reshape.RunsSplit` | main.go:97-117 | the runs concatenate back to the input; each is non-empty and holds one class only (Persian-block or not); neighbouring runs differ in class |
| `Reshape.RunSplitUnique` | main.go:97-117 | any cut of the input into such maximal runs is the one the segmentation loop makes |
| `Reshape.SingleRun` | main.go:97-117 | a non-empty stretch of one class is a single run |
| `Reshape.SplitSections` | main.go:93-117 | the segmentation loop, including the appends after it, returns every maximal run trimmed, in input order |
| `Reshape.ShapeSections` | main.go:119-128 | the units are, section by section, the shaped words of each Persian-text section and each other section as it is |
| `Reshape.ReverseUnits` | main.go:131-134 | the swap loop from the middle outwards leaves the array reversed |
| `Reshape.ReShape` | main.go:92-136 | the output is the reversed list of units joined with one space |
| `Reshape.SectionOfRun` | main.go:100-128 | a trimmed run gives one shaped word if it is Persian-block, nothing if it is blank, and itself trimmed otherwise |
| `Reshape.UnitsOfRuns` | main.go:97-128 | the units of the trimmed runs are those of the runs, in run order |
| `Reshape.ReShapedByRuns` | main.go:92-136 | the output is the units of the input's maximal runs, in reverse order, one space apart |
| `Reshape.ReShapedOfSplit` | main.go:92-136 | the same holds for any maximal cut of the input into runs |
| `Reshape.ReShapedEmpty` | main.go:92-136 | the empty input gives the empty output |
| `Reshape.ReShapedOtherText` | main.go:92-136 | input with no Persian-block code point comes back trimmed, its words in their original order |
| `Reshape.ReShapedPersianWord` | main.go:92-136 | a single Persian-block word comes back shaped |
| `Reshape.ReShapedPersianThenOther` | main.go:92-136 | a Persian word followed by other text gives the trimmed other text, a space, then the shaped word |
| `Reshape.ReShapedOtherThenPersian` | main.go:92-136 | other text followed by a Persian word gives the shaped word, a space, then the trimmed other text |
| `Reshape.ReShapedTwoWords` | main.go:92-136 | two Persian words separated by white space come back shaped, in swapped order, one space apart |
| `Digits.ToPersianDigits` | main.go:233-246 | the length is kept, and each code point is replaced where it stands by its one-code-point replacement |
| `Digits.ToEnglishDigits` | main.go:249-262 | the length is kept, and each code point is replaced where it stands by its one-code-point replacement |
| `Digits.DigitPairs` | main.go:233-262 | the ten pairs of each replacer: ASCII `0`..`9` and U+06F0..U+06F9 |
| `Digits.PersianDigitsPointwise` | main.go:233-246 | length is kept; each ASCII digit becomes the Persian digit of the same value; other code points stay in place; no ASCII digit is left |
| `Digits.EnglishDigitsPointwise` | main.go:249-262 | length is kept; each Persian digit becomes the ASCII digit of the same value; other code points stay in place; no Persian digit is left |
| `Digits.EnglishAfterPersian` | main.go:233-262 | text without Persian digits is restored by `ToEnglishDigits` after `ToPersianDigits` |
| `Digits.PersianAfterEnglish` | main.go:233-262 | text without ASCII digits is restored by `ToPersianDigits` after `ToEnglishDigits` |
| `Digits.PersianDigitsIdempotent` | main.go:233-246 | a second `ToPersianDigits` changes nothing |
| `Digits.EnglishDigitsIdempotent` | main.go:249-262 | a second `ToEnglishDigits` changes nothing |
| `Digits.PersianDigitsAppend` | main.go:233-246 | the replacement commutes with concatenation |

## Left out

- UTF-8 decoding by `range` over a string and by `[]rune(...)`, including the substitution of U+FFFD for invalid bytes (main.go:97, 147, 171). Strings are code-point sequences here.
- The byte length `len(...)` in the accumulator tests of `ReShape` is modelled as "not empty", which is the same test.
- `unicode.IsSpace`: the Unicode tables are not modelled. Its white-space set is written out as a list of code points (`Text.IsSpace`).
- `strings.Fields` and `strings.TrimSpace` are defined over that predicate, not through their library code.
- The trie inside `strings.NewReplacer`. Only the per-code-point substitution it performs for single-code-point keys is modelled.
- `bytes.Buffer` in `shapeWord` is an append to a sequence.
- Concurrency: there is none, and the table is read-only.
