/**
 * `ReShape` of main.go: the input is cut into maximal runs of Persian-block
 * and other code points, each run is trimmed, Persian sections are split
 * into words and shaped, and the units are put in reverse order and joined
 * with one space.
 */
module Reshape {
  import opened Text
  import opened Classify
  import opened Shaping

  // ---------------------------------------------------------------- runs

  /** Two code points of the same script class (Persian block or not). */
  predicate SameScript(a: char, b: char) {
    IsPersianLetter(a) == IsPersianLetter(b)
  }

  /** A non-empty stretch of one script class. */
  predicate IsRun(r: seq<char>) {
    r != [] && forall k :: 0 <= k < |r| ==> SameScript(r[k], r[0])
  }

  /** `rs` cuts `s` into runs, and neighbouring runs differ in class, so no
      run could be longer. */
  predicate IsRunSplit(s: seq<char>, rs: seq<seq<char>>) {
    && Flatten(rs) == s
    && (forall i :: 0 <= i < |rs| ==> IsRun(rs[i]))
    && (forall i :: 0 < i < |rs| ==> !SameScript(rs[i - 1][0], rs[i][0]))
  }

  /** The runs of `s`, built one code point at a time as the loop of
      `ReShape` sees them: a code point of the class of the one before it
      extends the current run, any other starts a new run. */
  function Runs(s: seq<char>): (rs: seq<seq<char>>)
    ensures (rs == []) == (s == [])
    decreases |s|
  {
    if s == [] then []
    else
      var p := s[..|s| - 1];
      var c := s[|s| - 1];
      var rs := Runs(p);
      if p != [] && SameScript(p[|p| - 1], c) then rs[..|rs| - 1] + [rs[|rs| - 1] + [c]]
      else rs + [[c]]
  }

  /** The last code point of a flattening is the last code point of its last
      (non-empty) part. */
  lemma {:induction false} FlattenLast(xss: seq<seq<char>>)
    requires xss != [] && xss[|xss| - 1] != []
    ensures Flatten(xss) != []
    ensures Flatten(xss)[|Flatten(xss)| - 1] == xss[|xss| - 1][|xss[|xss| - 1]| - 1]
  {
  }

  /** One more code point either extends the last run or opens a new one. */
  lemma {:induction false} RunsStep(seen: seq<char>, c: char)
    ensures var rs := Runs(seen);
      if seen != [] && SameScript(seen[|seen| - 1], c)
      then Runs(seen + [c]) == rs[..|rs| - 1] + [rs[|rs| - 1] + [c]]
      else Runs(seen + [c]) == rs + [[c]]
  {
    assert (seen + [c])[..|seen|] == seen;
  }

  lemma {:induction false} RunSnoc(r: seq<char>, c: char)
    requires IsRun(r) && SameScript(r[|r| - 1], c)
    ensures IsRun(r + [c]) && (r + [c])[0] == r[0]
  {
  }

  /** A code point of the class of the one before it stretches the last
      run and keeps the split maximal. */
  lemma {:induction false} SplitExtend(p: seq<char>, rs: seq<seq<char>>, c: char)
    requires IsRunSplit(p, rs) && p != [] && SameScript(p[|p| - 1], c)
    ensures rs != [] && IsRunSplit(p + [c], rs[..|rs| - 1] + [rs[|rs| - 1] + [c]])
  {
    var init := rs[..|rs| - 1];
    var last := rs[|rs| - 1];
    assert rs == init + [last];
    FlattenSnoc(init, last);
    FlattenLast(rs);
    RunSnoc(last, c);
    FlattenSnoc(init, last + [c]);
    var rs' := init + [last + [c]];
    forall i | 0 <= i < |rs'|
      ensures IsRun(rs'[i])
    {
      if i < |rs'| - 1 { assert rs'[i] == rs[i]; }
    }
    forall i | 0 < i < |rs'|
      ensures !SameScript(rs'[i - 1][0], rs'[i][0])
    {
      assert rs'[i - 1] == rs[i - 1];
      assert rs'[i][0] == rs[i][0];
    }
  }

  /** A code point of the other class opens a new run and keeps the split
      maximal. */
  lemma {:induction false} SplitOpen(p: seq<char>, rs: seq<seq<char>>, c: char)
    requires IsRunSplit(p, rs) && (p != [] ==> !SameScript(p[|p| - 1], c))
    requires p == [] ==> rs == []
    ensures IsRunSplit(p + [c], rs + [[c]])
  {
    FlattenSnoc(rs, [c]);
    if p != [] {
      FlattenLast(rs);
    }
    var rs' := rs + [[c]];
    forall i | 0 < i < |rs'|
      ensures !SameScript(rs'[i - 1][0], rs'[i][0])
    {
      assert rs'[i - 1] == rs[i - 1];
    }
  }

  /** `Runs` cuts its input into maximal runs. */
  lemma {:induction false} RunsSplit(s: seq<char>)
    ensures IsRunSplit(s, Runs(s))
    decreases |s|
  {
    if s != [] {
      var p := s[..|s| - 1];
      var c := s[|s| - 1];
      assert s == p + [c];
      RunsSplit(p);
      RunsStep(p, c);
      if p != [] && SameScript(p[|p| - 1], c) {
        SplitExtend(p, Runs(p), c);
      } else {
        SplitOpen(p, Runs(p), c);
      }
    }
  }

  /** Dropping a last run of one code point leaves a maximal split of the
      rest, whose last code point is of the other class. */
  lemma {:induction false} SplitDropLast(s: seq<char>, rs: seq<seq<char>>)
    requires IsRunSplit(s, rs) && rs != [] && |rs[|rs| - 1]| == 1
    ensures s != [] && IsRunSplit(s[..|s| - 1], rs[..|rs| - 1])
    ensures s[..|s| - 1] != [] ==> !SameScript(s[|s| - 2], s[|s| - 1])
    ensures rs == rs[..|rs| - 1] + [[s[|s| - 1]]]
  {
    var init := rs[..|rs| - 1];
    var last := rs[|rs| - 1];
    assert rs == init + [last];
    FlattenSnoc(init, last);
    var p := s[..|s| - 1];
    assert Flatten(init) == p;
    assert last == [s[|s| - 1]];
    if p != [] {
      FlattenLast(init);
      var prev := init[|init| - 1];
      assert prev == rs[|rs| - 2];
      assert SameScript(prev[|prev| - 1], prev[0]);
      assert !SameScript(prev[0], last[0]);
      assert p[|p| - 1] == s[|s| - 2];
    }
  }

  /** Shortening a last run of several code points by one leaves a maximal
      split of the rest, whose last code point is of the same class. */
  lemma {:induction false} SplitShortenLast(s: seq<char>, rs: seq<seq<char>>)
    requires IsRunSplit(s, rs) && rs != [] && |rs[|rs| - 1]| > 1
    ensures |s| > 1
    ensures var last := rs[|rs| - 1];
      && IsRunSplit(s[..|s| - 1], rs[..|rs| - 1] + [last[..|last| - 1]])
      && SameScript(s[|s| - 2], s[|s| - 1])
      && rs == rs[..|rs| - 1] + [last[..|last| - 1] + [s[|s| - 1]]]
  {
    var n := |rs|;
    var init := rs[..n - 1];
    var last := rs[n - 1];
    assert rs == init + [last];
    FlattenSnoc(init, last);
    var c := s[|s| - 1];
    var short := last[..|last| - 1];
    assert last == short + [c];
    var rs' := init + [short];
    FlattenSnoc(init, short);
    assert Flatten(rs') == s[..|s| - 1];
    forall i | 0 <= i < |rs'|
      ensures IsRun(rs'[i])
    {
      if i < n - 1 { assert rs'[i] == rs[i]; }
    }
    forall i | 0 < i < |rs'|
      ensures !SameScript(rs'[i - 1][0], rs'[i][0])
    {
      assert rs'[i - 1] == rs[i - 1];
      assert rs'[i][0] == rs[i][0];
    }
    FlattenLast(rs');
  }

  /** The maximal runs are unique: any cut of `s` into runs whose neighbours
      differ in class is the one `Runs` computes. */
  lemma {:induction false} RunSplitUnique(s: seq<char>, rs: seq<seq<char>>)
    requires IsRunSplit(s, rs)
    ensures rs == Runs(s)
    decreases |s|
  {
    if rs != [] {
      var init := rs[..|rs| - 1];
      var last := rs[|rs| - 1];
      var p := s[..|s| - 1];
      var c := s[|s| - 1];
      if |last| == 1 {
        SplitDropLast(s, rs);
        RunSplitUnique(p, init);
      } else {
        SplitShortenLast(s, rs);
        RunSplitUnique(p, init + [last[..|last| - 1]]);
      }
      assert s == p + [c];
      RunsStep(p, c);
    }
  }

  /** A non-empty stretch of one class is a single run. */
  lemma {:induction false} SingleRun(s: seq<char>)
    requires IsRun(s)
    ensures Runs(s) == [s]
  {
    FlattenSnoc([], s);
    assert [] + [s] == [s];
    RunSplitUnique(s, [s]);
  }

  // ---------------------------------------------------------------- sections

  /** Every run, trimmed. */
  function TrimAll(rs: seq<seq<char>>): (ts: seq<seq<char>>)
    ensures |ts| == |rs|
  {
    if rs == [] then [] else TrimAll(rs[..|rs| - 1]) + [TrimSpace(rs[|rs| - 1])]
  }

  /** `langSections`: every run, trimmed, in input order. */
  function Sections(input: seq<char>): seq<seq<char>>
  {
    TrimAll(Runs(input))
  }

  lemma {:induction false} TrimAllSnoc(rs: seq<seq<char>>, r: seq<char>)
    ensures TrimAll(rs + [r]) == TrimAll(rs) + [TrimSpace(r)]
  {
    assert (rs + [r])[..|rs|] == rs;
  }

  /** `RunsStep` for a split of the runs into the closed ones and the
      current one. */
  lemma {:induction false} RunsExtend(seen: seq<char>, closed: seq<seq<char>>, cur: seq<char>, c: char)
    requires seen != [] && Runs(seen) == closed + [cur]
    ensures SameScript(seen[|seen| - 1], c) ==> Runs(seen + [c]) == closed + [cur + [c]]
    ensures !SameScript(seen[|seen| - 1], c) ==> Runs(seen + [c]) == (closed + [cur]) + [[c]]
  {
    RunsStep(seen, c);
    assert (closed + [cur])[..|closed|] == closed;
  }

  /** Where the segmentation loop stands after reading `seen`: the runs
      before the current one are `closed`, and the current run is held by
      exactly one of the two accumulators, the one of its class. */
  ghost predicate Holding(seen: seq<char>, closed: seq<seq<char>>, fa: seq<char>, lt: seq<char>)
  {
    if seen == [] then closed == [] && fa == [] && lt == []
    else
      && Runs(seen) == closed + [fa + lt]
      && (fa == [] || lt == [])
      && fa + lt != []
      && (fa != [] ==> IsPersianLetter(seen[|seen| - 1]))
      && (lt != [] ==> !IsPersianLetter(seen[|seen| - 1]))
  }

  /** A Persian-block code point closes an other-script run and extends the
      Persian one. */
  lemma {:induction false} PersianStep(seen: seq<char>, closed: seq<seq<char>>, fa: seq<char>, lt: seq<char>, c: char)
    requires Holding(seen, closed, fa, lt) && IsPersianLetter(c)
    ensures Holding(seen + [c], if lt != [] then closed + [lt] else closed, fa + [c], [])
  {
    var seen' := seen + [c];
    if seen == [] {
      assert seen' == [c] && seen'[..0] == [];
      assert Runs(seen') == [[c]];
      assert fa + [c] + [] == [c];
    } else {
      RunsExtend(seen, closed, fa + lt, c);
      if lt != [] {
        assert fa + lt == lt && !SameScript(seen[|seen| - 1], c);
        assert Runs(seen') == (closed + [lt]) + [[c]];
        assert fa + [c] == [c];
      } else {
        assert fa + lt == fa && SameScript(seen[|seen| - 1], c);
      }
    }
    assert (fa + [c]) + [] == fa + [c];
    assert seen'[|seen'| - 1] == c;
  }

  /** Any other code point closes a Persian run and extends the other-script
      one. */
  lemma {:induction false} OtherStep(seen: seq<char>, closed: seq<seq<char>>, fa: seq<char>, lt: seq<char>, c: char)
    requires Holding(seen, closed, fa, lt) && !IsPersianLetter(c)
    ensures Holding(seen + [c], if fa != [] then closed + [fa] else closed, [], lt + [c])
  {
    var seen' := seen + [c];
    if seen == [] {
      assert seen' == [c] && seen'[..0] == [];
      assert Runs(seen') == [[c]];
      assert [] + (lt + [c]) == [c];
    } else {
      RunsExtend(seen, closed, fa + lt, c);
      if fa != [] {
        assert fa + lt == fa && !SameScript(seen[|seen| - 1], c);
        assert Runs(seen') == (closed + [fa]) + [[c]];
        assert lt + [c] == [c];
      } else {
        assert fa + lt == lt && SameScript(seen[|seen| - 1], c);
      }
    }
    assert [] + (lt + [c]) == lt + [c];
    assert (seen + [c])[|seen + [c]| - 1] == c;
  }

  /** The segmentation loop of `ReShape`: `continuousLangFa` collects
      Persian-block code points and `continuousLangLt` the others; when the
      class changes, the run just ended is trimmed and appended. */
  method SplitSections(input: seq<char>) returns (langSections: seq<seq<char>>)
    ensures langSections == Sections(input)
  {
    langSections := [];
    var continuousLangFa: seq<char> := [];
    var continuousLangLt: seq<char> := [];
    ghost var closed: seq<seq<char>> := [];
    for i := 0 to |input|
      invariant Holding(input[..i], closed, continuousLangFa, continuousLangLt)
      invariant langSections == TrimAll(closed)
    {
      var letter := input[i];
      assert input[..i + 1] == input[..i] + [letter];
      if IsPersianLetter(letter) {
        PersianStep(input[..i], closed, continuousLangFa, continuousLangLt, letter);
        if |continuousLangLt| > 0 {
          TrimAllSnoc(closed, continuousLangLt);
          closed := closed + [continuousLangLt];
          langSections := langSections + [TrimSpace(continuousLangLt)];
        }
        continuousLangLt := [];
        continuousLangFa := continuousLangFa + [letter];
      } else {
        OtherStep(input[..i], closed, continuousLangFa, continuousLangLt, letter);
        if |continuousLangFa| > 0 {
          TrimAllSnoc(closed, continuousLangFa);
          closed := closed + [continuousLangFa];
          langSections := langSections + [TrimSpace(continuousLangFa)];
        }
        continuousLangFa := [];
        continuousLangLt := continuousLangLt + [letter];
      }
    }
    assert input[..|input|] == input;
    if |input| > 0 {
      TrimAllSnoc(closed, continuousLangFa + continuousLangLt);
      if |continuousLangLt| > 0 {
        assert continuousLangFa + continuousLangLt == continuousLangLt;
      } else {
        assert continuousLangFa + continuousLangLt == continuousLangFa;
      }
    }
    if |continuousLangLt| > 0 {
      langSections := langSections + [TrimSpace(continuousLangLt)];
    }
    if |continuousLangFa| > 0 {
      langSections := langSections + [TrimSpace(continuousLangFa)];
    }
  }

  // ---------------------------------------------------------------- units

  function ShapedAll(words: seq<seq<char>>): seq<seq<char>>
  {
    seq(|words|, k requires 0 <= k < |words| => ShapedWord(words[k]))
  }

  /** The units one section contributes: its shaped words when it is Persian
      text, otherwise the section itself. */
  function SectionUnits(section: seq<char>): seq<seq<char>>
  {
    if PersianText(section) then ShapedAll(Fields(section)) else [section]
  }

  /** `shapedSentence`: the units of all sections, in section order. */
  function Units(sections: seq<seq<char>>): seq<seq<char>>
  {
    if sections == [] then []
    else Units(sections[..|sections| - 1]) + SectionUnits(sections[|sections| - 1])
  }

  lemma {:induction false} ShapedAllSnoc(words: seq<seq<char>>, j: int)
    requires 0 <= j < |words|
    ensures ShapedAll(words[..j + 1]) == ShapedAll(words[..j]) + [ShapedWord(words[j])]
  {
  }

  lemma {:induction false} UnitsSnoc(sections: seq<seq<char>>, i: int)
    requires 0 <= i < |sections|
    ensures Units(sections[..i + 1]) == Units(sections[..i]) + SectionUnits(sections[i])
  {
    assert sections[..i + 1][..i] == sections[..i];
  }

  /** The second loop of `ReShape`. */
  method ShapeSections(langSections: seq<seq<char>>) returns (shapedSentence: seq<seq<char>>)
    ensures shapedSentence == Units(langSections)
  {
    shapedSentence := [];
    for i := 0 to |langSections|
      invariant shapedSentence == Units(langSections[..i])
    {
      var section := langSections[i];
      UnitsSnoc(langSections, i);
      var persian := IsPersian(section);
      if persian {
        var words := Fields(section);
        for j := 0 to |words|
          invariant shapedSentence == Units(langSections[..i]) + ShapedAll(words[..j])
        {
          var shaped := ShapeWord(words[j]);
          ShapedAllSnoc(words, j);
          shapedSentence := shapedSentence + [shaped];
        }
        assert words[..|words|] == words;
      } else {
        shapedSentence := shapedSentence + [section];
      }
    }
    assert langSections[..|langSections|] == langSections;
  }

  /** What `ReShape` returns. */
  function ReShaped(input: seq<char>): seq<char>
  {
    Join(Reversed(Units(Sections(input))), " ")
  }

  /** The reversal at the end of `ReShape`: from the middle outwards, each
      unit is swapped with its mirror image. */
  method ReverseUnits<T>(shapedSentence: array<T>)
    modifies shapedSentence
    ensures shapedSentence[..] == Reversed(old(shapedSentence[..]))
  {
    ghost var units := shapedSentence[..];
    var n := shapedSentence.Length;
    ghost var half := n / 2;
    assert half + half <= n <= half + half + 1;
    var i := n / 2 - 1;
    while i >= 0
      invariant -1 <= i < half && half + half <= n
      invariant forall k :: i < k < n - 1 - i ==> shapedSentence[k] == units[n - 1 - k]
      invariant forall k :: 0 <= k <= i || n - 1 - i <= k < n ==> shapedSentence[k] == units[k]
      decreases i + 1
    {
      var opp := n - 1 - i;
      shapedSentence[i], shapedSentence[opp] := shapedSentence[opp], shapedSentence[i];
      i := i - 1;
    }
    forall k | 0 <= k < n
      ensures shapedSentence[..][k] == Reversed(units)[k]
    {
      ReversedIndex(units, k);
    }
  }

  /** `ReShape`: segment, shape, reverse the units, join with one space. */
  method ReShape(input: seq<char>) returns (output: seq<char>)
    ensures output == ReShaped(input)
  {
    var langSections := SplitSections(input);
    var units := ShapeSections(langSections);
    var shapedSentence := new seq<char>[|units|](k requires 0 <= k < |units| => units[k]);
    assert shapedSentence[..] == units;
    ReverseUnits(shapedSentence);
    output := Join(shapedSentence[..], " ");
  }

  // ---------------------------------------------------------------- meaning

  /** What one maximal run of the input contributes to the output: a
      Persian-block run is one shaped word (it never holds white space, so
      `strings.Fields` leaves it whole); any other run is one unit, trimmed,
      however many words it holds, and none at all when it is blank. */
  function RunUnit(r: seq<char>): seq<seq<char>>
    requires IsRun(r)
  {
    if IsPersianLetter(r[0]) then [ShapedWord(r)]
    else if AllSpace(r) then []
    else [TrimSpace(r)]
  }

  /** The units of a cut into runs, in run order. */
  function RunUnits(rs: seq<seq<char>>): seq<seq<char>>
    requires forall i :: 0 <= i < |rs| ==> IsRun(rs[i])
  {
    if rs == [] then [] else RunUnits(rs[..|rs| - 1]) + RunUnit(rs[|rs| - 1])
  }

  /** Trimming a run and giving it to the second loop of `ReShape` yields
      exactly `RunUnit`. */
  lemma {:induction false} SectionOfRun(r: seq<char>)
    requires IsRun(r)
    ensures SectionUnits(TrimSpace(r)) == RunUnit(r)
  {
    TrimSpaceShape(r);
    var t := TrimSpace(r);
    if IsPersianLetter(r[0]) {
      forall k | 0 <= k < |r|
        ensures IsPersianLetter(r[k]) && !IsSpace(r[k])
      {
        PersianLetterNotSpace(r[k]);
      }
      TrimSpaceFree(r);
      assert PersianText(r);
      FieldsOfWord(r);
      assert ShapedAll([r]) == [ShapedWord(r)];
    } else if AllSpace(r) {
      assert t == [];
      FieldsOfBlank(t);
      assert PersianText(t);
    } else {
      var l := LeadingSpaces(r);
      assert t[0] == r[l];
      assert !IsSpace(t[0]) && !IsPersianLetter(t[0]);
      assert !PersianText(t);
    }
  }

  lemma {:induction false} UnitsSnocSection(sections: seq<seq<char>>, t: seq<char>)
    ensures Units(sections + [t]) == Units(sections) + SectionUnits(t)
  {
    assert (sections + [t])[..|sections|] == sections;
  }

  /** The first two loops of `ReShape` together: the units are those of the
      runs, in order. */
  lemma {:induction false} UnitsOfRuns(rs: seq<seq<char>>)
    requires forall i :: 0 <= i < |rs| ==> IsRun(rs[i])
    ensures Units(TrimAll(rs)) == RunUnits(rs)
    decreases |rs|
  {
    if rs != [] {
      var init := rs[..|rs| - 1];
      var last := rs[|rs| - 1];
      UnitsOfRuns(init);
      UnitsSnocSection(TrimAll(init), TrimSpace(last));
      SectionOfRun(last);
    }
  }

  /** `ReShape` in terms of the maximal runs of its input: every run gives
      its unit, and the units come out in reverse order, one space apart. */
  lemma ReShapedByRuns(input: seq<char>)
    ensures forall i :: 0 <= i < |Runs(input)| ==> IsRun(Runs(input)[i])
    ensures ReShaped(input) == Join(Reversed(RunUnits(Runs(input))), " ")
  {
    RunsSplit(input);
    UnitsOfRuns(Runs(input));
  }

  /** The empty input gives the empty output. */
  lemma ReShapedEmpty()
    ensures ReShaped([]) == []
  {
    ReShapedByRuns([]);
  }

  /** Text with no code point of the Persian block comes back trimmed and
      otherwise unchanged: its words are one unit, so they are not put in
      reverse order. */
  lemma ReShapedOtherText(s: seq<char>)
    requires forall k :: 0 <= k < |s| ==> !IsPersianLetter(s[k])
    ensures ReShaped(s) == TrimSpace(s)
  {
    ReShapedByRuns(s);
    if s == [] {
      TrimSpaceShape(s);
    } else {
      SingleRun(s);
      var u := RunUnits([s]);
      assert u == RunUnit(s) by {
        assert [s][..0] == [];
      }
      TrimSpaceShape(s);
    }
  }

  /** `ReShape` of any text cut into maximal runs `rs`. */
  lemma ReShapedOfSplit(s: seq<char>, rs: seq<seq<char>>)
    requires IsRunSplit(s, rs)
    ensures ReShaped(s) == Join(Reversed(RunUnits(rs)), " ")
  {
    RunSplitUnique(s, rs);
    ReShapedByRuns(s);
  }

  lemma PersianRun(a: seq<char>)
    requires a != [] && forall k :: 0 <= k < |a| ==> IsPersianLetter(a[k])
    ensures IsRun(a) && IsPersianLetter(a[0]) && RunUnit(a) == [ShapedWord(a)]
  {
  }

  lemma OtherRun(b: seq<char>)
    requires forall k :: 0 <= k < |b| ==> !IsPersianLetter(b[k])
    requires !AllSpace(b)
    ensures b != [] && IsRun(b) && !IsPersianLetter(b[0]) && RunUnit(b) == [TrimSpace(b)]
  {
  }

  lemma BlankRun(g: seq<char>)
    requires g != [] && AllSpace(g)
    ensures IsRun(g) && !IsPersianLetter(g[0]) && RunUnit(g) == []
  {
    forall k | 0 <= k < |g|
      ensures !IsPersianLetter(g[k])
    {
      PersianLetterNotSpace(g[k]);
    }
  }

  lemma {:induction false} FlattenPair(a: seq<char>, b: seq<char>)
    ensures Flatten([a, b]) == a + b
  {
    FlattenSnoc([], a);
    assert [] + [a] == [a];
    FlattenSnoc([a], b);
    assert [a] + [b] == [a, b];
  }

  lemma {:induction false} FlattenTriple(a: seq<char>, b: seq<char>, c: seq<char>)
    ensures Flatten([a, b, c]) == a + b + c
  {
    FlattenPair(a, b);
    FlattenSnoc([a, b], c);
    assert [a, b] + [c] == [a, b, c];
  }

  lemma {:induction false} RunUnitsPair(a: seq<char>, b: seq<char>)
    requires IsRun(a) && IsRun(b)
    ensures RunUnits([a, b]) == RunUnit(a) + RunUnit(b)
  {
    assert [a, b][..1] == [a];
    assert [a][..0] == [];
    assert RunUnits([a]) == RunUnits([]) + RunUnit(a);
    assert RunUnits([a, b]) == RunUnits([a]) + RunUnit(b);
  }

  lemma {:induction false} RunUnitsTriple(a: seq<char>, b: seq<char>, c: seq<char>)
    requires IsRun(a) && IsRun(b) && IsRun(c)
    ensures RunUnits([a, b, c]) == RunUnit(a) + RunUnit(b) + RunUnit(c)
  {
    assert [a, b, c][..2] == [a, b];
    RunUnitsPair(a, b);
  }

  lemma {:induction false} ReversedPair(x: seq<char>, y: seq<char>)
    ensures Reversed([x, y]) == [y, x]
  {
    assert [x, y][1..] == [y];
    assert [y][1..] == [];
  }

  lemma {:induction false} JoinPair(x: seq<char>, y: seq<char>)
    ensures Join(Reversed([y, x]), " ") == x + " " + y
  {
    ReversedPair(y, x);
    assert [x, y][1..] == [y];
  }

  /** A word of Persian-block code points comes back shaped. */
  lemma ReShapedPersianWord(w: seq<char>)
    requires w != [] && forall k :: 0 <= k < |w| ==> IsPersianLetter(w[k])
    ensures ReShaped(w) == ShapedWord(w)
  {
    PersianRun(w);
    SingleRun(w);
    ReShapedByRuns(w);
    assert RunUnits([w]) == RunUnit(w) by {
      assert [w][..0] == [];
    }
  }

  /** A Persian word followed by other text: the other text, trimmed, comes
      first, then one space, then the shaped word. */
  lemma ReShapedPersianThenOther(a: seq<char>, b: seq<char>)
    requires a != [] && forall k :: 0 <= k < |a| ==> IsPersianLetter(a[k])
    requires forall k :: 0 <= k < |b| ==> !IsPersianLetter(b[k])
    requires !AllSpace(b)
    ensures ReShaped(a + b) == TrimSpace(b) + " " + ShapedWord(a)
  {
    PersianRun(a);
    OtherRun(b);
    FlattenPair(a, b);
    ReShapedOfSplit(a + b, [a, b]);
    RunUnitsPair(a, b);
    JoinPair(TrimSpace(b), ShapedWord(a));
  }

  /** Other text followed by a Persian word: the shaped word comes first. */
  lemma ReShapedOtherThenPersian(b: seq<char>, a: seq<char>)
    requires forall k :: 0 <= k < |b| ==> !IsPersianLetter(b[k])
    requires !AllSpace(b)
    requires a != [] && forall k :: 0 <= k < |a| ==> IsPersianLetter(a[k])
    ensures ReShaped(b + a) == ShapedWord(a) + " " + TrimSpace(b)
  {
    PersianRun(a);
    OtherRun(b);
    FlattenPair(b, a);
    ReShapedOfSplit(b + a, [b, a]);
    RunUnitsPair(b, a);
    JoinPair(ShapedWord(a), TrimSpace(b));
  }

  /** Two Persian words with white space between them come back as two
      shaped words in swapped order, one space apart. */
  lemma ReShapedTwoWords(a: seq<char>, gap: seq<char>, b: seq<char>)
    requires a != [] && forall k :: 0 <= k < |a| ==> IsPersianLetter(a[k])
    requires gap != [] && AllSpace(gap)
    requires b != [] && forall k :: 0 <= k < |b| ==> IsPersianLetter(b[k])
    ensures ReShaped(a + gap + b) == ShapedWord(b) + " " + ShapedWord(a)
  {
    PersianRun(a);
    BlankRun(gap);
    PersianRun(b);
    FlattenTriple(a, gap, b);
    ReShapedOfSplit(a + gap + b, [a, gap, b]);
    RunUnitsTriple(a, gap, b);
    JoinPair(ShapedWord(b), ShapedWord(a));
  }
}
