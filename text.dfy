/**
 * Stand-ins for the parts of Go's `unicode` and `strings` packages that the
 * shaper calls (`unicode.IsSpace`, `strings.TrimSpace`, `strings.Fields`,
 * `strings.Join`), plus the reversal of a sequence and its flattening.
 * Strings are sequences of code points.
 */
module Text {

  /** Go's `unicode.IsSpace`: the Latin-1 spaces '\t', '\n', '\v', '\f', '\r',
      ' ', U+0085 and U+00A0, and beyond Latin-1 the code points with the
      Unicode White_Space property. */
  predicate IsSpace(c: char) {
    || c == '\t' || c == '\n' || c == '\U{000B}' || c == '\U{000C}' || c == '\r' || c == ' '
    || c == '\U{0085}' || c == '\U{00A0}' || c == '\U{1680}'
    || ('\U{2000}' <= c <= '\U{200A}')
    || c == '\U{2028}' || c == '\U{2029}' || c == '\U{202F}' || c == '\U{205F}' || c == '\U{3000}'
  }

  predicate SpaceFree(s: seq<char>) {
    forall k :: 0 <= k < |s| ==> !IsSpace(s[k])
  }

  predicate AllSpace(s: seq<char>) {
    forall k :: 0 <= k < |s| ==> IsSpace(s[k])
  }

  // ---------------------------------------------------------------- reversal

  /** The reversal of a sequence: the reference for every in-place swap loop. */
  function Reversed<T>(s: seq<T>): (r: seq<T>)
    ensures |r| == |s|
  {
    if s == [] then [] else Reversed(s[1..]) + [s[0]]
  }

  /** Reversal sends index `k` to index `|s| - 1 - k`. */
  lemma {:induction false} ReversedIndex<T>(s: seq<T>, k: int)
    requires 0 <= k < |s|
    ensures Reversed(s)[k] == s[|s| - 1 - k]
  {
    if k < |s| - 1 {
      ReversedIndex(s[1..], k);
    }
  }

  /** Reversal is an involution. */
  lemma {:induction false} ReversedTwice<T>(s: seq<T>)
    ensures Reversed(Reversed(s)) == s
  {
    var r := Reversed(Reversed(s));
    forall k | 0 <= k < |s|
      ensures r[k] == s[k]
    {
      ReversedIndex(Reversed(s), k);
      ReversedIndex(s, |s| - 1 - k);
    }
  }

  // ---------------------------------------------------------------- flattening

  /** Concatenation of a sequence of sequences, in order. */
  function Flatten<T>(xss: seq<seq<T>>): seq<T>
  {
    if xss == [] then [] else Flatten(xss[..|xss| - 1]) + xss[|xss| - 1]
  }

  lemma FlattenSnoc<T>(xss: seq<seq<T>>, x: seq<T>)
    ensures Flatten(xss + [x]) == Flatten(xss) + x
  {
    assert (xss + [x])[..|xss|] == xss;
  }

  lemma {:induction false} FlattenCons<T>(x: seq<T>, xss: seq<seq<T>>)
    ensures Flatten([x] + xss) == x + Flatten(xss)
    decreases |xss|
  {
    if xss == [] {
      assert [x] + xss == [] + [x];
      FlattenSnoc([], x);
    } else {
      var init := xss[..|xss| - 1];
      var last := xss[|xss| - 1];
      assert xss == init + [last];
      assert [x] + xss == ([x] + init) + [last];
      calc {
        Flatten([x] + xss);
        { FlattenSnoc([x] + init, last); }
        Flatten([x] + init) + last;
        { FlattenCons(x, init); }
        (x + Flatten(init)) + last;
        x + (Flatten(init) + last);
        { FlattenSnoc(init, last); }
        x + Flatten(xss);
      }
    }
  }

  // ---------------------------------------------------------------- trimming

  /** Number of leading white-space code points. */
  function LeadingSpaces(s: seq<char>): (n: nat)
    ensures n <= |s|
    ensures forall k :: 0 <= k < n ==> IsSpace(s[k])
    ensures n < |s| ==> !IsSpace(s[n])
  {
    if s != [] && IsSpace(s[0]) then 1 + LeadingSpaces(s[1..]) else 0
  }

  /** Number of trailing white-space code points. */
  function TrailingSpaces(s: seq<char>): (n: nat)
    ensures n <= |s|
    ensures forall k :: |s| - n <= k < |s| ==> IsSpace(s[k])
    ensures n < |s| ==> !IsSpace(s[|s| - 1 - n])
  {
    if s != [] && IsSpace(s[|s| - 1]) then 1 + TrailingSpaces(s[..|s| - 1]) else 0
  }

  /** Go's `strings.TrimSpace`: the slice of `s` left after removing leading
      and trailing white space. */
  function TrimSpace(s: seq<char>): seq<char>
  {
    var t := s[LeadingSpaces(s)..];
    t[..|t| - TrailingSpaces(t)]
  }

  /** What `TrimSpace` leaves: a slice of `s` starting after its leading
      white space, followed only by white space, empty exactly when `s` is
      all white space, and with no white space at either end. */
  lemma TrimSpaceShape(s: seq<char>)
    ensures var r := TrimSpace(s);
      && LeadingSpaces(s) + |r| <= |s|
      && r == s[LeadingSpaces(s)..LeadingSpaces(s) + |r|]
      && (forall k :: LeadingSpaces(s) + |r| <= k < |s| ==> IsSpace(s[k]))
      && (r == [] <==> AllSpace(s))
      && (r != [] ==> !IsSpace(r[0]) && !IsSpace(r[|r| - 1]))
  {
  }

  lemma TrimSpaceFree(s: seq<char>)
    requires SpaceFree(s)
    ensures TrimSpace(s) == s
  {
    assert LeadingSpaces(s) == 0;
  }

  // ---------------------------------------------------------------- fields

  /** Length of the longest prefix free of white space. */
  function WordLength(s: seq<char>): (n: nat)
    ensures n <= |s|
    ensures forall k :: 0 <= k < n ==> !IsSpace(s[k])
    ensures n < |s| ==> IsSpace(s[n])
  {
    if s != [] && !IsSpace(s[0]) then 1 + WordLength(s[1..]) else 0
  }

  /** `s` with every white-space code point removed. */
  function NonSpace(s: seq<char>): seq<char>
  {
    if s == [] then [] else (if IsSpace(s[0]) then [] else [s[0]]) + NonSpace(s[1..])
  }

  /** Go's `strings.Fields`: the maximal runs of non-white-space code points,
      in order. */
  function Fields(s: seq<char>): (fs: seq<seq<char>>)
    ensures forall i :: 0 <= i < |fs| ==> fs[i] != [] && SpaceFree(fs[i])
    decreases |s|
  {
    var a := LeadingSpaces(s);
    var t := s[a..];
    if t == [] then []
    else
      var n := WordLength(t);
      assert t[0] == s[a] && n > 0;
      var w := t[..n];
      assert SpaceFree(w);
      var rest := Fields(t[n..]);
      assert forall i :: 0 < i < |rest| + 1 ==> ([w] + rest)[i] == rest[i - 1];
      [w] + rest
  }

  lemma {:induction false} NonSpaceAppend(a: seq<char>, b: seq<char>)
    ensures NonSpace(a + b) == NonSpace(a) + NonSpace(b)
    decreases |a|
  {
    if a != [] {
      assert (a + b)[1..] == a[1..] + b;
      NonSpaceAppend(a[1..], b);
    } else {
      assert a + b == b;
    }
  }

  lemma {:induction false} NonSpaceOfAllSpace(s: seq<char>)
    requires AllSpace(s)
    ensures NonSpace(s) == []
    decreases |s|
  {
    if s != [] { NonSpaceOfAllSpace(s[1..]); }
  }

  lemma {:induction false} NonSpaceOfSpaceFree(s: seq<char>)
    requires SpaceFree(s)
    ensures NonSpace(s) == s
    decreases |s|
  {
    if s != [] { NonSpaceOfSpaceFree(s[1..]); }
  }

  /** One step of `Fields`: skip the leading white space, then take one word. */
  lemma FieldsUnfold(s: seq<char>)
    ensures var t := s[LeadingSpaces(s)..];
      && (t == [] ==> Fields(s) == [])
      && (t != [] ==> Fields(s) == [t[..WordLength(t)]] + Fields(t[WordLength(t)..]))
  {
  }

  /** Leading white space adds nothing to `NonSpace`. */
  lemma SkipLeadingSpaces(s: seq<char>)
    ensures NonSpace(s) == NonSpace(s[LeadingSpaces(s)..])
  {
    var a := LeadingSpaces(s);
    assert s == s[..a] + s[a..];
    NonSpaceOfAllSpace(s[..a]);
    NonSpaceAppend(s[..a], s[a..]);
  }

  /** A word followed by text whose fields keep its non-space code points. */
  lemma WordThenFields(w: seq<char>, u: seq<char>)
    requires SpaceFree(w) && Flatten(Fields(u)) == NonSpace(u)
    ensures Flatten([w] + Fields(u)) == NonSpace(w + u)
  {
    NonSpaceAppend(w, u);
    NonSpaceOfSpaceFree(w);
    FlattenCons(w, Fields(u));
  }

  /** Fields loses exactly the white space: joining the fields back together
      without separators gives `s` with its white space removed. */
  lemma {:induction false} FieldsKeepNonSpace(s: seq<char>)
    ensures Flatten(Fields(s)) == NonSpace(s)
    decreases |s|
  {
    var t := s[LeadingSpaces(s)..];
    FieldsUnfold(s);
    SkipLeadingSpaces(s);
    if t != [] {
      var n := WordLength(t);
      assert t == t[..n] + t[n..];
      FieldsKeepNonSpace(t[n..]);
      WordThenFields(t[..n], t[n..]);
    }
  }

  /** A non-empty string without white space is a single field. */
  lemma FieldsOfWord(s: seq<char>)
    requires s != [] && SpaceFree(s)
    ensures Fields(s) == [s]
  {
    assert LeadingSpaces(s) == 0;
    assert s[0..] == s;
    assert WordLength(s) == |s|;
    assert s[..|s|] == s;
    assert s[|s|..] == [];
    assert Fields([]) == [];
  }

  /** Only white space: no fields at all. */
  lemma FieldsOfBlank(s: seq<char>)
    requires AllSpace(s)
    ensures Fields(s) == []
  {
    assert s[LeadingSpaces(s)..] == [];
  }

  /** White space in front counts for nothing in `LeadingSpaces`' stop. */
  lemma {:induction false} LeadingSpacesAfterBlank(g: seq<char>, u: seq<char>)
    requires AllSpace(g)
    ensures LeadingSpaces(g + u) == |g| + LeadingSpaces(u)
    decreases |g|
  {
    if g == [] {
      assert g + u == u;
    } else {
      assert (g + u)[1..] == g[1..] + u;
      LeadingSpacesAfterBlank(g[1..], u);
    }
  }

  /** A word ends at the first white space. */
  lemma {:induction false} WordLengthBeforeSpace(w: seq<char>, v: seq<char>)
    requires SpaceFree(w) && v != [] && IsSpace(v[0])
    ensures WordLength(w + v) == |w|
    decreases |w|
  {
    if w == [] {
      assert w + v == v;
    } else {
      assert (w + v)[1..] == w[1..] + v;
      WordLengthBeforeSpace(w[1..], v);
    }
  }

  /** White space in front of the text adds no field. */
  lemma FieldsSkip(g: seq<char>, u: seq<char>)
    requires AllSpace(g)
    ensures Fields(g + u) == Fields(u)
  {
    LeadingSpacesAfterBlank(g, u);
    assert (g + u)[|g| + LeadingSpaces(u)..] == u[LeadingSpaces(u)..];
    FieldsUnfold(g + u);
    FieldsUnfold(u);
  }

  /** A word followed by white space is a field of its own, and the fields
      of the rest follow it: fields are maximal. */
  lemma FieldsSplit(w: seq<char>, g: seq<char>, u: seq<char>)
    requires w != [] && SpaceFree(w) && g != [] && AllSpace(g)
    ensures Fields(w + g + u) == [w] + Fields(u)
  {
    var s := w + g + u;
    assert s == w + (g + u);
    assert s[0] == w[0];
    assert LeadingSpaces(s) == 0;
    assert s[0..] == s;
    FieldsUnfold(s);
    WordLengthBeforeSpace(w, g + u);
    assert s[..|w|] == w;
    assert s[|w|..] == g + u;
    FieldsSkip(g, u);
  }

  // ---------------------------------------------------------------- joining

  /** Go's `strings.Join`: the elements in order with `sep` between
      neighbours; the empty list gives the empty string. */
  function Join(xs: seq<seq<char>>, sep: seq<char>): seq<char>
  {
    if xs == [] then []
    else if |xs| == 1 then xs[0]
    else xs[0] + sep + Join(xs[1..], sep)
  }

  /** The joined string holds every element and one separator between each
      pair of neighbours, and nothing else. */
  lemma {:induction false} JoinLength(xs: seq<seq<char>>, sep: seq<char>)
    requires xs != []
    ensures |Join(xs, sep)| == |Flatten(xs)| + (|xs| - 1) * |sep|
    decreases |xs|
  {
    var head, rest := xs[0], xs[1..];
    assert xs == [head] + rest;
    FlattenCons(head, rest);
    if rest == [] {
      assert Join(xs, sep) == head;
    } else {
      JoinLength(rest, sep);
      assert Join(xs, sep) == head + sep + Join(rest, sep);
      var m := |rest|;
      assert (|xs| - 1) * |sep| == (m - 1) * |sep| + |sep|;
    }
  }
}
