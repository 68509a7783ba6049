/**
 * The ebook builder's text-level rules: the break normalisation and collapsing applied to
 * chapter HTML before it goes into an EPUB, the tag filter that prepares a paragraph for the PDF
 * renderer, and the choice of chapters, title, format and page size when a story or one of its
 * volumes is compiled. Rendering the EPUB or PDF and reading chapter files are inputs.
 */
module Ebook {
  import opened Wrappers
  import opened Text
  import opened Store
  import opened LibraryPaths

  // ---------------------------------------------------------------------------------------
  // Collapsing runs of breaks: `(<br/>\s*){3,}` becomes `<br/><br/>`
  // ---------------------------------------------------------------------------------------

  /** The break tag as the normalisation writes it. */
  const Br: string := "<br/>"

  /** `s` starts with `<br/>`. */
  predicate AtBr(s: string)
  {
    |s| >= 5 && s[0] == '<' && s[1] == 'b' && s[2] == 'r' && s[3] == '/' && s[4] == '>'
  }

  /** What follows the whitespace at the start of `s` (what `\s*` leaves). */
  function SkipSpaces(s: string): (r: string)
    ensures |r| <= |s| && (r == [] || !IsSpace(r[0]))
  {
    if s != [] && IsSpace(s[0]) then SkipSpaces(s[1..]) else s
  }

  /** `s` is the skipped whitespace followed by what remains. */
  lemma {:induction false} SkipSpacesSplits(s: string)
    ensures var r := SkipSpaces(s);
      s == s[..|s| - |r|] + r && forall k :: 0 <= k < |s| - |r| ==> IsSpace(s[k])
  {
    if s != [] && IsSpace(s[0]) {
      SkipSpacesSplits(s[1..]);
      var r := SkipSpaces(s);
      assert s[1..] == s[1..][..|s| - 1 - |r|] + r;
      assert s[..|s| - |r|] == [s[0]] + s[1..][..|s| - 1 - |r|];
    } else {
      assert s[..0] + s == s;
    }
  }

  /** The greedy repetition `(<br/>\s*)*` at the start of `s`: how many breaks, and what follows. */
  function Breaks(s: string): (r: (nat, string))
    ensures |r.1| <= |s|
    ensures r.0 == 0 <==> !AtBr(s)
    ensures r.0 == 0 ==> r.1 == s
    ensures r.0 > 0 ==> |r.1| < |s| && (r.1 == [] || !IsSpace(r.1[0])) && !AtBr(r.1)
    decreases |s|
  {
    if AtBr(s) then
      var k := Breaks(SkipSpaces(s[5..]));
      (1 + k.0, k.1)
    else (0, s)
  }

  /** `re.sub(r'(<br/>\s*){3,}', '<br/><br/>', s)`: scanning left to right, every maximal run of
      three or more breaks, with the whitespace after each, is replaced by two breaks. */
  function Collapse(s: string): (r: string)
    ensures s == [] <==> r == []
    ensures s != [] ==> r[0] == s[0]
    decreases |s|
  {
    if s == [] then []
    else
      var b := Breaks(s);
      if b.0 >= 3 then Br + Br + Collapse(b.1)
      else [s[0]] + Collapse(s[1..])
  }

  /** A text that starts with the first character of `w` starts with `w` exactly when the rest
      starts with the rest of `w`. */
  lemma StartsWithCons(c: char, t: string, w: string)
    requires w != [] && c == w[0]
    ensures StartsWith([c] + t, w) <==> StartsWith(t, w[1..])
  {
    if |w| <= |[c] + t| {
      assert ([c] + t)[..|w|] == [c] + t[..|w| - 1];
      assert w == [c] + w[1..];
    }
  }

  /** Text without '<' passes through unchanged. */
  lemma {:induction false} CollapsePlain(p: string, x: string)
    requires '<' !in p
    ensures Collapse(p + x) == p + Collapse(x)
    decreases |p|
  {
    if p != [] {
      assert (p + x)[0] == p[0] && (p + x)[1..] == p[1..] + x;
      assert Breaks(p + x).0 == 0;
      CollapsePlain(p[1..], x);
      assert p == [p[0]] + p[1..];
    } else {
      assert p + x == x;
    }
  }

  /** The collapsed text starts with a piece without '<' exactly when the text does. */
  lemma {:induction false} CollapsePrefix(y: string, w: string)
    requires '<' !in w
    ensures StartsWith(Collapse(y), w) <==> StartsWith(y, w)
    decreases |w|
  {
    if w != [] && y != [] && y[0] == w[0] {
      assert Breaks(y).0 == 0;
      assert Collapse(y) == [y[0]] + Collapse(y[1..]);
      CollapsePrefix(y[1..], w[1..]);
      assert y == [y[0]] + y[1..];
      StartsWithCons(y[0], y[1..], w);
      StartsWithCons(y[0], Collapse(y[1..]), w);
    }
  }

  /** Whitespace before a text that does not start with whitespace is what `\s*` consumes. */
  lemma {:induction false} SkipSpacesBefore(ws: string, t: string)
    requires forall k :: 0 <= k < |ws| ==> IsSpace(ws[k])
    requires t == [] || !IsSpace(t[0])
    ensures SkipSpaces(ws + t) == t
    decreases |ws|
  {
    if ws != [] {
      assert (ws + t)[1..] == ws[1..] + t;
      SkipSpacesBefore(ws[1..], t);
    } else {
      assert ws + t == t;
    }
  }

  /** One or two breaks in front of a text that starts with neither a break nor whitespace. */
  lemma BreaksBefore(t: string)
    requires !AtBr(t) && (t == [] || !IsSpace(t[0]))
    ensures Breaks(Br + t) == (1, t)
    ensures Breaks(Br + Br + t).0 == 2
  {
    assert SkipSpaces(t) == t;
    assert (Br + t)[5..] == t;
    assert AtBr(Br + t);
    var u := Br + Br + t;
    assert u == Br + (Br + t);
    assert u[5..] == Br + t;
    assert SkipSpaces(Br + t) == Br + t;
  }

  /** A break followed by whitespace: `\s*` consumes the whitespace. */
  lemma BreakThenSpaces(ws: string, t: string)
    requires forall k :: 0 <= k < |ws| ==> IsSpace(ws[k])
    requires t == [] || !IsSpace(t[0])
    ensures Breaks(Br + (ws + t)).0 == 1 + Breaks(t).0
  {
    var u := Br + (ws + t);
    assert AtBr(u);
    assert u[5..] == ws + t;
    SkipSpacesBefore(ws, t);
    assert SkipSpaces(u[5..]) == t;
  }

  /** Where the collapsed text does not start a run of three, its first character is copied. */
  lemma NoLeadStaysNoLead(s: string)
    requires s != [] && Breaks(s).0 == 0
    ensures Breaks(Collapse(s)).0 == 0
  {
    if s[0] == '<' && AtBr(Collapse(s)) {
      var c := Collapse(s);
      assert c == [s[0]] + Collapse(s[1..]);
      assert StartsWith(Collapse(s[1..]), "br/>") by {
        assert Collapse(s[1..])[..4] == c[1..5];
      }
      CollapsePrefix(s[1..], "br/>");
    }
  }

  /** A run of one or two breaks is copied as it is. */
  lemma ShortRunCopied(s: string, ws: string, t: string)
    requires AtBr(s) && s[5..] == ws + t && Breaks(s).0 < 3
    requires forall k :: 0 <= k < |ws| ==> IsSpace(ws[k])
    ensures Collapse(s) == Br + (ws + Collapse(t))
  {
    var p := "br/>" + ws;
    assert s[1..] == p + t;
    assert '<' !in p by {
      forall k | 0 <= k < |p|
        ensures p[k] != '<'
      {
        if k >= 4 { assert p[k] == ws[k - 4]; }
      }
    }
    CollapsePlain(p, t);
    var ct := Collapse(t);
    assert Collapse(s) == [s[0]] + (p + ct);
    ConsRegroup(s[0], "br/>", ws, ct);
    assert [s[0]] + "br/>" == Br;
  }

  /** Regrouping a character in front of three pieces. */
  lemma ConsRegroup<T>(c: T, a: seq<T>, w: seq<T>, z: seq<T>)
    ensures [c] + ((a + w) + z) == ([c] + a) + (w + z)
  {
  }

  /** The run at the start of the collapsed text is the original run, capped at two. */
  lemma {:induction false} CollapseLead(s: string)
    ensures Breaks(Collapse(s)).0 == if Breaks(s).0 >= 3 then 2 else Breaks(s).0
    decreases |s|
  {
    var b := Breaks(s);
    if s == [] {
    } else if b.0 >= 3 {
      CollapseLead(b.1);
      BreaksBefore(Collapse(b.1));
    } else if b.0 == 0 {
      NoLeadStaysNoLead(s);
    } else {
      var w := s[5..];
      var t := SkipSpaces(w);
      var ws := w[..|w| - |t|];
      SkipSpacesSplits(w);
      CollapseLead(t);
      ShortRunCopied(s, ws, t);
      BreakThenSpaces(ws, Collapse(t));
    }
  }

  /** Text made of whitespace only. */
  predicate Blank(w: string) { forall k :: 0 <= k < |w| ==> IsSpace(w[k]) }

  predicate AllBlank(gaps: seq<string>) { forall m :: 0 <= m < |gaps| ==> Blank(gaps[m]) }

  /** A run of `<br/>` tags, each followed by its whitespace gap. */
  function BrRun(gaps: seq<string>): (r: string)
    ensures gaps != [] ==> AtBr(r)
  {
    if gaps == [] then [] else Br + (gaps[0] + BrRun(gaps[1..]))
  }

  /** `x` can end a run: it starts with neither a break nor whitespace. */
  predicate RunEnder(x: string) { !AtBr(x) && (x == [] || !IsSpace(x[0])) }

  /** The greedy repetition at the start of a run counts every break of the run and stops
      where the run ends. */
  lemma {:induction false} BreaksOfRun(gaps: seq<string>, x: string)
    requires AllBlank(gaps) && RunEnder(x)
    ensures Breaks(BrRun(gaps) + x) == (|gaps|, x)
    decreases |gaps|
  {
    if gaps == [] {
      assert BrRun(gaps) + x == x;
    } else {
      var rest := BrRun(gaps[1..]) + x;
      var u := BrRun(gaps) + x;
      assert u == Br + (gaps[0] + rest);
      assert u[5..] == gaps[0] + rest;
      assert rest == [] || !IsSpace(rest[0]) by {
        if gaps[1..] != [] {
          assert rest[0] == '<';
        } else {
          assert rest == x;
        }
      }
      SkipSpacesBefore(gaps[0], rest);
      assert AllBlank(gaps[1..]) by {
        assert forall m :: 0 <= m < |gaps[1..]| ==> gaps[1..][m] == gaps[m + 1];
      }
      BreaksOfRun(gaps[1..], x);
    }
  }

  /** A run of three or more breaks, with the whitespace after each, becomes exactly two breaks. */
  lemma CollapseRun(gaps: seq<string>, x: string)
    requires |gaps| >= 3 && AllBlank(gaps) && RunEnder(x)
    ensures Collapse(BrRun(gaps) + x) == Br + Br + Collapse(x)
  {
    BreaksOfRun(gaps, x);
  }

  /** The gaps after the first break of a run are blank too. */
  lemma AllBlankTail(gaps: seq<string>)
    requires gaps != [] && AllBlank(gaps)
    ensures Blank(gaps[0]) && AllBlank(gaps[1..])
  {
    assert forall m :: 0 <= m < |gaps[1..]| ==> gaps[1..][m] == gaps[m + 1];
  }

  /** One step of a short run: the first break and its gap are copied. */
  lemma ShortRunStep(g: string, rest: string, crest: string)
    requires Blank(g) && Breaks(Br + (g + rest)).0 < 3 && Collapse(rest) == crest
    ensures Collapse(Br + (g + rest)) == Br + (g + crest)
  {
    var u := Br + (g + rest);
    assert AtBr(u);
    assert u[5..] == g + rest;
    ShortRunCopied(u, g, rest);
  }

  /** A run followed by `y` is its first break and gap followed by the rest of the run and `y`. */
  lemma BrRunCons(gaps: seq<string>, y: string)
    requires gaps != []
    ensures BrRun(gaps) + y == Br + (gaps[0] + (BrRun(gaps[1..]) + y))
  {
    assert BrRun(gaps) == Br + (gaps[0] + BrRun(gaps[1..]));
  }

  /** The first break of a short run is copied, given that the rest of the run is. */
  lemma ShortRunHead(gaps: seq<string>, x: string)
    requires 1 <= |gaps| <= 2 && AllBlank(gaps) && RunEnder(x)
    requires Collapse(BrRun(gaps[1..]) + x) == BrRun(gaps[1..]) + Collapse(x)
    ensures Collapse(BrRun(gaps) + x) == BrRun(gaps) + Collapse(x)
  {
    var tail, cx := BrRun(gaps[1..]), Collapse(x);
    BrRunCons(gaps, x);
    BrRunCons(gaps, cx);
    BreaksOfRun(gaps, x);
    ShortRunStep(gaps[0], tail + x, tail + cx);
  }

  /** A run of one or two breaks is copied with its whitespace. */
  lemma {:induction false} CollapseShortRun(gaps: seq<string>, x: string)
    requires |gaps| <= 2 && AllBlank(gaps) && RunEnder(x)
    ensures Collapse(BrRun(gaps) + x) == BrRun(gaps) + Collapse(x)
    decreases |gaps|
  {
    if gaps == [] {
      assert BrRun(gaps) + x == x;
    } else {
      AllBlankTail(gaps);
      CollapseShortRun(gaps[1..], x);
      ShortRunHead(gaps, x);
    }
  }

  /** A tag other than `<br/>` does not start a break. */
  lemma OtherTagNotBr(inner: string, x: string)
    requires '>' !in inner && inner != "br/"
    ensures !AtBr("<" + inner + ">" + x)
  {
    var u := "<" + inner + ">" + x;
    if |inner| >= 4 {
      assert u[4] == inner[3];
    } else if |inner| == 3 {
      assert u[1..4] == inner;
    } else {
      assert u[|inner| + 1] == '>';
    }
  }

  /** A tag other than `<br/>` is copied as it is. */
  lemma CollapseTag(inner: string, x: string)
    requires '<' !in inner && '>' !in inner && inner != "br/"
    ensures Collapse("<" + inner + ">" + x) == "<" + inner + ">" + Collapse(x)
  {
    var u := "<" + inner + ">" + x;
    var p := inner + ">";
    var cx := Collapse(x);
    assert u == "<" + (p + x);
    assert u[1..] == p + x;
    OtherTagNotBr(inner, x);
    CollapseCopiesFirst(u);
    CollapsePlain(p, x);
    assert "<" + (p + cx) == "<" + inner + ">" + cx;
  }

  /** Where no break starts, the first character is copied. */
  lemma CollapseCopiesFirst(u: string)
    requires u != [] && !AtBr(u)
    ensures Collapse(u) == [u[0]] + Collapse(u[1..])
  {
  }

  /** No run of three or more breaks starts anywhere. */
  predicate AtMostTwoBreaks(x: string)
  {
    forall i :: 0 <= i <= |x| ==> Breaks(x[i..]).0 <= 2
  }

  /** Two breaks in front of a text without long runs that starts with neither a break nor
      whitespace leave no long run. */
  lemma AtMostTwoAfterPair(cr: string)
    requires AtMostTwoBreaks(cr) && !AtBr(cr) && (cr == [] || !IsSpace(cr[0]))
    ensures AtMostTwoBreaks(Br + Br + cr)
  {
    var out := Br + Br + cr;
    BreaksBefore(cr);
    forall i | 0 <= i <= |out|
      ensures Breaks(out[i..]).0 <= 2
    {
      if i >= 10 {
        assert out[i..] == cr[i - 10..];
      } else if i == 5 {
        assert out[5..] == Br + cr;
        assert SkipSpaces(cr) == cr;
        assert (Br + cr)[5..] == cr;
      } else if i > 0 {
        assert out[i..][0] == out[i] != '<';
      } else {
        assert out[0..] == out;
      }
    }
  }

  /** A first character that starts no run of three, in front of a text without long runs,
      leaves no long run. */
  lemma AtMostTwoAfterChar(c: char, rest: string)
    requires AtMostTwoBreaks(rest) && Breaks([c] + rest).0 <= 2
    ensures AtMostTwoBreaks([c] + rest)
  {
    var out := [c] + rest;
    forall i | 1 <= i <= |out|
      ensures Breaks(out[i..]).0 <= 2
    {
      assert out[i..] == rest[i - 1..];
      assert Breaks(rest[i - 1..]).0 <= 2;
    }
    assert out[0..] == out;
  }

  /** After collapsing, no run of three or more breaks is left anywhere in the text. */
  lemma {:induction false} CollapseLeavesAtMostTwo(s: string)
    ensures AtMostTwoBreaks(Collapse(s))
    decreases |s|
  {
    var out := Collapse(s);
    var b := Breaks(s);
    if s == [] {
      assert out[0..] == [];
    } else if b.0 >= 3 {
      var cr := Collapse(b.1);
      CollapseLeavesAtMostTwo(b.1);
      CollapseLead(b.1);
      assert out == Br + Br + cr;
      assert !AtBr(cr) && (cr == [] || !IsSpace(cr[0])) by {
        if b.1 != [] { assert cr[0] == b.1[0]; }
      }
      AtMostTwoAfterPair(cr);
    } else {
      CollapseLeavesAtMostTwo(s[1..]);
      CollapseLead(s);
      assert out == [s[0]] + Collapse(s[1..]);
      AtMostTwoAfterChar(s[0], Collapse(s[1..]));
    }
  }

  /** A text with no run of three breaks is left as it is; in particular collapsing twice is
      collapsing once. */
  lemma {:induction false} CollapseFixes(s: string)
    requires AtMostTwoBreaks(s)
    ensures Collapse(s) == s
    decreases |s|
  {
    if s != [] {
      assert s[0..] == s;
      assert forall i :: 0 <= i <= |s[1..]| ==> s[1..][i..] == s[i + 1..];
      CollapseFixes(s[1..]);
    }
  }

  lemma CollapseIdempotent(s: string)
    ensures Collapse(Collapse(s)) == Collapse(s)
  {
    CollapseLeavesAtMostTwo(s);
    CollapseFixes(Collapse(s));
  }

  // ---------------------------------------------------------------------------------------
  // Normalising break tags: `<br\s*/?>`, in any letter case, becomes `<br/>`
  // ---------------------------------------------------------------------------------------

  /** `w` is a break tag in one of its spellings: `<br`, whitespace, an optional '/', then '>',
      with `b` and `r` in either case. */
  predicate IsBreakTag(w: string)
  {
    |w| >= 4 && w[0] == '<' && LowerChar(w[1]) == 'b' && LowerChar(w[2]) == 'r' && w[|w| - 1] == '>'
    && (forall k :: 3 <= k < |w| - 2 ==> IsSpace(w[k]))
    && (|w| == 4 || IsSpace(w[|w| - 2]) || w[|w| - 2] == '/')
  }

  /** The length of the break tag the pattern matches at the start of `s`, if any. */
  function BreakTagLen(s: string): (r: Option<nat>)
    ensures r.Some? ==> r.value <= |s| && IsBreakTag(s[..r.value])
    ensures r.None? ==> forall n :: 0 <= n <= |s| ==> !IsBreakTag(s[..n])
  {
    if |s| >= 4 && s[0] == '<' && LowerChar(s[1]) == 'b' && LowerChar(s[2]) == 'r' then
      var e := SpaceRunEnd(s, 3);
      if e < |s| && s[e] == '>' then Some(e + 1)
      else if e + 1 < |s| && s[e] == '/' && s[e + 1] == '>' then Some(e + 2)
      else None
    else None
  }

  /** A break tag has one length at a given place: it ends at the first '>'. */
  lemma BreakTagUnique(x: string, n: nat, m: nat)
    requires n <= m <= |x| && IsBreakTag(x[..n]) && IsBreakTag(x[..m])
    ensures n == m
  {
  }

  /** The case-insensitive substitution of `<br/>` for every break tag, scanning left to right. */
  function NormalizeBreaks(s: string): (r: string)
    ensures s == [] <==> r == []
    ensures s != [] ==> r[0] == s[0]
    decreases |s|
  {
    if s == [] then []
    else
      match BreakTagLen(s)
      case Some(n) => Br + NormalizeBreaks(s[n..])
      case None => [s[0]] + NormalizeBreaks(s[1..])
  }

  /** The normalised text starts with a piece without '<' exactly when the text does. */
  lemma {:induction false} NormalizePrefix(y: string, w: string)
    requires '<' !in w
    ensures StartsWith(NormalizeBreaks(y), w) <==> StartsWith(y, w)
    decreases |w|
  {
    if w != [] && y != [] && y[0] == w[0] {
      assert NormalizeBreaks(y) == [y[0]] + NormalizeBreaks(y[1..]);
      NormalizePrefix(y[1..], w[1..]);
      assert y == [y[0]] + y[1..];
      StartsWithCons(y[0], y[1..], w);
      StartsWithCons(y[0], NormalizeBreaks(y[1..]), w);
    }
  }

  /** Every break tag in `x` is spelled `<br/>`. */
  predicate CanonicalBreaks(x: string)
  {
    forall i, j :: 0 <= i <= j <= |x| && IsBreakTag(x[i..j]) ==> x[i..j] == Br
  }

  /** A break tag has no '<' after its first character. */
  lemma BreakTagTail(w: string)
    ensures IsBreakTag(w) ==> '<' !in w[1..]
  {
    if IsBreakTag(w) {
      forall k | 1 <= k < |w|
        ensures w[k] != '<'
      {
      }
    }
  }

  /** Where the text does not start with a break tag, the normalised text copies its first
      character and then agrees with it up to the next '<'. */
  lemma NormalizeCopiesPrefix(s: string, j: nat)
    requires s != [] && BreakTagLen(s).None?
    requires 1 <= j <= |NormalizeBreaks(s)| && '<' !in NormalizeBreaks(s)[1..j]
    ensures j <= |s| && s[..j] == NormalizeBreaks(s)[..j]
  {
    var out := NormalizeBreaks(s);
    var w := out[1..j];
    assert out == [s[0]] + NormalizeBreaks(s[1..]);
    assert NormalizeBreaks(s[1..])[..j - 1] == w;
    NormalizePrefix(s[1..], w);
    assert s[..j] == [s[0]] + s[1..][..j - 1];
  }

  /** A slice of `p + r` that lies past `p` is a slice of `r`. */
  lemma SliceAfter(p: string, r: string, i: nat, j: nat)
    requires |p| <= i <= j <= |p| + |r|
    ensures (p + r)[i..j] == r[i - |p|..j - |p|]
  {
  }

  /** A canonical text stays canonical behind a leading `<br/>`. */
  lemma CanonicalAfterBr(rest: string)
    requires CanonicalBreaks(rest)
    ensures CanonicalBreaks(Br + rest)
  {
    var out := Br + rest;
    forall i, j | 0 <= i <= j <= |out| && IsBreakTag(out[i..j])
      ensures out[i..j] == Br
    {
      if i >= 5 {
        SliceAfter(Br, rest, i, j);
      } else if i == 0 {
        assert out[..5] == Br;
        assert out[..j] == out[i..j];
        BreakTagUnique(out, if j < 5 then j else 5, if j < 5 then 5 else j);
      }
    }
  }

  /** Where the text does not start with a break tag, no break tag starts the normalised
      text either. */
  lemma NoTagAtStart(s: string, j: nat)
    requires s != [] && BreakTagLen(s).None?
    requires j <= |NormalizeBreaks(s)|
    ensures !IsBreakTag(NormalizeBreaks(s)[..j])
  {
    var out := NormalizeBreaks(s);
    BreakTagTail(out[..j]);
    if j >= 1 {
      assert out[..j][1..] == out[1..j];
      if '<' !in out[1..j] {
        NormalizeCopiesPrefix(s, j);
        assert !IsBreakTag(s[..j]);
      }
    }
  }

  /** A canonical text stays canonical behind a first character that starts no break tag. */
  lemma CanonicalAfterChar(s: string)
    requires s != [] && BreakTagLen(s).None?
    requires CanonicalBreaks(NormalizeBreaks(s[1..]))
    ensures CanonicalBreaks(NormalizeBreaks(s))
  {
    var out := NormalizeBreaks(s);
    var rest := NormalizeBreaks(s[1..]);
    assert out == [s[0]] + rest;
    forall i, j | 0 <= i <= j <= |out| && IsBreakTag(out[i..j])
      ensures out[i..j] == Br
    {
      if i >= 1 {
        SliceAfter([s[0]], rest, i, j);
      } else {
        assert out[..j] == out[i..j];
        NoTagAtStart(s, j);
      }
    }
  }

  /** After normalising, every break tag in the text is spelled `<br/>`. */
  lemma {:induction false} NormalizeCanonical(s: string)
    ensures CanonicalBreaks(NormalizeBreaks(s))
    decreases |s|
  {
    if s == [] {
    } else if BreakTagLen(s).Some? {
      var n := BreakTagLen(s).value;
      NormalizeCanonical(s[n..]);
      CanonicalAfterBr(NormalizeBreaks(s[n..]));
    } else {
      NormalizeCanonical(s[1..]);
      CanonicalAfterChar(s);
    }
  }

  /** A break tag in any spelling at the front becomes `<br/>`, whatever follows it. */
  lemma NormalizeAtBreakTag(t: string, x: string)
    requires IsBreakTag(t)
    ensures NormalizeBreaks(t + x) == Br + NormalizeBreaks(x)
  {
    var u := t + x;
    assert u[..|t|] == t;
    var n := BreakTagLen(u).value;
    if n <= |t| {
      BreakTagUnique(u, n, |t|);
    } else {
      BreakTagUnique(u, |t|, n);
    }
    assert u[|t|..] == x;
  }

  /** Text without '<' is copied as it is. */
  lemma {:induction false} NormalizePlain(p: string, x: string)
    requires '<' !in p
    ensures NormalizeBreaks(p + x) == p + NormalizeBreaks(x)
    decreases |p|
  {
    if p != [] {
      var u := p + x;
      assert u[0] == p[0] && u[1..] == p[1..] + x;
      NormalizePlain(p[1..], x);
      assert p == [p[0]] + p[1..];
    } else {
      assert p + x == x;
    }
  }

  /** A break tag has '>' only as its last character. */
  lemma BreakTagCloses(w: string)
    ensures IsBreakTag(w) ==> forall k :: 0 <= k < |w| - 1 ==> w[k] != '>'
  {
  }

  /** No prefix of a text that starts with a non-break tag is a break tag. */
  lemma NoBreakPrefix(tag: string, x: string, n: nat)
    requires |tag| >= 2 && tag[0] == '<' && tag[|tag| - 1] == '>' && !IsBreakTag(tag)
    requires forall k :: 0 <= k < |tag| - 1 ==> tag[k] != '>'
    requires n <= |tag + x|
    ensures !IsBreakTag((tag + x)[..n])
  {
    var w := (tag + x)[..n];
    BreakTagCloses(w);
    if n < |tag| {
      if n >= 1 {
        assert w[n - 1] == tag[n - 1];
      }
    } else if n == |tag| {
      assert w == tag;
    } else {
      assert w[|tag| - 1] == '>';
    }
  }

  /** No break tag starts at a tag that is not a break tag. */
  lemma OtherTagNoBreak(inner: string, x: string)
    requires '<' !in inner && '>' !in inner && !IsBreakTag("<" + inner + ">")
    ensures BreakTagLen("<" + inner + ">" + x).None?
  {
    var tag := "<" + inner + ">";
    var u := tag + x;
    assert forall k :: 1 <= k < |tag| - 1 ==> tag[k] == inner[k - 1];
    forall n | 0 <= n <= |u|
      ensures !IsBreakTag(u[..n])
    {
      NoBreakPrefix(tag, x, n);
    }
  }

  /** A tag that is not a break tag is copied as it is. */
  lemma NormalizeOtherTag(inner: string, x: string)
    requires '<' !in inner && '>' !in inner && !IsBreakTag("<" + inner + ">")
    ensures NormalizeBreaks("<" + inner + ">" + x) == "<" + inner + ">" + NormalizeBreaks(x)
  {
    var u := "<" + inner + ">" + x;
    var p := inner + ">";
    OtherTagNoBreak(inner, x);
    assert u == "<" + (p + x);
    assert u[1..] == p + x;
    assert NormalizeBreaks(u) == [u[0]] + NormalizeBreaks(p + x);
    NormalizePlain(p, x);
  }

  /** The suffix of a canonical text is canonical. */
  lemma CanonicalSuffix(x: string, k: nat)
    requires CanonicalBreaks(x) && k <= |x|
    ensures CanonicalBreaks(x[k..])
  {
    forall i, j | 0 <= i <= j <= |x[k..]| && IsBreakTag(x[k..][i..j])
      ensures x[k..][i..j] == Br
    {
      assert x[k..][i..j] == x[k + i..k + j];
    }
  }

  /** A text whose break tags are all `<br/>` is left as it is; in particular a text without
      break tags. */
  lemma {:induction false} NormalizeFixes(x: string)
    requires CanonicalBreaks(x)
    ensures NormalizeBreaks(x) == x
    decreases |x|
  {
    if x != [] {
      match BreakTagLen(x)
      case Some(n) =>
        assert x[0..n] == x[..n];
        assert n == 5;
        CanonicalSuffix(x, 5);
        NormalizeFixes(x[5..]);
        assert x == x[..5] + x[5..];
      case None =>
        CanonicalSuffix(x, 1);
        NormalizeFixes(x[1..]);
        assert x == [x[0]] + x[1..];
    }
  }

  /** Normalising twice is normalising once. */
  lemma NormalizeIdempotent(s: string)
    ensures NormalizeBreaks(NormalizeBreaks(s)) == NormalizeBreaks(s)
  {
    NormalizeCanonical(s);
    NormalizeFixes(NormalizeBreaks(s));
  }

  /** A run of break tags in any spelling, each followed by its whitespace gap. */
  function TagRun(tags: seq<string>, gaps: seq<string>): string
    requires |tags| == |gaps|
  {
    if tags == [] then [] else tags[0] + (gaps[0] + TagRun(tags[1..], gaps[1..]))
  }

  /** A run of tags followed by `y` is its first tag and gap followed by the rest and `y`. */
  lemma TagRunCons(tags: seq<string>, gaps: seq<string>, y: string)
    requires |tags| == |gaps| && tags != []
    ensures TagRun(tags, gaps) + y == tags[0] + (gaps[0] + (TagRun(tags[1..], gaps[1..]) + y))
  {
    assert TagRun(tags, gaps) == tags[0] + (gaps[0] + TagRun(tags[1..], gaps[1..]));
    AppendAssoc3(tags[0], gaps[0], TagRun(tags[1..], gaps[1..]), y);
  }

  /** Appending to a nested concatenation. */
  lemma AppendAssoc3<T>(a: seq<T>, b: seq<T>, c: seq<T>, y: seq<T>)
    ensures (a + (b + c)) + y == a + (b + (c + y))
  {
  }

  /** The first tag of a run becomes `<br/>` and its gap is kept. */
  lemma NormalizeRunHead(t: string, g: string, rest: string)
    requires IsBreakTag(t) && Blank(g)
    ensures NormalizeBreaks(t + (g + rest)) == Br + (g + NormalizeBreaks(rest))
  {
    NormalizeAtBreakTag(t, g + rest);
    assert '<' !in g by {
      assert forall k :: 0 <= k < |g| ==> IsSpace(g[k]);
    }
    NormalizePlain(g, rest);
  }

  /** Normalising a run of break tags respells each of them `<br/>` and keeps the gaps. */
  lemma {:induction false} NormalizeRun(tags: seq<string>, gaps: seq<string>, x: string)
    requires |tags| == |gaps| && AllBlank(gaps)
    requires forall m :: 0 <= m < |tags| ==> IsBreakTag(tags[m])
    ensures NormalizeBreaks(TagRun(tags, gaps) + x) == BrRun(gaps) + NormalizeBreaks(x)
    decreases |tags|
  {
    if tags == [] {
      assert TagRun(tags, gaps) + x == x;
    } else {
      var rest := TagRun(tags[1..], gaps[1..]) + x;
      TagRunCons(tags, gaps, x);
      AllBlankTail(gaps);
      NormalizeRunHead(tags[0], gaps[0], rest);
      assert forall m :: 0 <= m < |tags[1..]| ==> tags[1..][m] == tags[m + 1];
      NormalizeRun(tags[1..], gaps[1..], x);
      BrRunCons(gaps, NormalizeBreaks(x));
    }
  }


  /** No break tag in any spelling starts `x`. */
  predicate NoBreakTagAtStart(x: string) { forall n :: 0 <= n <= |x| ==> !IsBreakTag(x[..n]) }

  /** The break stage of `_clean_html_content` on the serialised chapter: normalise, then
      collapse. No run of three or more breaks is left, and text without tags is kept. */
  function CleanBreaks(html: string): (r: string)
    ensures AtMostTwoBreaks(r)
    ensures '<' !in html ==> r == html
  {
    CollapseLeavesAtMostTwo(NormalizeBreaks(html));
    if '<' in html then Collapse(NormalizeBreaks(html))
    else
      NormalizePlain(html, []);
      CollapsePlain(html, []);
      assert html + [] == html;
      Collapse(NormalizeBreaks(html))
  }

  /** Text without '<' passes the break stage unchanged. */
  lemma CleanBreaksPlain(p: string, x: string)
    requires '<' !in p
    ensures CleanBreaks(p + x) == p + CleanBreaks(x)
  {
    NormalizePlain(p, x);
    CollapsePlain(p, NormalizeBreaks(x));
  }

  /** A tag that is not a break tag passes the break stage unchanged. */
  lemma CleanBreaksTag(inner: string, x: string)
    requires '<' !in inner && '>' !in inner && !IsBreakTag("<" + inner + ">")
    ensures CleanBreaks("<" + inner + ">" + x) == "<" + inner + ">" + CleanBreaks(x)
  {
    NormalizeOtherTag(inner, x);
    assert IsBreakTag(Br);
    assert inner != "br/" by {
      assert "<" + "br/" + ">" == Br;
    }
    CollapseTag(inner, NormalizeBreaks(x));
  }

  /** A maximal run of break tags in any spelling, with the whitespace after each, comes out as
      `<br/>` per tag when there are one or two of them, and as exactly two `<br/>` when there
      are three or more. */
  lemma CleanBreaksRun(tags: seq<string>, gaps: seq<string>, x: string)
    requires |tags| == |gaps| && AllBlank(gaps)
    requires forall m :: 0 <= m < |tags| ==> IsBreakTag(tags[m])
    requires NoBreakTagAtStart(x) && (x == [] || !IsSpace(x[0]))
    ensures CleanBreaks(TagRun(tags, gaps) + x) == (if |tags| >= 3 then Br + Br else BrRun(gaps)) + CleanBreaks(x)
  {
    NormalizeRun(tags, gaps, x);
    var nx := NormalizeBreaks(x);
    assert RunEnder(nx) by {
      if x != [] {
        assert BreakTagLen(x).None?;
        if |nx| >= 5 {
          NoTagAtStart(x, 5);
          assert IsBreakTag(Br);
          assert nx[..5] != Br;
        }
      }
    }
    if |tags| >= 3 {
      CollapseRun(gaps, nx);
    } else {
      CollapseShortRun(gaps, nx);
    }
  }

  /** `_clean_html_content` after the paragraph rewriting: `parsed` is the rewritten document
      serialised, or `None` when the parser raised, in which case the input comes back as it was. */
  function CleanContent(html: string, parsed: Option<string>): (r: string)
    ensures parsed.None? ==> r == html
    ensures parsed.Some? ==> AtMostTwoBreaks(r) && r == CleanBreaks(parsed.value)
  {
    match parsed
    case None => html
    case Some(doc) => CleanBreaks(doc)
  }

  // ---------------------------------------------------------------------------------------
  // The tag filter for the PDF renderer, over the paragraph's pieces
  // ---------------------------------------------------------------------------------------

  /** A paragraph as its pieces: text, or a tag written `<` + inner + `>`. */
  datatype Piece = Text(text: string) | Tag(inner: string)

  /** The text pieces, in order. */
  function TextsOf(ps: seq<Piece>): seq<string>
  {
    if ps == [] then []
    else (if ps[0].Text? then [ps[0].text] else []) + TextsOf(ps[1..])
  }

  /** The number of tags. */
  function TagCount(ps: seq<Piece>): nat
  {
    if ps == [] then 0 else (if ps[0].Tag? then 1 else 0) + TagCount(ps[1..])
  }

  lemma {:induction false} TextsOfAppend(a: seq<Piece>, b: seq<Piece>)
    ensures TextsOf(a + b) == TextsOf(a) + TextsOf(b)
    ensures TagCount(a + b) == TagCount(a) + TagCount(b)
    decreases |a|
  {
    if a != [] {
      assert (a + b)[0] == a[0];
      assert (a + b)[1..] == a[1..] + b;
      TextsOfAppend(a[1..], b);
    } else {
      assert a + b == b;
    }
  }

  /** `</x...>`: a closing tag as `</[^>]+>` sees one. */
  predicate IsClosing(p: Piece)
  {
    p.Tag? && |p.inner| >= 2 && p.inner[0] == '/'
  }

  /** `^<[^>]+>`: the first piece goes when it is a tag with something inside. */
  function DropLeading(ps: seq<Piece>): (r: seq<Piece>)
  {
    if ps != [] && ps[0].Tag? && ps[0].inner != [] then ps[1..] else ps
  }

  /** `</[^>]+>$`: a closing tag goes when it ends the paragraph or stands just before a final
      newline (where `$` also matches). */
  function DropTrailing(ps: seq<Piece>): (r: seq<Piece>)
  {
    if ps != [] && IsClosing(ps[|ps| - 1]) then ps[..|ps| - 1]
    else if |ps| >= 2 && ps[|ps| - 1] == Text("\n") && IsClosing(ps[|ps| - 2]) then ps[..|ps| - 2] + [Text("\n")]
    else ps
  }

  /** Removing the wrapper `_clean_html_for_pdf` starts with. */
  function DropWrapper(ps: seq<Piece>): seq<Piece>
  {
    DropTrailing(DropLeading(ps))
  }

  /** `^<[^>]+>` matches: the paragraph starts with a tag that has something inside. */
  predicate LeadingTag(ps: seq<Piece>) { ps != [] && ps[0].Tag? && ps[0].inner != [] }

  /** `</[^>]+>$` matches: the paragraph ends with a closing tag, or with one and a final newline. */
  predicate TrailingClose(ps: seq<Piece>) {
    (ps != [] && IsClosing(ps[|ps| - 1]))
    || (|ps| >= 2 && ps[|ps| - 1] == Text("\n") && IsClosing(ps[|ps| - 2]))
  }

  /** The leading tag removal keeps all text; it removes exactly the leading tag when there is
      one, and changes nothing otherwise. */
  lemma DropLeadingKeepsText(ps: seq<Piece>)
    ensures TextsOf(DropLeading(ps)) == TextsOf(ps)
    ensures LeadingTag(ps) ==> TagCount(DropLeading(ps)) == TagCount(ps) - 1 && DropLeading(ps) == ps[1..]
    ensures !LeadingTag(ps) ==> DropLeading(ps) == ps
  {
    if ps != [] && ps[0].Tag? && ps[0].inner != [] {
      assert ps == [ps[0]] + ps[1..];
      TextsOfAppend([ps[0]], ps[1..]);
    }
  }

  /** Removing a closing tag that ends the paragraph keeps the text and one tag goes. */
  lemma DropLastTag(init: seq<Piece>, tag: Piece)
    requires tag.Tag?
    ensures TextsOf(init) == TextsOf(init + [tag]) && TagCount(init) == TagCount(init + [tag]) - 1
  {
    TextsOfAppend(init, [tag]);
    assert TextsOf([tag]) == [] && TagCount([tag]) == 1;
  }

  /** Removing a closing tag before a final newline keeps the text and one tag goes. */
  lemma DropTagBeforeNewline(init: seq<Piece>, tag: Piece)
    requires tag.Tag?
    ensures TextsOf(init + [Text("\n")]) == TextsOf(init + [tag, Text("\n")])
    ensures TagCount(init + [Text("\n")]) == TagCount(init + [tag, Text("\n")]) - 1
  {
    assert init + [tag, Text("\n")] == (init + [tag]) + [Text("\n")];
    TextsOfAppend(init + [tag], [Text("\n")]);
    TextsOfAppend(init, [Text("\n")]);
    DropLastTag(init, tag);
  }

  /** The trailing tag removal keeps all text; it removes exactly the closing tag at the end
      (before a final newline, which stays) when there is one, and changes nothing otherwise. */
  lemma DropTrailingKeepsText(ps: seq<Piece>)
    ensures TextsOf(DropTrailing(ps)) == TextsOf(ps)
    ensures TrailingClose(ps) ==> TagCount(DropTrailing(ps)) == TagCount(ps) - 1 && |DropTrailing(ps)| == |ps| - 1
    ensures !TrailingClose(ps) ==> DropTrailing(ps) == ps
    ensures TrailingClose(ps) && IsClosing(ps[|ps| - 1]) ==> DropTrailing(ps) == ps[..|ps| - 1]
    ensures TrailingClose(ps) && !IsClosing(ps[|ps| - 1]) ==>
      ps[|ps| - 1] == Text("\n") && DropTrailing(ps) == ps[..|ps| - 2] + [Text("\n")]
  {
    if ps != [] && IsClosing(ps[|ps| - 1]) {
      assert ps == ps[..|ps| - 1] + [ps[|ps| - 1]];
      DropLastTag(ps[..|ps| - 1], ps[|ps| - 1]);
    } else if |ps| >= 2 && ps[|ps| - 1] == Text("\n") && IsClosing(ps[|ps| - 2]) {
      assert ps == ps[..|ps| - 2] + [ps[|ps| - 2], Text("\n")];
      DropTagBeforeNewline(ps[..|ps| - 2], ps[|ps| - 2]);
    }
  }

  /** Removing the wrapper keeps all text and removes exactly one tag for each end that
      matches: the leading tag, then a closing tag at the end of what is left. */
  lemma DropWrapperKeepsText(ps: seq<Piece>)
    ensures TextsOf(DropWrapper(ps)) == TextsOf(ps)
    ensures TagCount(DropWrapper(ps)) == TagCount(ps) - (if LeadingTag(ps) then 1 else 0)
                                                     - (if TrailingClose(DropLeading(ps)) then 1 else 0)
    ensures !LeadingTag(ps) && !TrailingClose(ps) ==> DropWrapper(ps) == ps
    ensures LeadingTag(ps) ==> DropWrapper(ps) == DropTrailing(ps[1..])
    ensures !LeadingTag(ps) ==> DropWrapper(ps) == DropTrailing(ps)
  {
    DropLeadingKeepsText(ps);
    DropTrailingKeepsText(DropLeading(ps));
  }

  /** The end of the run of characters satisfying `[a-z0-9]` (with `digits`) or `[a-z]`
      (without) that starts at `i`. */
  function RunEnd(s: string, i: nat, digits: bool): (e: nat)
    requires i <= |s|
    ensures i <= e <= |s|
    ensures forall k :: i <= k < e ==> IsLower(s[k]) || (digits && IsDigit(s[k]))
    ensures e == |s| || !(IsLower(s[e]) || (digits && IsDigit(s[e])))
    decreases |s| - i
  {
    if i < |s| && (IsLower(s[i]) || (digits && IsDigit(s[i]))) then RunEnd(s, i + 1, digits) else i
  }

  /** The run that starts inside `name` ends where `name` does when `rest` does not continue it. */
  lemma {:induction false} RunEndAt(name: string, rest: string, i: nat, digits: bool)
    requires i <= |name|
    requires forall k :: i <= k < |name| ==> IsLower(name[k]) || (digits && IsDigit(name[k]))
    requires rest == [] || !(IsLower(rest[0]) || (digits && IsDigit(rest[0])))
    ensures RunEnd(name + rest, i, digits) == |name|
    decreases |name| - i
  {
    var s := name + rest;
    if i < |name| {
      assert s[i] == name[i];
      RunEndAt(name, rest, i + 1, digits);
    } else if rest != [] {
      assert s[i] == rest[0];
    }
  }

  /** `<([a-z][a-z0-9]*)[^>]*>` to `<\1>`: an opening tag keeps only its name. */
  function StripAttrs(inner: string): (r: string)
    ensures StartsWith(inner, r)
    ensures inner == [] || !IsLower(inner[0]) ==> r == inner
    ensures inner != [] && IsLower(inner[0]) ==>
      r != [] && (forall k :: 0 <= k < |r| ==> IsLower(r[k]) || IsDigit(r[k]))
      && (r == inner || !(IsLower(inner[|r|]) || IsDigit(inner[|r|])))
  {
    if inner != [] && IsLower(inner[0]) then inner[..RunEnd(inner, 1, true)] else inner
  }

  /** `<strong>` and `<em>` (and their closing tags) become `<b>` and `<i>`. */
  function Rename(inner: string): string
  {
    if inner == "strong" then "b"
    else if inner == "/strong" then "/b"
    else if inner == "em" then "i"
    else if inner == "/em" then "/i"
    else inner
  }

  /** The name `</?([a-z]+)[^>]*>` captures, or `None` when the pattern does not match the tag. */
  function TagName(inner: string): (r: Option<string>)
    ensures r.Some? ==> r.value != [] && forall k :: 0 <= k < |r.value| ==> IsLower(r.value[k])
    ensures r.None? <==> (inner == [] || (inner[0] == '/' && (|inner| == 1 || !IsLower(inner[1])))
                          || (inner[0] != '/' && !IsLower(inner[0])))
  {
    var body := if inner != [] && inner[0] == '/' then inner[1..] else inner;
    if body != [] && IsLower(body[0]) then Some(body[..RunEnd(body, 1, false)]) else None
  }

  /** The tags the PDF renderer accepts. */
  const Allowed: seq<string> := ["b", "i", "u", "strike", "super", "sub", "br"]

  /** `replace_tag`: a break becomes `<br/>`, an allowed tag stays, any other tag the pattern
      matches is deleted, and a tag it does not match stays. */
  function Keep(inner: string): Option<string>
  {
    match TagName(inner)
    case None => Some(inner)
    case Some(name) =>
      if name == "br" then Some("br/")
      else if name in Allowed then Some(inner)
      else None
  }

  /** What the filter leaves of a tag whose name the pattern recognises: an allowed tag, and a
      break only as `<br/>`. */
  predicate PdfSafe(inner: string)
  {
    TagName(inner).Some? ==> TagName(inner).value in Allowed && (TagName(inner).value == "br" ==> inner == "br/")
  }

  /** One tag through the attribute strip, the renaming and the filter. A tag is deleted exactly
      when its recognised name is not allowed; what stays is safe for the renderer. */
  function PdfTag(inner: string): (r: Option<string>)
    ensures r.Some? ==> PdfSafe(r.value)
    ensures var x := Rename(StripAttrs(inner));
      r.None? <==> TagName(x).Some? && TagName(x).value !in Allowed
    ensures TagName(inner).None? && (inner == [] || inner[0] != '/') ==> r == Some(inner)
  {
    BreakName();
    Keep(Rename(StripAttrs(inner)))
  }

  /** The filter's own break tag is one it recognises as a break. */
  lemma BreakName()
    ensures TagName("br/") == Some("br")
  {
    RunEndAt("br", "/", 1, false);
    assert "br" + "/" == "br/";
  }

  /** The tags of a paragraph through `PdfTag`; text is left alone. */
  function FilterTags(ps: seq<Piece>): (r: seq<Piece>)
    ensures TextsOf(r) == TextsOf(ps)
    ensures forall p :: p in r && p.Tag? ==> PdfSafe(p.inner)
  {
    if ps == [] then []
    else
      var head := match ps[0]
        case Text(_) => [ps[0]]
        case Tag(inner) => match PdfTag(inner) case None => [] case Some(x) => [Tag(x)];
      var rest := FilterTags(ps[1..]);
      TextsOfAppend(head, rest);
      head + rest
  }

  /** One step of the filter. */
  lemma FilterTagsUnfold(ps: seq<Piece>)
    requires ps != []
    ensures FilterTags(ps) == FilterTags([ps[0]]) + FilterTags(ps[1..])
  {
    assert [ps[0]][1..] == [];
  }

  /** The filter works piece by piece: text stays, a tag goes through `PdfTag` and is deleted
      or replaced by what `PdfTag` leaves of it; so filtering a concatenation filters each part. */
  lemma {:induction false} FilterTagsAppend(a: seq<Piece>, b: seq<Piece>)
    ensures FilterTags(a + b) == FilterTags(a) + FilterTags(b)
    ensures |b| == 1 ==> FilterTags(b) == match b[0]
      case Text(_) => b
      case Tag(inner) => if PdfTag(inner).None? then [] else [Tag(PdfTag(inner).value)]
    decreases |a|
  {
    if a == [] {
      assert a + b == b;
    } else {
      assert (a + b)[0] == a[0];
      assert (a + b)[1..] == a[1..] + b;
      FilterTagsUnfold(a + b);
      FilterTagsUnfold(a);
      FilterTagsAppend(a[1..], b);
      AppendAssoc(FilterTags([a[0]]), FilterTags(a[1..]), FilterTags(b));
    }
    if |b| == 1 {
      assert b[1..] == [];
    }
  }

  /** The pieces written back as HTML. */
  function Render(ps: seq<Piece>): string
  {
    if ps == [] then []
    else (match ps[0] case Text(t) => t case Tag(inner) => "<" + inner + ">") + Render(ps[1..])
  }

  /** `_clean_html_for_pdf` on a paragraph's pieces: the pieces after the wrapper is removed
      and the tags filtered. */
  function PdfPieces(ps: seq<Piece>): (r: seq<Piece>)
    ensures TextsOf(r) == TextsOf(ps)
    ensures forall p :: p in r && p.Tag? ==> PdfSafe(p.inner)
  {
    DropWrapperKeepsText(ps);
    FilterTags(DropWrapper(ps))
  }

  /** A paragraph wrapped in an opening and a closing tag, as `<p>...</p>`: both wrapper tags
      go and only the body is filtered. */
  lemma PdfPiecesOfWrapped(open: string, body: seq<Piece>, close: string)
    requires open != [] && IsClosing(Tag(close))
    ensures PdfPieces([Tag(open)] + body + [Tag(close)]) == FilterTags(body)
  {
    var ps := [Tag(open)] + body + [Tag(close)];
    assert ps[1..] == body + [Tag(close)];
    assert DropLeading(ps) == body + [Tag(close)];
    assert (body + [Tag(close)])[..|body|] == body;
  }

  /** `_clean_html_for_pdf`: the filtered paragraph, with surrounding whitespace trimmed. The
      result is the piece of the filtered HTML that starts after its leading whitespace and is
      followed only by whitespace, and it neither starts nor ends with whitespace. */
  function CleanForPdf(ps: seq<Piece>): (r: string)
    ensures r == [] || (!IsSpace(r[0]) && !IsSpace(r[|r| - 1]))
    ensures var s := Render(PdfPieces(ps)); OccursAt(s, r, |s| - |LStrip(s)|)
    ensures var s := Render(PdfPieces(ps)); forall k :: 0 <= k < |s| - |LStrip(s)| ==> IsSpace(s[k])
    ensures var s := Render(PdfPieces(ps)); forall k :: |s| - |LStrip(s)| + |r| <= k < |s| ==> IsSpace(s[k])
  {
    var s := Render(PdfPieces(ps));
    StripEnds(s);
    StripOccurs(s);
    StripSurround(s);
    Strip(s)
  }

  /** `<strong ...>` reaches the renderer as `<b>`, whatever its attributes. */
  lemma StrongRenamed(rest: string)
    requires rest == [] || !(IsLower(rest[0]) || IsDigit(rest[0]))
    ensures PdfTag("strong" + rest) == Some("b")
  {
    RunEndAt("strong", rest, 1, true);
    assert ("strong" + rest)[..6] == "strong";
    RunEndAt("b", [], 1, false);
    assert "b" + [] == "b";
  }

  /** `<em ...>` reaches the renderer as `<i>`, whatever its attributes. */
  lemma EmRenamed(rest: string)
    requires rest == [] || !(IsLower(rest[0]) || IsDigit(rest[0]))
    ensures PdfTag("em" + rest) == Some("i")
  {
    RunEndAt("em", rest, 1, true);
    assert ("em" + rest)[..2] == "em";
    RunEndAt("i", [], 1, false);
    assert "i" + [] == "i";
  }

  /** `</strong>` and `</em>` reach the renderer as `</b>` and `</i>`. */
  lemma ClosingRenamed()
    ensures PdfTag("/strong") == Some("/b") && PdfTag("/em") == Some("/i")
  {
    RunEndAt("b", [], 1, false);
    RunEndAt("i", [], 1, false);
    assert "b" + [] == "b" && "i" + [] == "i";
    assert "/b"[1..] == "b" && "/i"[1..] == "i";
  }

  /** Tags outside the allowed set are deleted, whatever their attributes. */
  lemma OtherTagsDeleted(name: string, rest: string)
    requires name != [] && (forall k :: 0 <= k < |name| ==> IsLower(name[k]))
    requires name !in Allowed && name != "strong" && name != "em"
    requires rest == [] || !(IsLower(rest[0]) || IsDigit(rest[0]))
    ensures PdfTag(name + rest) == None && PdfTag("/" + name) == None
  {
    StripAttrsName(name, rest);
    assert Rename(name) == name by {
      assert name != "/strong" && name != "/em" by { assert name[0] != '/'; }
    }
    TagNameOfName(name);
    assert Rename("/" + name) == "/" + name by {
      assert ("/" + name)[1..] == name;
    }
    assert StripAttrs("/" + name) == "/" + name;
  }

  /** An opening tag that is a name followed by a non-name character keeps just the name. */
  lemma StripAttrsName(name: string, rest: string)
    requires name != [] && (forall k :: 0 <= k < |name| ==> IsLower(name[k]))
    requires rest == [] || !(IsLower(rest[0]) || IsDigit(rest[0]))
    ensures StripAttrs(name + rest) == name
  {
    RunEndAt(name, rest, 1, true);
    assert (name + rest)[..|name|] == name;
  }

  /** The pattern captures a whole name, opening or closing. */
  lemma TagNameOfName(name: string)
    requires name != [] && (forall k :: 0 <= k < |name| ==> IsLower(name[k]))
    ensures TagName(name) == Some(name) && TagName("/" + name) == Some(name)
  {
    RunEndAt(name, [], 1, false);
    assert name + [] == name;
    assert ("/" + name)[1..] == name;
  }

  // ---------------------------------------------------------------------------------------
  // Compiling chapters into a book
  // ---------------------------------------------------------------------------------------

  /** The columns of a story's profile the compiler reads. */
  datatype Profile = Profile(outputFormat: string, pdfPageSize: Option<string>, css: Option<string>)

  /** A chapter as it goes into the book. */
  datatype BookChapter = BookChapter(title: string, content: string)

  /** The renderer call a compilation ends with. */
  datatype Rendering =
    | Epub(title: string, author: string, chapters: seq<BookChapter>, path: string, cover: Option<string>, css: Option<string>)
    | Pdf(title: string, author: string, chapters: seq<BookChapter>, path: string, cover: Option<string>, css: Option<string>,
          pageSize: string)

  /** The chapter's file is there to read: a non-empty local path that exists. */
  predicate HasFile(c: Chapter, exists_: string -> bool)
  {
    Truthy(c.localPath) && exists_(c.localPath.value)
  }

  /** The chapter contributes to the book: its file is there and reads without error. */
  predicate Contributes(c: Chapter, exists_: string -> bool, read: string -> Result<string>)
  {
    HasFile(c, exists_) && read(c.localPath.value).Ok?
  }

  /** The book chapters of the contributing chapters, in the order given. */
  function Contents(chs: seq<Chapter>, exists_: string -> bool, read: string -> Result<string>): (r: seq<BookChapter>)
    ensures |r| <= |chs|
    ensures r == [] <==> forall i :: 0 <= i < |chs| ==> !Contributes(chs[i], exists_, read)
    decreases |chs|
  {
    if chs == [] then []
    else
      var c := chs[|chs| - 1];
      var init := Contents(chs[..|chs| - 1], exists_, read);
      assert forall i :: 0 <= i < |chs| - 1 ==> chs[..|chs| - 1][i] == chs[i];
      if Contributes(c, exists_, read) then init + [BookChapter(c.title, read(c.localPath.value).value)] else init
  }

  /** The contents of consecutive runs of chapters are the runs' contents one after the other. */
  lemma {:induction false} ContentsAppend(a: seq<Chapter>, b: seq<Chapter>, exists_: string -> bool, read: string -> Result<string>)
    ensures Contents(a + b, exists_, read) == Contents(a, exists_, read) + Contents(b, exists_, read)
    decreases |b|
  {
    if b == [] {
      assert a + b == a;
    } else {
      var init := b[..|b| - 1];
      assert (a + b)[..|a + b| - 1] == a + init;
      assert (a + b)[|a + b| - 1] == b[|b| - 1];
      ContentsAppend(a, init, exists_, read);
    }
  }

  /** Each contributing chapter gives one book chapter with its title and file content. */
  lemma ContentsOfOne(c: Chapter, exists_: string -> bool, read: string -> Result<string>)
    ensures Contents([c], exists_, read)
      == if Contributes(c, exists_, read) then [BookChapter(c.title, read(c.localPath.value).value)] else []
  {
    assert [c][..0] == [];
  }

  /** The output format: the profile's, lower-cased, else `epub`. */
  function OutputFormat(profile: Option<Profile>): string
  {
    if profile.Some? then Lower(profile.value.outputFormat) else "epub"
  }

  /** The page size for a PDF: the profile's when set and non-empty, else A4. */
  function PageSize(profile: Option<Profile>): string
  {
    if profile.Some? && Truthy(profile.value.pdfPageSize) then profile.value.pdfPageSize.value else "A4"
  }

  /** The part of `_compile_chapters` after the files are read: the error when nothing was read,
      else the renderer call with the chosen title, format, path, stylesheet and page size. */
  function Assemble(cfg: Config, root: string, story: Story, profile: Option<Profile>, chs: seq<Chapter>,
                    suffix: string, fileType: FileType, contents: seq<BookChapter>): (r: Result<Rendering>)
    ensures contents == [] ==> r == Err("No content found for " + suffix + ".")
    ensures contents != [] ==> (r.Ok? <==> CompiledAbsolutePath(cfg, root, story, suffix, OutputFormat(profile), chs, fileType).Ok?)
    ensures r.Ok? ==> r.value.title == story.title + " - " + suffix && r.value.author == story.author
                      && r.value.chapters == contents && r.value.cover == story.coverPath
                      && r.value.path == CompiledAbsolutePath(cfg, root, story, suffix, OutputFormat(profile), chs, fileType).value
    ensures r.Ok? ==> (r.value.Pdf? <==> OutputFormat(profile) == "pdf")
    ensures r.Ok? && r.value.Pdf? ==> r.value.pageSize == PageSize(profile)
  {
    if contents == [] then Err("No content found for " + suffix + ".")
    else
      var format := OutputFormat(profile);
      match CompiledAbsolutePath(cfg, root, story, suffix, format, chs, fileType)
      case Err(m) => Err(m)
      case Ok(path) =>
        var css := if profile.Some? && Truthy(profile.value.css) then profile.value.css else None;
        if format == "pdf" then
          Ok(Pdf(story.title + " - " + suffix, story.author, contents, path, story.coverPath, css, PageSize(profile)))
        else
          Ok(Epub(story.title + " - " + suffix, story.author, contents, path, story.coverPath, css))
  }

  /** `_compile_chapters`: the renderer call, or the error raised. A book needs at least one
      contributing chapter; its title is the story's title and the suffix; it is a PDF exactly
      when the profile's format is `pdf` in some letter case, and its file ends in that format. */
  function CompileSpec(cfg: Config, root: string, story: Story, profile: Option<Profile>, chs: seq<Chapter>,
                       suffix: string, fileType: FileType, exists_: string -> bool,
                       read: string -> Result<string>): (r: Result<Rendering>)
    ensures Contents(chs, exists_, read) == [] ==> r == Err("No content found for " + suffix + ".")
    ensures r.Ok? ==> r.value.title == story.title + " - " + suffix && r.value.author == story.author
                      && r.value.chapters == Contents(chs, exists_, read) && r.value.chapters != []
                      && r.value.cover == story.coverPath
    ensures r.Ok? ==> (r.value.Pdf? <==> OutputFormat(profile) == "pdf")
    ensures r.Ok? && r.value.Pdf? ==> r.value.pageSize == PageSize(profile)
    ensures r.Ok? && OutputFormat(profile) != [] && '/' !in OutputFormat(profile) ==>
      EndsWith(Lower(r.value.path), Lower("." + OutputFormat(profile)))
    ensures Contents(chs, exists_, read) != [] ==>
      (r.Ok? <==> CompiledAbsolutePath(cfg, root, story, suffix, OutputFormat(profile), chs, fileType).Ok?)
  {
    Assemble(cfg, root, story, profile, chs, suffix, fileType, Contents(chs, exists_, read))
  }

  /** The loop of `_compile_chapters` that reads the chapter files in turn, skipping a chapter
      whose file is missing or cannot be read. */
  method ReadContents(chs: seq<Chapter>, exists_: string -> bool, read: string -> Result<string>)
    returns (contents: seq<BookChapter>)
    ensures contents == Contents(chs, exists_, read)
  {
    contents := [];
    var i := 0;
    while i < |chs|
      invariant 0 <= i <= |chs|
      invariant contents == Contents(chs[..i], exists_, read)
    {
      var c := chs[i];
      assert chs[..i + 1] == chs[..i] + [c];
      ContentsAppend(chs[..i], [c], exists_, read);
      ContentsOfOne(c, exists_, read);
      if c.localPath.Some? && c.localPath.value != [] && exists_(c.localPath.value) {
        var content := read(c.localPath.value);
        if content.Ok? {
          contents := contents + [BookChapter(c.title, content.value)];
        }
      }
      i := i + 1;
    }
    assert chs[..|chs|] == chs;
  }

  /** `_compile_chapters`: reads the chapter files, then settles title, format and path. */
  method CompileChapters(cfg: Config, root: string, story: Story, profile: Option<Profile>, chs: seq<Chapter>,
                         suffix: string, fileType: FileType, exists_: string -> bool,
                         read: string -> Result<string>) returns (r: Result<Rendering>)
    ensures r == CompileSpec(cfg, root, story, profile, chs, suffix, fileType, exists_, read)
  {
    var contents := ReadContents(chs, exists_, read);
    r := Assemble(cfg, root, story, profile, chs, suffix, fileType, contents);
  }

  /** The book title suffix of a volume: the first chapter's volume title when non-empty, else
      `Vol n`. */
  function VolumeSuffix(first: Chapter, volumeNumber: int): (r: string)
    ensures Truthy(first.volumeTitle) ==> r == first.volumeTitle.value
    ensures !Truthy(first.volumeTitle) ==> StartsWith(r, "Vol ") && r[4..] == IntToString(volumeNumber)
  {
    if Truthy(first.volumeTitle) then first.volumeTitle.value else "Vol " + IntToString(volumeNumber)
  }

  /** `compile_volume`: `story` is the story row with id `storyId` if there is one, and `rows`
      the volume's chapters as the query returns them (ordered by index). */
  function CompileVolumeSpec(cfg: Config, root: string, storyId: int, story: Option<Story>, profile: Option<Profile>,
                             volumeNumber: int, rows: seq<Chapter>, exists_: string -> bool,
                             read: string -> Result<string>): (r: Result<Rendering>)
    ensures story.None? ==> r == Err("Story with ID " + IntToString(storyId) + " not found")
    ensures story.Some? && rows == [] ==>
      r == Err("No chapters found for volume " + IntToString(volumeNumber) + " of story " + IntToString(storyId))
    ensures story.Some? && rows != [] ==>
      r == CompileSpec(cfg, root, story.value, profile, rows, VolumeSuffix(rows[0], volumeNumber), Volume, exists_, read)
  {
    if story.None? then Err("Story with ID " + IntToString(storyId) + " not found")
    else if rows == [] then
      Err("No chapters found for volume " + IntToString(volumeNumber) + " of story " + IntToString(storyId))
    else CompileSpec(cfg, root, story.value, profile, rows, VolumeSuffix(rows[0], volumeNumber), Volume, exists_, read)
  }

  /** `compile_full_story`: every chapter of the story (as the query returns them), as `Full`. */
  function CompileFullSpec(cfg: Config, root: string, storyId: int, story: Option<Story>, profile: Option<Profile>,
                           rows: seq<Chapter>, exists_: string -> bool,
                           read: string -> Result<string>): (r: Result<Rendering>)
    ensures story.None? ==> r == Err("Story with ID " + IntToString(storyId) + " not found")
    ensures story.Some? && rows == [] ==> r == Err("No chapters found for story " + IntToString(storyId))
    ensures story.Some? && rows != [] ==> r == CompileSpec(cfg, root, story.value, profile, rows, "Full", Full, exists_, read)
  {
    if story.None? then Err("Story with ID " + IntToString(storyId) + " not found")
    else if rows == [] then Err("No chapters found for story " + IntToString(storyId))
    else CompileSpec(cfg, root, story.value, profile, rows, "Full", Full, exists_, read)
  }

  /** A volume compiles only when at least one of its chapters has a readable file; the book then
      holds exactly those chapters, in the volume's order. */
  lemma VolumeNeedsContent(cfg: Config, root: string, storyId: int, story: Option<Story>, profile: Option<Profile>,
                           volumeNumber: int, rows: seq<Chapter>, exists_: string -> bool, read: string -> Result<string>)
    ensures var r := CompileVolumeSpec(cfg, root, storyId, story, profile, volumeNumber, rows, exists_, read);
      r.Ok? ==> story.Some? && (exists i :: 0 <= i < |rows| && Contributes(rows[i], exists_, read))
                && r.value.chapters == Contents(rows, exists_, read)
  {
  }
}
