/**
 * `clean_message` on the worked examples with the keyword `bugbot` that the
 * repository's test script lists, derived from the scan piece by piece.
 *
 * Each example text is first split into short literal pieces (the text before
 * the keyword, the whitespace around it, the keyword as written, the rest).
 * Simple checks are evaluated on those pieces only, and the general lemmas
 * below put the substitution, the collapsing and the strip together.
 */
module CleanExamples {
  import opened Text
  import opened Clean

  // ---------------------------------------------------------------------
  // Checks that evaluate on short literal pieces

  /** The keyword agrees with `s` from `j + m` on, case ignored. */
  predicate AgreesFrom(k: string, s: string, j: nat, m: nat)
    decreases |k| - m
  {
    m >= |k| || (j + m < |s| && Lower(s[j + m]) == Lower(k[m]) && AgreesFrom(k, s, j, m + 1))
  }

  /** From `i` on, every whitespace character is a plain space followed by non-whitespace. */
  predicate SpacedFrom(s: string, i: nat)
    decreases |s| - i
  {
    i + 1 >= |s| || ((IsSpace(s[i]) ==> s[i] == ' ' && !IsSpace(s[i + 1])) && SpacedFrom(s, i + 1))
  }

  /** `s[i..j]` is all whitespace. */
  predicate AllSpace(s: string, i: nat, j: nat)
    decreases j - i
  {
    i >= j || (i < |s| && IsSpace(s[i]) && AllSpace(s, i + 1, j))
  }

  /** `s[i..j]` holds no whitespace. */
  predicate NoSpace(s: string, i: nat, j: nat)
    decreases j - i
  {
    i >= j || (i < |s| && !IsSpace(s[i]) && NoSpace(s, i + 1, j))
  }

  lemma {:induction false} AgreesMatch(k: string, s: string, j: nat, m: nat)
    requires m < |k| && AgreesFrom(k, s, j, m)
    ensures j + |k| <= |s| && forall q :: m <= q < |k| ==> Lower(s[j + q]) == Lower(k[q])
    ensures m == 0 ==> MatchesAt(k, s, j)
    decreases |k| - m
  {
    if m + 1 < |k| {
      AgreesMatch(k, s, j, m + 1);
    }
  }

  /** A non-empty text with non-whitespace ends that passes `SpacedFrom` is in normal form. */
  lemma {:induction false} SpacedIsNormal(s: string, i: nat)
    requires i <= |s| && SpacedFrom(s, i)
    requires |s| > 0 && !IsSpace(s[|s| - 1]) && (i == 0 ==> !IsSpace(s[0]))
    ensures forall p :: i <= p < |s| && IsSpace(s[p]) ==> s[p] == ' ' && p < |s| - 1 && !IsSpace(s[p + 1])
    ensures i == 0 ==> IsNormal(s)
    decreases |s| - i
  {
    if i + 1 < |s| {
      SpacedIsNormal(s, i + 1);
    }
  }

  lemma {:induction false} AllSpaceAll(s: string, i: nat, j: nat)
    requires j <= |s| && AllSpace(s, i, j)
    ensures forall p :: i <= p < j ==> IsSpace(s[p])
    decreases j - i
  {
    if i < j {
      AllSpaceAll(s, i + 1, j);
    }
  }

  lemma {:induction false} NoSpaceAll(s: string, i: nat, j: nat)
    requires j <= |s| && NoSpace(s, i, j)
    ensures forall p :: i <= p < j ==> !IsSpace(s[p])
    decreases j - i
  {
    if i < j {
      NoSpaceAll(s, i + 1, j);
    }
  }

  /** For a keyword starting with `b`, only `b` and `B` lower to its first letter. */
  lemma NoInitial(k: string, s: string, i: nat)
    requires |k| > 0 && k[0] == 'b' && i <= |s|
    requires 'b' !in s[i..] && 'B' !in s[i..]
    ensures forall p :: i <= p < |s| ==> Lower(s[p]) != Lower(k[0])
  {
    forall p | i <= p < |s|
      ensures Lower(s[p]) != Lower(k[0])
    {
      assert s[p] == s[i..][p - i];
    }
  }

  /**
   * Where the keyword's first letter occurs in `a` at most at its first
   * position, and the keyword's second letter does not follow it there, the
   * keyword starts nowhere in `a`.
   */
  lemma PrefixNoMatch(k: string, a: string, rest: string, i: nat)
    requires |k| > 0 && i <= 1
    requires forall p :: i <= p < |a| ==> Lower(a[p]) != Lower(k[0])
    requires i == 1 ==> |k| > 1 && |a| > 1 && Lower(a[1]) != Lower(k[1])
    ensures forall p :: 0 <= p < |a| ==> !MatchesAt(k, a + rest, p)
  {
    var t := a + rest;
    forall p | 0 <= p < |a|
      ensures !MatchesAt(k, t, p)
    {
      if p + |k| <= |t| {
        if p < i {
          assert t[p + 1] == a[1];
        } else {
          assert t[p + 0] == a[p];
        }
      }
    }
  }

  // ---------------------------------------------------------------------
  // The keyword substitution, piece by piece

  /**
   * A stretch `[i, j)` where the keyword starts nowhere, and which does not
   * end in whitespace inside the text, is copied as it is.
   */
  lemma CopyPlainAt(k: string, s: string, i: nat, j: nat)
    requires ScannableKeyword(k) && i <= j <= |s|
    requires forall p :: i <= p < j ==> !MatchesAt(k, s, p)
    requires i < j < |s| ==> !IsSpace(s[j - 1])
    ensures Substitute(k, s, i) == s[i..j] + Substitute(k, s, j)
  {
    forall p | i <= p < j
      ensures !MatchesAt(k, s, SpaceRunEnd(s, p))
    {
      SpaceRunIsSpace(s, p);
    }
    CopyRun(k, s, i, j);
  }

  /**
   * The keyword at `j` with whitespace `[i, j)` before it and whitespace up
   * to `e` after it, where non-whitespace follows or the text ends.
   */
  lemma PaddedLayout(k: string, t: string, i: nat, j: nat, e: nat)
    requires ScannableKeyword(k) && i <= j && j + |k| <= e <= |t|
    requires forall p :: i <= p < j ==> IsSpace(t[p])
    requires MatchesAt(k, t, j)
    requires forall p :: j + |k| <= p < e ==> IsSpace(t[p])
    requires e < |t| ==> !IsSpace(t[e])
    ensures SpaceRunEnd(t, i) == j && SpaceRunEnd(t, j + |k|) == e
  {
    assert !IsSpace(t[j]) by {
      assert Lower(t[j + 0]) == Lower(k[0]);
    }
    SpaceRunEndAt(t, i, j);
    SpaceRunEndAt(t, j + |k|, e);
  }

  /** The scan at `i` replaces the keyword laid out as `PaddedLayout` says, and the whitespace around it, with one space. */
  lemma PaddedAt(k: string, t: string, i: nat, j: nat, e: nat)
    requires ScannableKeyword(k) && i <= j && j + |k| <= e <= |t|
    requires SpaceRunEnd(t, i) == j && MatchesAt(k, t, j) && SpaceRunEnd(t, j + |k|) == e
    ensures Substitute(k, t, i) == " " + Substitute(k, t, e)
  {
    DropOne(k, t, i);
  }

  /** Where the keyword starts nowhere from `e` on, the scan copies the rest of the text. */
  lemma CopyRest(k: string, t: string, e: nat)
    requires ScannableKeyword(k) && e <= |t|
    requires forall p :: e <= p < |t| ==> !MatchesAt(k, t, p)
    ensures Substitute(k, t, e) == t[e..]
  {
    CopyPlainAt(k, t, e, |t|);
    assert t[e..|t|] + Substitute(k, t, |t|) == t[e..];
  }

  /**
   * One keyword in the text, at `j`, with whitespace `[i, j)` before it and
   * whitespace up to `e` after it: the text before `i` is copied, the keyword
   * and the whitespace around it become one space, and the rest is copied.
   */
  lemma KeywordOnceAt(k: string, t: string, i: nat, j: nat, e: nat)
    requires ScannableKeyword(k) && i <= j && j + |k| <= e <= |t|
    requires forall p :: 0 <= p < i ==> !MatchesAt(k, t, p)
    requires 0 < i ==> !IsSpace(t[i - 1])
    requires forall p :: i <= p < j ==> IsSpace(t[p])
    requires MatchesAt(k, t, j)
    requires forall p :: j + |k| <= p < e ==> IsSpace(t[p])
    requires e < |t| ==> !IsSpace(t[e])
    requires forall p :: e <= p < |t| ==> !MatchesAt(k, t, p)
    ensures Substitute(k, t, 0) == t[..i] + " " + t[e..]
  {
    PaddedLayout(k, t, i, j, e);
    CopyPlainAt(k, t, 0, i);
    PaddedAt(k, t, i, j, e);
    CopyRest(k, t, e);
    JoinOnce(k, t, i, e);
  }

  /** The three parts of the scan laid end to end. */
  lemma JoinOnce(k: string, t: string, i: nat, e: nat)
    requires ScannableKeyword(k) && i <= e <= |t|
    requires Substitute(k, t, 0) == t[0..i] + Substitute(k, t, i)
    requires Substitute(k, t, i) == " " + Substitute(k, t, e)
    requires Substitute(k, t, e) == t[e..]
    ensures Substitute(k, t, 0) == t[..i] + " " + t[e..]
  {
    assert t[0..i] + (" " + t[e..]) == t[..i] + " " + t[e..];
  }

  /**
   * The keyword twice at the start of the text, at `0` and at `e`, each
   * followed by whitespace (the second up to `f`): each becomes one space.
   */
  lemma KeywordTwiceAt(k: string, t: string, e: nat, f: nat)
    requires ScannableKeyword(k) && |k| <= e && e + |k| <= f <= |t|
    requires MatchesAt(k, t, 0) && forall p :: |k| <= p < e ==> IsSpace(t[p])
    requires MatchesAt(k, t, e) && forall p :: e + |k| <= p < f ==> IsSpace(t[p])
    requires f < |t| ==> !IsSpace(t[f])
    requires forall p :: f <= p < |t| ==> !MatchesAt(k, t, p)
    ensures Substitute(k, t, 0) == "  " + t[f..]
  {
    assert !IsSpace(t[e]) by {
      assert Lower(t[e + 0]) == Lower(k[0]);
    }
    PaddedLayout(k, t, 0, 0, e);
    PaddedLayout(k, t, e, e, f);
    PaddedAt(k, t, 0, 0, e);
    PaddedAt(k, t, e, e, f);
    CopyRest(k, t, f);
    JoinTwice(k, t, e, f);
  }

  /** The two spaces and the copied rest laid end to end. */
  lemma JoinTwice(k: string, t: string, e: nat, f: nat)
    requires ScannableKeyword(k) && e <= f <= |t|
    requires Substitute(k, t, 0) == " " + Substitute(k, t, e)
    requires Substitute(k, t, e) == " " + Substitute(k, t, f)
    requires Substitute(k, t, f) == t[f..]
    ensures Substitute(k, t, 0) == "  " + t[f..]
  {
    assert " " + (" " + t[f..]) == "  " + t[f..];
  }

  /** The keyword written as `w` inside a text matches there. */
  lemma PieceMatches(k: string, t: string, w: string, j: nat)
    requires |w| == |k| > 0 && AgreesFrom(k, w, 0, 0)
    requires j + |w| <= |t| && t[j..j + |w|] == w
    ensures MatchesAt(k, t, j)
  {
    AgreesMatch(k, w, 0, 0);
    forall m | 0 <= m < |k|
      ensures Lower(t[j + m]) == Lower(k[m])
    {
      assert t[j + m] == w[m];
    }
  }

  /** A whitespace piece `g` inside a text. */
  lemma PieceSpaces(t: string, g: string, i: nat)
    requires AllSpace(g, 0, |g|)
    requires i + |g| <= |t| && t[i..i + |g|] == g
    ensures forall p :: i <= p < i + |g| ==> IsSpace(t[p])
  {
    AllSpaceAll(g, 0, |g|);
    forall p | i <= p < i + |g|
      ensures IsSpace(t[p])
    {
      assert t[p] == g[p - i];
    }
  }

  /** A piece `b` at the end of a text, where the keyword's first letter does not occur. */
  lemma PieceAvoids(k: string, t: string, b: string, e: nat)
    requires |k| > 0 && k[0] == 'b' && e <= |t| && t[e..] == b
    requires 'b' !in b && 'B' !in b
    requires b == [] || !IsSpace(b[0])
    ensures forall p :: e <= p < |t| ==> !MatchesAt(k, t, p)
    ensures e < |t| ==> !IsSpace(t[e])
  {
    NoInitial(k, b, 0);
    forall p | e <= p < |t|
      ensures !MatchesAt(k, t, p)
    {
      if p + |k| <= |t| {
        assert t[p + 0] == b[p - e];
      }
    }
    if e < |t| {
      assert t[e] == b[0];
    }
  }

  /**
   * A piece `a` at the start of a text, where the keyword's first letter
   * occurs at most at the start, and there not followed by the keyword's
   * second letter.
   */
  lemma PrefixAvoids(k: string, t: string, a: string, i: nat)
    requires |k| > 0 && k[0] == 'b' && i <= 1 && i <= |a| <= |t| && t[..|a|] == a
    requires 'b' !in a[i..] && 'B' !in a[i..]
    requires i == 1 ==> |k| > 1 && |a| > 1 && Lower(a[1]) != Lower(k[1])
    requires a == [] || !IsSpace(a[|a| - 1])
    ensures forall p :: 0 <= p < |a| ==> !MatchesAt(k, t, p)
    ensures 0 < |a| ==> !IsSpace(t[|a| - 1])
  {
    NoInitial(k, a, i);
    assert t == a + t[|a|..];
    PrefixNoMatch(k, a, t[|a|..], i);
    if 0 < |a| {
      assert t[|a| - 1] == a[|a| - 1];
    }
  }

  // ---------------------------------------------------------------------
  // Collapsing and stripping, piece by piece

  /** A stretch without whitespace is copied by the collapsing. */
  lemma {:induction false} CollapseWordAt(s: string, i: nat, j: nat)
    requires i <= j <= |s|
    requires forall p :: i <= p < j ==> !IsSpace(s[p])
    ensures CollapseFrom(s, i) == s[i..j] + CollapseFrom(s, j)
    decreases j - i
  {
    if i < j {
      CollapseWordAt(s, i + 1, j);
      SliceCons(s, i, j, CollapseFrom(s, j));
    }
  }

  /** The whitespace run found in `y` is found at the same place in `x + y`. */
  lemma {:induction false} SpaceRunEndShift(x: string, y: string, i: nat)
    requires i <= |y|
    ensures SpaceRunEnd(x + y, |x| + i) == |x| + SpaceRunEnd(y, i)
    decreases |y| - i
  {
    if i < |y| {
      assert (x + y)[|x| + i] == y[i];
      if IsSpace(y[i]) {
        SpaceRunEndShift(x, y, i + 1);
      }
    }
  }

  /** Collapsing `x + y` from inside `y` is collapsing `y` alone. */
  lemma {:induction false} CollapseShift(x: string, y: string, i: nat)
    requires i <= |y|
    ensures CollapseFrom(x + y, |x| + i) == CollapseFrom(y, i)
    decreases |y| - i
  {
    if i < |y| {
      assert (x + y)[|x| + i] == y[i];
      if IsSpace(y[i]) {
        SpaceRunEndShift(x, y, i);
        CollapseShift(x, y, SpaceRunEnd(y, i));
      } else {
        CollapseShift(x, y, i + 1);
      }
    }
  }

  /** A word in front is kept by the collapsing. */
  lemma CollapseWord(w: string, y: string)
    requires NoSpace(w, 0, |w|)
    ensures Collapse(w + y) == w + Collapse(y)
  {
    var s := w + y;
    NoSpaceAll(w, 0, |w|);
    forall p | 0 <= p < |w|
      ensures !IsSpace(s[p])
    {
      assert s[p] == w[p];
    }
    CollapseWordAt(s, 0, |w|);
    assert s[0..|w|] == w;
    CollapseShift(w, y, 0);
  }

  /** A whitespace run in front, before non-whitespace or nothing, becomes one space. */
  lemma CollapseRun(r: string, y: string)
    requires |r| > 0 && AllSpace(r, 0, |r|)
    requires y == [] || !IsSpace(y[0])
    ensures Collapse(r + y) == " " + Collapse(y)
  {
    AllSpaceAll(r, 0, |r|);
    if y != [] {
      assert (r + y)[|r|] == y[0];
    }
    SpaceRunEndAt(r + y, 0, |r|);
    CollapseShift(r, y, 0);
  }

  /** Text that collapses to normal text with at most one space on either side normalizes to that text. */
  lemma NormalizeCollapsed(s: string, a: string, w: string, b: string)
    requires a == "" || a == " "
    requires b == "" || b == " "
    requires IsNormal(w) && Collapse(s) == a + w + b
    ensures Normalize(s) == w
  {
    StripPadding(a, w, b);
  }

  /** Normal text with at most one space on either side normalizes to itself without them. */
  lemma NormalizePadded(a: string, w: string, b: string)
    requires a == "" || a == " "
    requires b == "" || b == " "
    requires IsNormal(w) && (w == [] ==> a + b != " " + " ")
    ensures Normalize(a + w + b) == w
  {
    var t := a + w + b;
    assert SingleSpaced(t) by {
      forall p | 0 <= p < |t| && IsSpace(t[p])
        ensures t[p] == ' ' && (p + 1 == |t| || !IsSpace(t[p + 1]))
      {
        if p < |a| {
          if |w| > 0 {
            assert t[p + 1] == w[0];
          }
        } else if p < |a| + |w| {
          assert t[p] == w[p - |a|];
          if p + 1 < |a| + |w| {
            assert t[p + 1] == w[p - |a| + 1];
          }
        }
      }
    }
    CollapseFixesSingleSpaced(t, 0);
    assert t[0..] == t;
    NormalizeCollapsed(t, a, w, b);
  }

  /** Slices of a text made of two parts. */
  lemma Split(t: string, p: string, r: string, i: nat, j: nat)
    requires t == p + r && i <= j <= |p|
    ensures t[i..j] == p[i..j] && t[|p|..] == r
  {
  }

  /** The five pieces of a text laid end to end, each found at its place. */
  lemma Pieces(t: string, a: string, g: string, w: string, h: string, b: string)
    requires t == a + g + w + h + b
    ensures t[..|a|] == a && t[|a|..|a| + |g|] == g && t[|a| + |g|..|a| + |g| + |w|] == w
    ensures t[|a| + |g| + |w|..|a| + |g| + |w| + |h|] == h && t[|a| + |g| + |w| + |h|..] == b
  {
  }

  lemma FrontJoined(t: string, e: nat, b: string)
    requires e <= |t| && t[e..] == b
    ensures t[..0] + " " + t[e..] == " " + b
  {
  }

  /** A text whose scan leaves one space and then normal text `w` is cleaned to `w`. */
  lemma CleanFront(k: string, t: string, e: nat, w: string)
    requires ScannableKeyword(k) && e <= |t| && Substitute(k, t, 0) == t[..0] + " " + t[e..]
    requires t[e..] == w && IsNormal(w)
    ensures CleanMessage(k, t) == w
  {
    assert t[..0] + " " + t[e..] == " " + w + "";
    NormalizePadded(" ", w, "");
  }

  /** A text whose scan leaves normal text `w` and then one space is cleaned to `w`. */
  lemma CleanBack(k: string, t: string, i: nat, w: string)
    requires ScannableKeyword(k) && i <= |t| && Substitute(k, t, 0) == t[..i] + " " + t[|t|..]
    requires t[..i] == w && IsNormal(w) && w != []
    ensures CleanMessage(k, t) == w
  {
    assert t[..i] + " " + t[|t|..] == "" + w + " ";
    NormalizePadded("", w, " ");
  }

  /** A text whose scan leaves `a`, one space and `b`, where that is normal text `w`, is cleaned to `w`. */
  lemma CleanMiddle(k: string, t: string, i: nat, e: nat, a: string, b: string, w: string)
    requires ScannableKeyword(k) && i <= e <= |t| && Substitute(k, t, 0) == t[..i] + " " + t[e..]
    requires t[..i] == a && t[e..] == b && a + " " + b == w && IsNormal(w)
    ensures CleanMessage(k, t) == w
  {
    assert t[..i] + " " + t[e..] == "" + w + "";
    NormalizePadded("", w, "");
  }

  /** A text whose scan leaves two spaces and a word `w` is cleaned to `w`. */
  lemma CleanTwoSpaces(k: string, t: string, f: nat, w: string)
    requires ScannableKeyword(k) && f <= |t| && Substitute(k, t, 0) == "  " + t[f..]
    requires t[f..] == w && |w| > 0 && NoSpace(w, 0, |w|)
    ensures CleanMessage(k, t) == w
  {
    CollapseRun("  ", w);
    CollapseWord(w, "");
    assert w + "" == w;
    NoSpaceAll(w, 0, |w|);
    NormalizeCollapsed("  " + w, " ", w, "");
  }

  // ---------------------------------------------------------------------
  // The layout of the example with two keywords

  /**
   * A text made of the keyword `w` twice, each followed by one space, and a
   * last piece `b` in which the keyword's first letter does not occur: where
   * each part lies.
   */
  lemma TwiceLayout(k: string, t: string, w: string, b: string)
    requires |w| == |k| > 0 && k[0] == 'b' && AgreesFrom(k, w, 0, 0)
    requires t == w + " " + w + " " + b
    requires 'b' !in b && 'B' !in b && (b == [] || !IsSpace(b[0]))
    ensures t[2 * |w| + 2..] == b
    ensures MatchesAt(k, t, 0) && forall p :: |w| <= p < |w| + 1 ==> IsSpace(t[p])
    ensures MatchesAt(k, t, |w| + 1) && forall p :: 2 * |w| + 1 <= p < 2 * |w| + 2 ==> IsSpace(t[p])
    ensures 2 * |w| + 2 < |t| ==> !IsSpace(t[2 * |w| + 2])
    ensures forall p :: 2 * |w| + 2 <= p < |t| ==> !MatchesAt(k, t, p)
  {
    Pieces(t, w, " ", w, " ", b);
    OneSpace();
    PieceMatches(k, t, w, 0);
    PieceSpaces(t, " ", |w|);
    PieceMatches(k, t, w, |w| + 1);
    PieceSpaces(t, " ", 2 * |w| + 1);
    PieceAvoids(k, t, b, 2 * |w| + 2);
  }

  // ---------------------------------------------------------------------
  // The examples

  lemma KeywordSpelled()
    ensures AgreesFrom("bugbot", "bugbot", 0, 0) && AgreesFrom("bugbot", "BUGBOT", 0, 0)
  {
  }

  lemma OneSpace()
    ensures AllSpace(" ", 0, 1)
  {
  }

  lemma ThisIsATest()
    ensures IsNormal("this is a test")
  {
    assert SpacedFrom("this is a test", 0);
    SpacedIsNormal("this is a test", 0);
  }

  lemma ThisIsATestFree()
    ensures 'b' !in "this is a test" && 'B' !in "this is a test"
  {
  }

  lemma KeywordFirstSlices(t: string)
    requires t == "bugbot this is a test"
    ensures t[0..6] == "bugbot" && t[6..7] == " " && t[7..] == "this is a test"
  {
  }

  /** "bugbot this is a test" is cleaned to "this is a test". */
  lemma KeywordFirst(k: string, t: string)
    requires k == "bugbot" && t == "bugbot this is a test"
    ensures ScannableKeyword(k)
    ensures CleanMessage(k, t) == "this is a test"
  {
    KeywordFirstSlices(t);
    KeywordSpelled();
    OneSpace();
    ThisIsATestFree();
    PieceMatches(k, t, "bugbot", 0);
    PieceSpaces(t, " ", 6);
    PieceAvoids(k, t, "this is a test", 7);
    KeywordOnceAt(k, t, 0, 0, 7);
    ThisIsATest();
    CleanFront(k, t, 7, "this is a test");
  }

  lemma KeywordInsideSplit(t: string)
    requires t == "this is bugbot a test"
    ensures t == "this is" + " " + "bugbot" + " " + "a test"
  {
  }

  lemma KeywordInsideFree()
    ensures 'b' !in "this is"[0..] && 'B' !in "this is"[0..] && 'b' !in "a test" && 'B' !in "a test"
  {
  }

  lemma KeywordInsideJoined()
    ensures "this is" + " " + "a test" == "this is a test"
  {
  }

  /** "this is bugbot a test" is cleaned to "this is a test". */
  lemma KeywordInside(k: string, t: string)
    requires k == "bugbot" && t == "this is bugbot a test"
    ensures ScannableKeyword(k)
    ensures CleanMessage(k, t) == "this is a test"
  {
    KeywordInsideSplit(t);
    Pieces(t, "this is", " ", "bugbot", " ", "a test");
    KeywordSpelled();
    OneSpace();
    KeywordInsideFree();
    PrefixAvoids(k, t, "this is", 0);
    PieceSpaces(t, " ", 7);
    PieceMatches(k, t, "bugbot", 8);
    PieceSpaces(t, " ", 14);
    PieceAvoids(k, t, "a test", 15);
    KeywordOnceAt(k, t, 7, 8, 15);
    KeywordInsideJoined();
    ThisIsATest();
    CleanMiddle(k, t, 7, 15, "this is", "a test", "this is a test");
  }

  lemma KeywordLastSlices(t: string)
    requires t == "this is a test bugbot"
    ensures t[..14] == "this is a test" && t[14..15] == " " && t[15..21] == "bugbot" && |t| == 21
  {
  }

  /** "this is a test bugbot" is cleaned to "this is a test". */
  lemma KeywordLast(k: string, t: string)
    requires k == "bugbot" && t == "this is a test bugbot"
    ensures ScannableKeyword(k)
    ensures CleanMessage(k, t) == "this is a test"
  {
    KeywordLastSlices(t);
    KeywordSpelled();
    OneSpace();
    ThisIsATestFree();
    assert "this is a test"[0..] == "this is a test";
    PrefixAvoids(k, t, "this is a test", 0);
    PieceSpaces(t, " ", 14);
    PieceMatches(k, t, "bugbot", 15);
    KeywordOnceAt(k, t, 14, 15, 21);
    ThisIsATest();
    CleanBack(k, t, 14, "this is a test");
  }

  lemma ExtraWhitespaceSplit(t: string)
    requires t == "  bugbot   this   is   a   test  "
    ensures t == "  bugbot   " + "this   is   a   test  "
  {
  }

  lemma ExtraWhitespaceFront(p: string)
    requires p == "  bugbot   "
    ensures |p| == 11 && p[0..2] == "  " && p[2..8] == "bugbot" && p[8..11] == "   "
  {
  }

  lemma ExtraWhitespacePieces()
    ensures NoSpace("this", 0, 4) && NoSpace("is", 0, 2) && NoSpace("a", 0, 1) && NoSpace("test", 0, 4)
    ensures AllSpace(" ", 0, 1) && AllSpace("  ", 0, 2) && AllSpace("   ", 0, 3)
  {
  }

  lemma ExtraWhitespaceFree()
    ensures 'b' !in "this   is   a   test  " && 'B' !in "this   is   a   test  "
  {
  }

  /** The words of the extra-whitespace example, split into words and runs. */
  lemma ExtraWhitespaceWords(s: string)
    requires s == "this   is   a   test  "
    ensures s == "this" + ("   " + ("is" + ("   " + ("a" + ("   " + ("test" + "  "))))))
  {
  }

  /** Collapsing turns each run between the words into one space. */
  lemma ExtraWhitespaceCollapse(s: string)
    requires s == "this   is   a   test  "
    ensures Collapse(" " + s) == " " + "this is a test" + " "
  {
    ExtraWhitespaceWords(s);
    ExtraWhitespacePieces();
    var y7 := "  ";
    var y6 := "test" + y7;
    var y5 := "   " + y6;
    var y4 := "a" + y5;
    var y3 := "   " + y4;
    var y2 := "is" + y3;
    var y1 := "   " + y2;
    CollapseRun(" ", s);
    CollapseWord("this", y1);
    CollapseRun("   ", y2);
    CollapseWord("is", y3);
    CollapseRun("   ", y4);
    CollapseWord("a", y5);
    CollapseRun("   ", y6);
    CollapseWord("test", y7);
    CollapseRun("  ", "");
    assert y7 == "  " + "";
  }

  /** "  bugbot   this   is   a   test  " is cleaned to "this is a test". */
  lemma ExtraWhitespace(k: string, t: string)
    requires k == "bugbot" && t == "  bugbot   this   is   a   test  "
    ensures ScannableKeyword(k)
    ensures CleanMessage(k, t) == "this is a test"
  {
    var b := "this   is   a   test  ";
    var p := "  bugbot   ";
    ExtraWhitespaceSplit(t);
    ExtraWhitespaceFront(p);
    Split(t, p, b, 0, 2);
    Split(t, p, b, 2, 8);
    Split(t, p, b, 8, 11);
    KeywordSpelled();
    ExtraWhitespacePieces();
    ExtraWhitespaceFree();
    PieceSpaces(t, "  ", 0);
    PieceMatches(k, t, "bugbot", 2);
    PieceSpaces(t, "   ", 8);
    PieceAvoids(k, t, b, 11);
    KeywordOnceAt(k, t, 0, 2, 11);
    FrontJoined(t, 11, b);
    ExtraWhitespaceCollapse(b);
    ThisIsATest();
    NormalizeCollapsed(" " + b, " ", "this is a test", " ");
  }

  lemma UpperCaseSlices(t: string)
    requires t == "BUGBOT case insensitive"
    ensures t[0..6] == "BUGBOT" && t[6..7] == " " && t[7..] == "case insensitive"
  {
  }

  lemma CaseInsensitive()
    ensures IsNormal("case insensitive")
  {
    assert SpacedFrom("case insensitive", 0);
    SpacedIsNormal("case insensitive", 0);
  }

  lemma CaseInsensitiveFree()
    ensures 'b' !in "case insensitive" && 'B' !in "case insensitive"
  {
  }

  /** "BUGBOT case insensitive" is cleaned to "case insensitive": the keyword matches in any letter case. */
  lemma UpperCase(k: string, t: string)
    requires k == "bugbot" && t == "BUGBOT case insensitive"
    ensures ScannableKeyword(k)
    ensures CleanMessage(k, t) == "case insensitive"
  {
    UpperCaseSlices(t);
    KeywordSpelled();
    OneSpace();
    CaseInsensitiveFree();
    PieceMatches(k, t, "BUGBOT", 0);
    PieceSpaces(t, " ", 6);
    PieceAvoids(k, t, "case insensitive", 7);
    KeywordOnceAt(k, t, 0, 0, 7);
    CaseInsensitive();
    CleanFront(k, t, 7, "case insensitive");
  }

  lemma NoKeywordHereChecks()
    ensures 'b' !in "no keyword here"[0..] && 'B' !in "no keyword here"[0..]
  {
  }

  lemma NoKeywordHereNormal()
    ensures IsNormal("no keyword here")
  {
    assert SpacedFrom("no keyword here", 0);
    SpacedIsNormal("no keyword here", 0);
  }

  /** "no keyword here" comes back unchanged. */
  lemma NoKeywordHere(k: string, t: string)
    requires k == "bugbot" && t == "no keyword here"
    ensures ScannableKeyword(k)
    ensures CleanMessage(k, t) == t
  {
    NoKeywordHereChecks();
    NoInitial(k, t, 0);
    NoFirstCharacterNoMatch(k, t);
    NoKeywordHereNormal();
    CleanMessageWithoutKeyword(k, t);
  }

  /** "bugbot" alone is cleaned to the empty text. */
  lemma JustTheKeyword(k: string, t: string)
    requires k == "bugbot" && t == "bugbot"
    ensures ScannableKeyword(k)
    ensures CleanMessage(k, t) == ""
  {
    assert t[0..6] == "bugbot" && t[6..] == "";
    KeywordSpelled();
    PieceMatches(k, t, "bugbot", 0);
    KeywordOnceAt(k, t, 0, 0, 6);
    CleanFront(k, t, 6, "");
  }

  lemma DuplicateSplit(t: string)
    requires t == "bugbot bugbot duplicate"
    ensures t == "bugbot" + " " + "bugbot" + " " + "duplicate"
  {
  }

  lemma DuplicateChecks()
    ensures 'b' !in "duplicate" && 'B' !in "duplicate" && NoSpace("duplicate", 0, 9)
  {
  }

  /**
   * "bugbot bugbot duplicate" is cleaned to "duplicate": each keyword is
   * replaced together with its trailing space, and the two spaces left
   * collapse and are stripped.
   */
  lemma Duplicate(k: string, t: string)
    requires k == "bugbot" && t == "bugbot bugbot duplicate"
    ensures ScannableKeyword(k)
    ensures CleanMessage(k, t) == "duplicate"
  {
    DuplicateSplit(t);
    KeywordSpelled();
    DuplicateChecks();
    TwiceLayout(k, t, "bugbot", "duplicate");
    KeywordTwiceAt(k, t, 7, 14);
    CleanTwoSpaces(k, t, 14, "duplicate");
  }

  lemma BeforeAfterSplit(t: string)
    requires t == "before bugbot after"
    ensures t == "before" + " " + "bugbot" + " " + "after"
  {
  }

  lemma BeforeAfterChecks()
    ensures 'b' !in "before"[1..] && 'B' !in "before"[1..] && 'b' !in "after" && 'B' !in "after"
    ensures Lower("before"[1]) != Lower("bugbot"[1])
  {
  }

  lemma BeforeAfterJoined()
    ensures "before" + " " + "after" == "before after"
  {
  }

  lemma BeforeAfterNormal()
    ensures IsNormal("before after")
  {
    assert SpacedFrom("before after", 0);
    SpacedIsNormal("before after", 0);
  }

  /** "before bugbot after" is cleaned to "before after". */
  lemma BeforeAfter(k: string, t: string)
    requires k == "bugbot" && t == "before bugbot after"
    ensures ScannableKeyword(k)
    ensures CleanMessage(k, t) == "before after"
  {
    BeforeAfterSplit(t);
    Pieces(t, "before", " ", "bugbot", " ", "after");
    KeywordSpelled();
    OneSpace();
    BeforeAfterChecks();
    PrefixAvoids(k, t, "before", 1);
    PieceSpaces(t, " ", 6);
    PieceMatches(k, t, "bugbot", 7);
    PieceSpaces(t, " ", 13);
    PieceAvoids(k, t, "after", 14);
    KeywordOnceAt(k, t, 6, 7, 14);
    BeforeAfterJoined();
    BeforeAfterNormal();
    CleanMiddle(k, t, 6, 14, "before", "after", "before after");
  }
}
