/**
 * `clean_message`: strip the trigger keyword out of a message text.
 *
 * The monitors run two regular-expression substitutions and a strip:
 *   1. `\s*KEYWORD\s*` (ignoring case) is replaced by one space,
 *   2. `\s+` is replaced by one space,
 *   3. leading and trailing whitespace is stripped.
 * Each substitution is modelled as the leftmost, non-overlapping scan that
 * Python's `re.sub` performs.
 */
module Clean {
  import opened Text

  /** Index just past the run of whitespace that starts at `i` (`i` itself if none). */
  function SpaceRunEnd(s: string, i: nat): (j: nat)
    requires i <= |s|
    ensures i <= j <= |s|
    ensures j < |s| ==> !IsSpace(s[j])
    decreases |s| - i
  {
    if i < |s| && IsSpace(s[i]) then SpaceRunEnd(s, i + 1) else i
  }

  /** Everything the whitespace run starting at `i` skips is whitespace. */
  lemma {:induction false} SpaceRunIsSpace(s: string, i: nat)
    requires i <= |s|
    ensures forall m :: i <= m < SpaceRunEnd(s, i) ==> IsSpace(s[m])
    decreases |s| - i
  {
    if i < |s| && IsSpace(s[i]) {
      SpaceRunIsSpace(s, i + 1);
    }
  }

  /** A whitespace run that ends at `j` is the one `SpaceRunEnd` finds. */
  lemma {:induction false} SpaceRunEndAt(s: string, i: nat, j: nat)
    requires i <= j <= |s| && (j == |s| || !IsSpace(s[j]))
    requires forall m :: i <= m < j ==> IsSpace(s[m])
    ensures SpaceRunEnd(s, i) == j
    decreases j - i
  {
    if i < j {
      SpaceRunEndAt(s, i + 1, j);
    }
  }

  /** The keyword matches `s` at index `i` when case is ignored (`re.IGNORECASE`). */
  predicate MatchesAt(k: string, s: string, i: nat) {
    i + |k| <= |s| && forall m :: 0 <= m < |k| ==> Lower(s[i + m]) == Lower(k[m])
  }

  /** The keyword occurs somewhere in `s`, case ignored. */
  ghost predicate HasMatch(k: string, s: string) {
    exists i: nat :: MatchesAt(k, s, i)
  }

  /**
   * The keywords the scan below handles exactly: non-empty (an empty pattern
   * would match between every two characters) and not starting with
   * whitespace (so the greedy leading `\s*` never has to give characters back).
   */
  predicate ScannableKeyword(k: string) {
    |k| > 0 && !IsSpace(k[0])
  }

  /** A keyword with no whitespace anywhere in it, such as the default `bugbot`. */
  predicate SpaceFreeKeyword(k: string) {
    |k| > 0 && forall m :: 0 <= m < |k| ==> !IsSpace(k[m])
  }

  /**
   * `re.sub(r'\s*' + re.escape(k) + r'\s*', ' ', s[i..], flags=re.IGNORECASE)`.
   * At `i` the pattern skips the whitespace run; if the keyword follows, the
   * run, the keyword and the whitespace after it become one space and the scan
   * resumes after them; otherwise `s[i]` is copied and the scan moves on by one.
   */
  function Substitute(k: string, s: string, i: nat): string
    requires ScannableKeyword(k) && i <= |s|
    decreases |s| - i
  {
    if i == |s| then ""
    else
      var j := SpaceRunEnd(s, i);
      if MatchesAt(k, s, j) then " " + Substitute(k, s, SpaceRunEnd(s, j + |k|))
      else [s[i]] + Substitute(k, s, i + 1)
  }

  /** `re.sub(r'\s+', ' ', s[i..])`: every whitespace run becomes one space. */
  function CollapseFrom(s: string, i: nat): string
    requires i <= |s|
    decreases |s| - i
  {
    if i == |s| then []
    else if IsSpace(s[i]) then " " + CollapseFrom(s, SpaceRunEnd(s, i))
    else [s[i]] + CollapseFrom(s, i + 1)
  }

  function Collapse(s: string): string {
    CollapseFrom(s, 0)
  }

  /** Index just past the last non-whitespace character of `s[a..j]` (`a` if none). */
  function TrimEnd(s: string, a: nat, j: nat): (e: nat)
    requires a <= j <= |s|
    ensures a <= e <= j
    ensures e > a ==> !IsSpace(s[e - 1])
    ensures forall q :: e <= q < j ==> IsSpace(s[q])
    decreases j
  {
    if j > a && IsSpace(s[j - 1]) then TrimEnd(s, a, j - 1) else j
  }

  /** Python's `str.strip()`. */
  function Strip(s: string): string {
    var a := SpaceRunEnd(s, 0);
    s[a..TrimEnd(s, a, |s|)]
  }

  /** The second substitution followed by the strip. */
  function Normalize(s: string): string {
    Strip(Collapse(s))
  }

  /** `clean_message(text)` for the monitor's keyword `k`. */
  function CleanMessage(k: string, text: string): string
    requires ScannableKeyword(k)
  {
    Normalize(Substitute(k, text, 0))
  }

  /**
   * The shape `re.sub(r'\s+', ' ', ...).strip()` leaves: every whitespace
   * character is a plain space with a non-whitespace character on each side.
   */
  predicate IsNormal(s: string) {
    forall p :: 0 <= p < |s| && IsSpace(s[p]) ==> s[p] == ' ' && 0 < p < |s| - 1 && !IsSpace(s[p + 1])
  }

  /** Every whitespace character is a plain space not followed by more whitespace. */
  predicate SingleSpaced(s: string) {
    forall p :: 0 <= p < |s| && IsSpace(s[p]) ==> s[p] == ' ' && (p + 1 == |s| || !IsSpace(s[p + 1]))
  }

  // ---------------------------------------------------------------------
  // The keyword substitution

  /**
   * Between two positions where the pattern finds no keyword, the scan copies
   * the text unchanged.
   */
  lemma {:induction false} CopyRun(k: string, s: string, i: nat, j: nat)
    requires ScannableKeyword(k) && i <= j <= |s|
    requires forall p :: i <= p < j ==> !MatchesAt(k, s, SpaceRunEnd(s, p))
    ensures Substitute(k, s, i) == s[i..j] + Substitute(k, s, j)
    decreases j - i
  {
    if i < j {
      CopyOne(k, s, i);
      CopyRun(k, s, i + 1, j);
      SliceCons(s, i, j, Substitute(k, s, j));
    }
  }

  /** Where the pattern finds the keyword after the whitespace run at `i`, the scan emits one space and skips past it. */
  lemma DropOne(k: string, s: string, i: nat)
    requires ScannableKeyword(k) && i < |s| && MatchesAt(k, s, SpaceRunEnd(s, i))
    ensures Substitute(k, s, i) == " " + Substitute(k, s, SpaceRunEnd(s, SpaceRunEnd(s, i) + |k|))
  {
  }

  /** Where the pattern finds the keyword, the scan's output starts with a space. */
  lemma SubstituteFirst(k: string, s: string, i: nat)
    requires ScannableKeyword(k) && i < |s|
    ensures MatchesAt(k, s, SpaceRunEnd(s, i)) ==> |Substitute(k, s, i)| > 0 && Substitute(k, s, i)[0] == ' '
  {
  }

  /** Where the pattern finds no keyword, the scan copies one character. */
  lemma CopyOne(k: string, s: string, i: nat)
    requires ScannableKeyword(k) && i < |s| && !MatchesAt(k, s, SpaceRunEnd(s, i))
    ensures Substitute(k, s, i) == [s[i]] + Substitute(k, s, i + 1)
  {
  }

  /** Text in which the keyword never occurs passes the substitution unchanged. */
  lemma SubstituteWithoutKeyword(k: string, s: string)
    requires ScannableKeyword(k) && !HasMatch(k, s)
    ensures Substitute(k, s, 0) == s
  {
    CopyRun(k, s, 0, |s|);
  }

  /** Text without any character that lowers like the keyword's first one holds no match. */
  lemma NoFirstCharacterNoMatch(k: string, s: string)
    requires |k| > 0
    requires forall p :: 0 <= p < |s| ==> Lower(s[p]) != Lower(k[0])
    ensures !HasMatch(k, s)
  {
    forall i: nat
      ensures !MatchesAt(k, s, i)
    {
      if i + |k| <= |s| {
        assert Lower(s[i + 0]) != Lower(k[0]);
      }
    }
  }

  /** A keyword match consists of non-whitespace characters when the keyword has none. */
  lemma MatchIsSpaceFree(k: string, t: string, p: nat)
    requires SpaceFreeKeyword(k)
    ensures MatchesAt(k, t, p) ==> forall q :: p <= q < p + |k| ==> !IsSpace(t[q])
  {
    if MatchesAt(k, t, p) {
      forall q | p <= q < p + |k|
        ensures !IsSpace(t[q])
      {
        assert Lower(t[p + (q - p)]) == Lower(k[q - p]);
      }
    }
  }

  /** Whether the keyword matches depends only on the window it covers. */
  lemma MatchesSameWindow(k: string, t: string, p: nat, u: string, q: nat)
    requires p + |k| <= |t| && q + |k| <= |u|
    requires t[p..p + |k|] == u[q..q + |k|]
    ensures MatchesAt(k, t, p) <==> MatchesAt(k, u, q)
  {
    var w := t[p..p + |k|];
    assert forall m :: 0 <= m < |k| ==> w[m] == t[p + m] && w[m] == u[q + m];
  }

  /** A match at position `p > 0` of `c + t` is a match at `p - 1` of `t`. */
  lemma MatchesShift(k: string, c: string, t: string, p: nat)
    requires |c| == 1 && p > 0
    ensures MatchesAt(k, c + t, p) <==> MatchesAt(k, t, p - 1)
  {
    if p + |k| <= |c + t| {
      MatchesSameWindow(k, c + t, p, t, p - 1);
    }
  }

  /**
   * A whitespace-free prefix of the substitution's output was copied
   * verbatim from the input.
   */
  lemma {:induction false} SubstitutePrefixCopied(k: string, s: string, i: nat, n: nat)
    requires ScannableKeyword(k) && i <= |s|
    requires n <= |Substitute(k, s, i)|
    requires forall q :: 0 <= q < n ==> !IsSpace(Substitute(k, s, i)[q])
    ensures i + n <= |s|
    ensures forall q :: 0 <= q < n ==> Substitute(k, s, i)[q] == s[i + q]
    decreases |s| - i
  {
    if n > 0 {
      var out := Substitute(k, s, i);
      SubstituteFirst(k, s, i);
      CopyOne(k, s, i);
      var rest := Substitute(k, s, i + 1);
      assert forall q :: 0 <= q < n - 1 ==> rest[q] == out[q + 1];
      SubstitutePrefixCopied(k, s, i + 1, n - 1);
      forall q | 1 <= q < n
        ensures out[q] == s[i + q]
      {
        assert out[q] == rest[q - 1] == s[i + 1 + (q - 1)];
      }
    }
  }

  /** Where the scan copies a character, a whitespace-free keyword does not match at the start of its output. */
  lemma CopiedStartNoMatch(k: string, s: string, i: nat)
    requires SpaceFreeKeyword(k) && i < |s| && !MatchesAt(k, s, SpaceRunEnd(s, i))
    ensures !MatchesAt(k, Substitute(k, s, i), 0)
  {
    var out := Substitute(k, s, i);
    MatchIsSpaceFree(k, out, 0);
    if |k| <= |out| && forall q :: 0 <= q < |k| ==> !IsSpace(out[q]) {
      SubstitutePrefixCopied(k, s, i, |k|);
      assert SpaceRunEnd(s, i) == i;
      assert forall m :: 0 <= m < |k| ==> Lower(out[m]) == Lower(s[i + m]);
    }
  }

  /** A whitespace-free keyword occurs in a space followed by `rest` only where it occurs in `rest`. */
  lemma SpaceThenNoMatch(k: string, rest: string, p: nat)
    requires SpaceFreeKeyword(k) && !HasMatch(k, rest)
    ensures !MatchesAt(k, " " + rest, p)
  {
    if p == 0 {
      assert (" " + rest)[0] == ' ';
      assert Lower((" " + rest)[0 + 0]) != Lower(k[0]);
    } else {
      MatchesShift(k, " ", rest, p);
      assert !MatchesAt(k, rest, p - 1);
    }
  }

  /** Past the first character, a keyword occurs in `c + rest` only where it occurs in `rest`. */
  lemma CharThenNoMatch(k: string, c: string, rest: string, p: nat)
    requires |c| == 1 && 0 < p && !HasMatch(k, rest)
    ensures !MatchesAt(k, c + rest, p)
  {
    MatchesShift(k, c, rest, p);
    assert !MatchesAt(k, rest, p - 1);
  }

  /** Where the scan drops a keyword, its output is a space and then the output after it. */
  lemma DroppedStartNoMatch(k: string, s: string, i: nat, p: nat)
    requires SpaceFreeKeyword(k) && i < |s| && MatchesAt(k, s, SpaceRunEnd(s, i))
    requires !HasMatch(k, Substitute(k, s, SpaceRunEnd(s, SpaceRunEnd(s, i) + |k|)))
    ensures !MatchesAt(k, Substitute(k, s, i), p)
  {
    DropOne(k, s, i);
    SpaceThenNoMatch(k, Substitute(k, s, SpaceRunEnd(s, SpaceRunEnd(s, i) + |k|)), p);
  }

  /** Where the scan copies a character, its output is that character and then the output after it. */
  lemma CopiedNoMatch(k: string, s: string, i: nat, p: nat)
    requires SpaceFreeKeyword(k) && i < |s| && !MatchesAt(k, s, SpaceRunEnd(s, i))
    requires !HasMatch(k, Substitute(k, s, i + 1))
    ensures !MatchesAt(k, Substitute(k, s, i), p)
  {
    if p == 0 {
      CopiedStartNoMatch(k, s, i);
    } else {
      CopyOne(k, s, i);
      CharThenNoMatch(k, [s[i]], Substitute(k, s, i + 1), p);
    }
  }

  /** The substitution leaves no occurrence of a whitespace-free keyword. */
  lemma {:induction false} SubstituteRemovesKeyword(k: string, s: string, i: nat, p: nat)
    requires SpaceFreeKeyword(k) && i <= |s|
    ensures !MatchesAt(k, Substitute(k, s, i), p)
    decreases |s| - i
  {
    if i < |s| {
      var j := SpaceRunEnd(s, i);
      if MatchesAt(k, s, j) {
        var next := SpaceRunEnd(s, j + |k|);
        var rest := Substitute(k, s, next);
        forall q: nat
          ensures !MatchesAt(k, rest, q)
        {
          SubstituteRemovesKeyword(k, s, next, q);
        }
        DroppedStartNoMatch(k, s, i, p);
      } else {
        var rest := Substitute(k, s, i + 1);
        forall q: nat
          ensures !MatchesAt(k, rest, q)
        {
          SubstituteRemovesKeyword(k, s, i + 1, q);
        }
        CopiedNoMatch(k, s, i, p);
      }
    }
  }

  // ---------------------------------------------------------------------
  // Whitespace collapsing and stripping

  /**
   * After collapsing, whitespace is a single space never followed by more
   * whitespace, and the output starts with whitespace exactly when the input
   * does.
   */
  lemma {:induction false} CollapseShape(s: string, i: nat)
    requires i <= |s|
    ensures var c := CollapseFrom(s, i);
      && (c == [] <==> i == |s|)
      && (c != [] ==> (IsSpace(c[0]) <==> IsSpace(s[i])))
      && forall p :: 0 <= p < |c| && IsSpace(c[p]) ==> c[p] == ' ' && (p + 1 < |c| ==> !IsSpace(c[p + 1]))
    decreases |s| - i
  {
    if i < |s| {
      var c := CollapseFrom(s, i);
      var next := if IsSpace(s[i]) then SpaceRunEnd(s, i) else i + 1;
      CollapseShape(s, next);
      var rest := CollapseFrom(s, next);
      assert c == [c[0]] + rest;
      forall p | 0 <= p < |c| && IsSpace(c[p])
        ensures c[p] == ' ' && (p + 1 < |c| ==> !IsSpace(c[p + 1]))
      {
        if p > 0 {
          assert c[p] == rest[p - 1];
        } else if p + 1 < |c| {
          assert c[1] == rest[0];
        }
      }
    }
  }

  /** Stripping single-spaced text leaves it in normal form. */
  lemma StripSingleSpaced(c: string)
    requires SingleSpaced(c)
    ensures IsNormal(Strip(c))
  {
    var a := SpaceRunEnd(c, 0);
    var e := TrimEnd(c, a, |c|);
    var t := c[a..e];
    forall p | 0 <= p < |t| && IsSpace(t[p])
      ensures t[p] == ' ' && 0 < p < |t| - 1 && !IsSpace(t[p + 1])
    {
      assert t[p] == c[a + p];
      assert t[|t| - 1] == c[e - 1];
      if p + 1 < |t| {
        assert t[p + 1] == c[a + p + 1];
      }
    }
  }

  /** The output of `Normalize` is in normal form. */
  lemma NormalizeIsNormal(s: string)
    ensures IsNormal(Normalize(s))
  {
    CollapseShape(s, 0);
    StripSingleSpaced(Collapse(s));
  }

  /** On single-spaced text, collapsing changes nothing. */
  lemma {:induction false} CollapseFixesSingleSpaced(s: string, i: nat)
    requires SingleSpaced(s) && i <= |s|
    ensures CollapseFrom(s, i) == s[i..]
    decreases |s| - i
  {
    if i < |s| {
      if IsSpace(s[i]) {
        assert SpaceRunEnd(s, i + 1) == i + 1;
      }
      CollapseFixesSingleSpaced(s, i + 1);
      assert s[i..] == [s[i]] + s[i + 1..];
    }
  }

  /** `Normalize` is the identity on text in normal form. */
  lemma NormalizeFixesNormal(s: string)
    requires IsNormal(s)
    ensures Normalize(s) == s
  {
    CollapseFixesSingleSpaced(s, 0);
    if s != [] {
      assert SpaceRunEnd(s, 0) == 0;
      assert TrimEnd(s, 0, |s|) == |s|;
    }
  }

  /** Stripping removes whitespace padding around a text with non-whitespace ends. */
  lemma StripPadding(a: string, w: string, b: string)
    requires forall p :: 0 <= p < |a| ==> IsSpace(a[p])
    requires forall p :: 0 <= p < |b| ==> IsSpace(b[p])
    requires w == [] || (!IsSpace(w[0]) && !IsSpace(w[|w| - 1]))
    ensures Strip(a + w + b) == w
  {
    var x := a + w + b;
    var st := SpaceRunEnd(x, 0);
    if w == [] {
      assert forall p :: 0 <= p < |x| ==> IsSpace(x[p]);
    } else {
      assert x[|a|] == w[0];
      assert x[|a| + |w| - 1] == w[|w| - 1];
      SpaceRunEndAt(x, 0, |a|);
      assert TrimEnd(x, st, |x|) == |a| + |w|;
    }
    assert x[st..TrimEnd(x, st, |x|)] == w;
  }

  /** A whitespace-free prefix of the collapsed text was copied verbatim. */
  lemma {:induction false} CollapsePrefixCopied(s: string, i: nat, n: nat)
    requires i <= |s| && n <= |CollapseFrom(s, i)|
    requires forall q :: 0 <= q < n ==> !IsSpace(CollapseFrom(s, i)[q])
    ensures i + n <= |s| && CollapseFrom(s, i)[..n] == s[i..i + n]
    decreases |s| - i
  {
    if n > 0 {
      var out := CollapseFrom(s, i);
      assert !IsSpace(out[0]);
      assert !IsSpace(s[i]);
      var rest := CollapseFrom(s, i + 1);
      assert out == [s[i]] + rest;
      forall q | 0 <= q < n - 1
        ensures !IsSpace(rest[q])
      {
        assert rest[q] == out[q + 1];
      }
      CollapsePrefixCopied(s, i + 1, n - 1);
      assert out[..n] == [s[i]] + rest[..n - 1];
      assert s[i..i + n] == [s[i]] + s[i + 1..i + n];
    }
  }

  /** Collapsing whitespace cannot create an occurrence of a whitespace-free keyword. */
  lemma {:induction false} CollapseKeepsKeywordOut(k: string, s: string, i: nat, p: nat)
    requires SpaceFreeKeyword(k) && !HasMatch(k, s) && i <= |s|
    ensures !MatchesAt(k, CollapseFrom(s, i), p)
    decreases |s| - i, p
  {
    var out := CollapseFrom(s, i);
    if i < |s| && MatchesAt(k, out, p) {
      MatchIsSpaceFree(k, out, p);
      if IsSpace(s[i]) {
        var rest := CollapseFrom(s, SpaceRunEnd(s, i));
        assert out == " " + rest;
        assert IsSpace(out[0]);
        if p == 0 {
          assert false;
        }
        MatchesShift(k, " ", rest, p);
        CollapseKeepsKeywordOut(k, s, SpaceRunEnd(s, i), p - 1);
      } else {
        var rest := CollapseFrom(s, i + 1);
        assert out == [s[i]] + rest;
        if p == 0 {
          CollapsePrefixCopied(s, i, |k|);
          MatchesSameWindow(k, out, 0, s, i);
          assert false;
        }
        MatchesShift(k, [s[i]], rest, p);
        CollapseKeepsKeywordOut(k, s, i + 1, p - 1);
      }
    }
  }

  /** Stripping takes a slice, so it cannot create an occurrence either. */
  lemma StripKeepsKeywordOut(k: string, t: string)
    requires !HasMatch(k, t)
    ensures !HasMatch(k, Strip(t))
  {
    var a := SpaceRunEnd(t, 0);
    var e := TrimEnd(t, a, |t|);
    var u := t[a..e];
    assert Strip(t) == u;
    forall p: nat
      ensures !MatchesAt(k, u, p)
    {
      if p + |k| <= |u| {
        assert !MatchesAt(k, t, a + p);
        assert forall m :: 0 <= m < |k| ==> (Lower(u[p + m]) == Lower(k[m]) <==> Lower(t[a + p + m]) == Lower(k[m]));
      }
    }
  }

  // ---------------------------------------------------------------------
  // clean_message as a whole

  /** Two keywords that agree once lower-cased. */
  predicate SameIgnoringCase(k: string, k2: string) {
    |k| == |k2| && forall m :: 0 <= m < |k| ==> Lower(k[m]) == Lower(k2[m])
  }

  /** Keywords that agree once lower-cased match at the same places. */
  lemma MatchesSameKeyword(k: string, k2: string, s: string, j: nat)
    requires SameIgnoringCase(k, k2)
    ensures MatchesAt(k, s, j) <==> MatchesAt(k2, s, j)
  {
  }

  /** The scan gives the same result for two keywords that agree once lower-cased. */
  lemma {:induction false} SubstituteSameKeyword(k: string, k2: string, s: string, i: nat)
    requires ScannableKeyword(k) && ScannableKeyword(k2) && SameIgnoringCase(k, k2) && i <= |s|
    ensures Substitute(k, s, i) == Substitute(k2, s, i)
    decreases |s| - i
  {
    if i < |s| {
      var j := SpaceRunEnd(s, i);
      var m := MatchesAt(k, s, j);
      MatchesSameKeyword(k, k2, s, j);
      assert m == MatchesAt(k2, s, j);
      var e := if m then SpaceRunEnd(s, j + |k|) else i + 1;
      SubstituteSameKeyword(k, k2, s, e);
      if m {
        DropOne(k, s, i);
        DropOne(k2, s, i);
      } else {
        CopyOne(k, s, i);
        CopyOne(k2, s, i);
      }
    }
  }

  /** Lower-casing a keyword keeps it scannable: its first character stays non-whitespace. */
  lemma LowerKeepsScannable(k: string)
    requires ScannableKeyword(k)
    ensures ScannableKeyword(LowerStr(k))
  {
    assert LowerStr(k)[0] == Lower(k[0]);
  }

  /**
   * The monitors lower-case the keyword when they are built; cleaning with the
   * keyword as given or lower-cased gives the same text.
   */
  lemma CleanMessageIgnoresKeywordCase(k: string, text: string)
    requires ScannableKeyword(k)
    ensures ScannableKeyword(LowerStr(k))
    ensures CleanMessage(LowerStr(k), text) == CleanMessage(k, text)
  {
    var lk := LowerStr(k);
    LowerKeepsScannable(k);
    assert forall m :: 0 <= m < |k| ==> Lower(lk[m]) == Lower(k[m]);
    SubstituteSameKeyword(lk, k, text, 0);
  }

  /**
   * The cleaned text is in normal form, and when the keyword contains no
   * whitespace no case-insensitive occurrence of it is left, wherever it sat.
   */
  lemma CleanMessageRemovesKeyword(k: string, text: string)
    requires ScannableKeyword(k)
    ensures IsNormal(CleanMessage(k, text))
    ensures SpaceFreeKeyword(k) ==> !HasMatch(k, CleanMessage(k, text))
  {
    var sub := Substitute(k, text, 0);
    NormalizeIsNormal(sub);
    if SpaceFreeKeyword(k) {
      forall p: nat
        ensures !MatchesAt(k, sub, p)
      {
        SubstituteRemovesKeyword(k, text, 0, p);
      }
      forall p: nat
        ensures !MatchesAt(k, Collapse(sub), p)
      {
        CollapseKeepsKeywordOut(k, sub, 0, p);
      }
      StripKeepsKeywordOut(k, Collapse(sub));
    }
  }

  /**
   * Text without the keyword is only whitespace-normalised; text already in
   * normal form comes back unchanged.
   */
  lemma CleanMessageWithoutKeyword(k: string, text: string)
    requires ScannableKeyword(k) && !HasMatch(k, text)
    ensures CleanMessage(k, text) == Normalize(text)
    ensures IsNormal(text) ==> CleanMessage(k, text) == text
  {
    SubstituteWithoutKeyword(k, text);
    if IsNormal(text) {
      NormalizeFixesNormal(text);
    }
  }

  /** Cleaning an already cleaned text changes nothing. */
  lemma CleanMessageIdempotent(k: string, text: string)
    requires SpaceFreeKeyword(k)
    ensures CleanMessage(k, CleanMessage(k, text)) == CleanMessage(k, text)
  {
    CleanMessageRemovesKeyword(k, text);
    CleanMessageWithoutKeyword(k, CleanMessage(k, text));
  }
}
