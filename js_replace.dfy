/**
  * `text.replace(new RegExp(token, 'g'), value)` in JavaScript, for a token that
  * the regular-expression parser reads as a literal (letters, `_` and braces
  * that form no quantifier) and therefore for a pattern without capture groups.
  *
  * The global replace scans left to right, replaces every non-overlapping
  * occurrence and resumes after each match. The replacement string is not
  * inserted as it is: it passes through the GetSubstitution operation of
  * ECMA-262, which expands `$$`, `$&`, `` $` `` and `$'`.
  *
  * Beside the scan itself this module gives a literal reference, `Split` and
  * `Join`, an independent description of what "left-to-right, non-overlapping"
  * means (`IsLeftmostSplit`), and the lemmas that tie them together.
  */
module JsReplace {
  import opened Substrings

  // ---------------------------------------------------------------------------
  // The replacement template (GetSubstitution with no capture groups)
  // ---------------------------------------------------------------------------

  /**
    * The text that replaces one match: `rep` with `$$` turned into `$`, `$&`
    * into the matched text, `` $` `` into the text before the match and `$'`
    * into the text after it. Any other `$` (a `$` at the end, `$1` when there
    * are no groups, `$<` when there are no named groups) stays as it is.
    */
  function Substitution(rep: string, matched: string, before: string, after: string): string
    decreases |rep|
  {
    if |rep| == 0 then ""
    else if rep[0] == '$' && |rep| >= 2 && rep[1] == '$' then
      "$" + Substitution(rep[2..], matched, before, after)
    else if rep[0] == '$' && |rep| >= 2 && rep[1] == '&' then
      matched + Substitution(rep[2..], matched, before, after)
    else if rep[0] == '$' && |rep| >= 2 && rep[1] == '`' then
      before + Substitution(rep[2..], matched, before, after)
    else if rep[0] == '$' && |rep| >= 2 && rep[1] == '\'' then
      after + Substitution(rep[2..], matched, before, after)
    else
      [rep[0]] + Substitution(rep[1..], matched, before, after)
  }

  /** A replacement without `$` is inserted verbatim. */
  lemma {:induction false} SubstitutionVerbatim(rep: string, matched: string, before: string, after: string)
    requires '$' !in rep
    ensures Substitution(rep, matched, before, after) == rep
  {
    if |rep| > 0 {
      assert rep[0] != '$';
      assert '$' !in rep[1..] by {
        forall k | 0 <= k < |rep[1..]| ensures rep[1..][k] != '$' {
          assert rep[1..][k] == rep[k + 1];
        }
      }
      SubstitutionVerbatim(rep[1..], matched, before, after);
      assert rep == [rep[0]] + rep[1..];
    }
  }

  /** The four `$`-patterns and what each one inserts. */
  lemma {:induction false} DollarPatterns(rest: string, matched: string, before: string, after: string)
    ensures Substitution("$$" + rest, matched, before, after) == "$" + Substitution(rest, matched, before, after)
    ensures Substitution("$&" + rest, matched, before, after) == matched + Substitution(rest, matched, before, after)
    ensures Substitution("$`" + rest, matched, before, after) == before + Substitution(rest, matched, before, after)
    ensures Substitution("$'" + rest, matched, before, after) == after + Substitution(rest, matched, before, after)
  {
    assert ("$$" + rest)[2..] == rest;
    assert ("$&" + rest)[2..] == rest;
    assert ("$`" + rest)[2..] == rest;
    assert ("$'" + rest)[2..] == rest;
  }

  /** `v` with every `$` doubled: the form in which a value survives GetSubstitution. */
  function Escape(v: string): string
    decreases |v|
  {
    if |v| == 0 then ""
    else (if v[0] == '$' then "$$" else [v[0]]) + Escape(v[1..])
  }

  /** Escaping a value and then expanding it gives the value back, whatever it contains. */
  lemma {:induction false} SubstitutionOfEscape(v: string, matched: string, before: string, after: string)
    ensures Substitution(Escape(v), matched, before, after) == v
  {
    if |v| > 0 {
      var e := Escape(v[1..]);
      SubstitutionOfEscape(v[1..], matched, before, after);
      if v[0] == '$' {
        assert Escape(v) == "$$" + e;
        assert ("$$" + e)[2..] == e;
      } else {
        assert Escape(v) == [v[0]] + e;
        assert ([v[0]] + e)[1..] == e;
      }
      assert v == [v[0]] + v[1..];
    }
  }

  // ---------------------------------------------------------------------------
  // The global replace
  // ---------------------------------------------------------------------------

  /**
    * The scan of a global replace, from index `i` of `s` on: at a match, emit
    * the expanded replacement and jump past the match; otherwise copy one
    * character and move on by one.
    */
  function ReplaceFrom(s: string, pat: string, rep: string, i: int): string
    requires |pat| > 0 && 0 <= i <= |s|
    decreases |s| - i
  {
    if i + |pat| > |s| then s[i..]
    else if s[i..i + |pat|] == pat then
      Substitution(rep, pat, s[..i], s[i + |pat|..]) + ReplaceFrom(s, pat, rep, i + |pat|)
    else
      [s[i]] + ReplaceFrom(s, pat, rep, i + 1)
  }

  /** `s.replace(new RegExp(pat, 'g'), rep)` for a literal, non-empty `pat`. */
  function ReplaceAll(s: string, pat: string, rep: string): string
    requires |pat| > 0
  {
    ReplaceFrom(s, pat, rep, 0)
  }

  // ---------------------------------------------------------------------------
  // The literal reference: gaps between occurrences
  // ---------------------------------------------------------------------------

  /**
    * The text between the occurrences of `pat` in `t`, found left to right
    * without overlap: one more gap than there are occurrences.
    */
  function Split(t: string, pat: string): (gaps: seq<string>)
    requires |pat| > 0
    ensures |gaps| >= 1
    decreases |t|
  {
    if |t| < |pat| then [t]
    else if t[..|pat|] == pat then [""] + Split(t[|pat|..], pat)
    else
      var rest := Split(t[1..], pat);
      [[t[0]] + rest[0]] + rest[1..]
  }

  /** The gaps glued together with `sep` between each two. */
  function Join(gaps: seq<string>, sep: string): string
    requires |gaps| >= 1
    decreases |gaps|
  {
    if |gaps| == 1 then gaps[0] else gaps[0] + sep + Join(gaps[1..], sep)
  }

  /** The number of occurrences a left-to-right, non-overlapping scan finds. */
  function Count(t: string, pat: string): nat
    requires |pat| > 0
    decreases |t|
  {
    if |t| < |pat| then 0
    else if t[..|pat|] == pat then 1 + Count(t[|pat|..], pat)
    else Count(t[1..], pat)
  }

  /**
    * `gaps` cuts `t` at the leftmost occurrence of `pat`, then cuts what
    * follows that occurrence in the same way, until no occurrence is left.
    */
  ghost predicate IsLeftmostSplit(t: string, pat: string, gaps: seq<string>)
    decreases |gaps|
  {
    |gaps| >= 1 &&
    if |gaps| == 1 then gaps[0] == t && !Occurs(t, pat)
    else
      var n := |gaps[0]|;
      n + |pat| <= |t| && t[..n] == gaps[0] && OccursAt(t, pat, n) &&
      (forall k :: 0 <= k < n ==> !OccursAt(t, pat, k)) &&
      IsLeftmostSplit(t[n + |pat|..], pat, gaps[1..])
  }

  /** A leftmost split glues back to the text it came from. */
  lemma {:induction false} LeftmostSplitJoins(t: string, pat: string, gaps: seq<string>)
    requires IsLeftmostSplit(t, pat, gaps)
    ensures Join(gaps, pat) == t
    decreases |gaps|
  {
    if |gaps| > 1 {
      var n := |gaps[0]|;
      LeftmostSplitJoins(t[n + |pat|..], pat, gaps[1..]);
      assert t == t[..n] + t[n..n + |pat|] + t[n + |pat|..];
    }
  }

  /** The scan's gaps are the leftmost split. */
  lemma {:induction false} SplitIsLeftmost(t: string, pat: string)
    requires |pat| > 0
    ensures IsLeftmostSplit(t, pat, Split(t, pat))
    decreases |t|
  {
    var gaps := Split(t, pat);
    if |t| < |pat| {
      assert !Occurs(t, pat);
    } else if t[..|pat|] == pat {
      SplitIsLeftmost(t[|pat|..], pat);
      assert gaps[1..] == Split(t[|pat|..], pat);
      assert OccursAt(t, pat, 0);
    } else {
      SplitIsLeftmost(t[1..], pat);
      LeftmostSplitSkip(t, pat);
    }
  }

  /**
    * Where `t` does not start with `pat`, its split is that of `t[1..]` with
    * the first character put back in front of the first gap.
    */
  lemma {:induction false} LeftmostSplitSkip(t: string, pat: string)
    requires |pat| > 0 && |t| >= |pat| && t[..|pat|] != pat
    requires IsLeftmostSplit(t[1..], pat, Split(t[1..], pat))
    ensures IsLeftmostSplit(t, pat, Split(t, pat))
  {
    if |Split(t[1..], pat)| == 1 {
      LeftmostSplitSkipLast(t, pat);
    } else {
      LeftmostSplitSkipMore(t, pat);
    }
  }

  lemma {:induction false} LeftmostSplitSkipLast(t: string, pat: string)
    requires |pat| > 0 && |t| >= |pat| && t[..|pat|] != pat
    requires |Split(t[1..], pat)| == 1 && IsLeftmostSplit(t[1..], pat, Split(t[1..], pat))
    ensures IsLeftmostSplit(t, pat, Split(t, pat))
  {
    var gaps, rest := Split(t, pat), Split(t[1..], pat);
    assert !OccursAt(t, pat, 0);
    assert gaps == [t] by {
      assert rest[0] == t[1..];
      assert t == [t[0]] + t[1..];
    }
    forall k | OccursAt(t, pat, k) ensures false {
      OccursAtTail(t, pat, k);
    }
    assert !Occurs(t, pat);
  }

  lemma {:induction false} LeftmostSplitSkipMore(t: string, pat: string)
    requires |pat| > 0 && |t| >= |pat| && t[..|pat|] != pat
    requires |Split(t[1..], pat)| > 1 && IsLeftmostSplit(t[1..], pat, Split(t[1..], pat))
    ensures IsLeftmostSplit(t, pat, Split(t, pat))
  {
    var rest := Split(t[1..], pat);
    LeftmostSplitPrepend(t, pat, rest);
  }

  /** A first character that starts no occurrence joins the first gap of the rest's leftmost split. */
  lemma {:induction false} LeftmostSplitPrepend(t: string, pat: string, rest: seq<string>)
    requires |pat| > 0 && |t| >= |pat| && t[..|pat|] != pat
    requires |rest| > 1 && IsLeftmostSplit(t[1..], pat, rest)
    ensures IsLeftmostSplit(t, pat, [[t[0]] + rest[0]] + rest[1..])
  {
    var gaps := [[t[0]] + rest[0]] + rest[1..];
    var n := |rest[0]|;
    var after := t[1..][n + |pat|..];
    assert gaps[1..] == rest[1..];
    assert t[..n + 1] == gaps[0] by {
      assert t[1..][..n] == rest[0];
      assert t[..n + 1] == [t[0]] + t[1..][..n];
    }
    OccursAtTail(t, pat, n + 1);
    forall k | 0 <= k < n + 1 ensures !OccursAt(t, pat, k) {
      if k > 0 { OccursAtTail(t, pat, k); } else { assert t[..|pat|] != pat; }
    }
    assert t[n + 1 + |pat|..] == after;
    assert |gaps| > 1 && |gaps[0]| == n + 1;
    assert n + 1 + |pat| <= |t|;
    assert OccursAt(t, pat, n + 1);
    assert IsLeftmostSplit(t[n + 1 + |pat|..], pat, gaps[1..]);
    assert t[..|gaps[0]|] == gaps[0];
    assert forall k :: 0 <= k < |gaps[0]| ==> !OccursAt(t, pat, k);
  }

  /** There is only one leftmost split of a text. */
  lemma {:induction false} LeftmostSplitUnique(t: string, pat: string, g: seq<string>, h: seq<string>)
    requires IsLeftmostSplit(t, pat, g) && IsLeftmostSplit(t, pat, h)
    ensures g == h
    decreases |g|
  {
    if |g| > 1 { assert OccursAt(t, pat, |g[0]|); }
    if |h| > 1 { assert OccursAt(t, pat, |h[0]|); }
    if |g| > 1 && |h| > 1 {
      var m, n := |g[0]|, |h[0]|;
      assert m == n;
      LeftmostSplitUnique(t[n + |pat|..], pat, g[1..], h[1..]);
      assert g == [g[0]] + g[1..] && h == [h[0]] + h[1..];
    }
  }

  /** Gluing the gaps back with the pattern itself restores the text. */
  lemma {:induction false} SplitJoin(t: string, pat: string)
    requires |pat| > 0
    ensures Join(Split(t, pat), pat) == t
  {
    SplitIsLeftmost(t, pat);
    LeftmostSplitJoins(t, pat, Split(t, pat));
  }

  /** There is one gap more than there are occurrences. */
  lemma {:induction false} SplitCount(t: string, pat: string)
    requires |pat| > 0
    ensures |Split(t, pat)| == Count(t, pat) + 1
    decreases |t|
  {
    if |t| >= |pat| {
      if t[..|pat|] == pat {
        SplitCount(t[|pat|..], pat);
      } else {
        SplitCount(t[1..], pat);
      }
    }
  }

  /** The scan finds no occurrence exactly when the pattern does not occur. */
  lemma {:induction false} CountZero(t: string, pat: string)
    requires |pat| > 0
    ensures Count(t, pat) == 0 <==> !Occurs(t, pat)
  {
    SplitIsLeftmost(t, pat);
    SplitCount(t, pat);
    var gaps := Split(t, pat);
    if |gaps| > 1 {
      assert OccursAt(t, pat, |gaps[0]|);
    }
  }

  // ---------------------------------------------------------------------------
  // The scan against the reference
  // ---------------------------------------------------------------------------

  /** Gluing `x` to the front of the first gap glues it to the front of the whole. */
  lemma {:induction false} JoinPrepend(x: string, gaps: seq<string>, sep: string)
    requires |gaps| >= 1
    ensures Join([x + gaps[0]] + gaps[1..], sep) == x + Join(gaps, sep)
  {
    var g := [x + gaps[0]] + gaps[1..];
    if |gaps| > 1 {
      assert g[1..] == gaps[1..];
    }
  }

  /** From index `i` on, a replacement without `$` glues the gaps of `s[i..]` with it. */
  lemma {:induction false} ReplaceFromLiteral(s: string, pat: string, rep: string, i: int)
    requires |pat| > 0 && 0 <= i <= |s| && '$' !in rep
    ensures ReplaceFrom(s, pat, rep, i) == Join(Split(s[i..], pat), rep)
    decreases |s| - i
  {
    var t := s[i..];
    if i + |pat| > |s| {
    } else if s[i..i + |pat|] == pat {
      var rest := s[i + |pat|..];
      assert t[..|pat|] == pat && t[|pat|..] == rest;
      var tail := Split(rest, pat);
      assert Split(t, pat) == [""] + tail;
      assert Join([""] + tail, rep) == rep + Join(tail, rep) by {
        assert ([""] + tail)[1..] == tail;
      }
      calc {
        ReplaceFrom(s, pat, rep, i);
        Substitution(rep, pat, s[..i], rest) + ReplaceFrom(s, pat, rep, i + |pat|);
        { SubstitutionVerbatim(rep, pat, s[..i], rest); }
        rep + ReplaceFrom(s, pat, rep, i + |pat|);
        { ReplaceFromLiteral(s, pat, rep, i + |pat|); }
        rep + Join(tail, rep);
      }
    } else {
      var rest := s[i + 1..];
      assert t[..|pat|] != pat && t[1..] == rest;
      var tail := Split(rest, pat);
      assert Split(t, pat) == [[s[i]] + tail[0]] + tail[1..];
      calc {
        ReplaceFrom(s, pat, rep, i);
        [s[i]] + ReplaceFrom(s, pat, rep, i + 1);
        { ReplaceFromLiteral(s, pat, rep, i + 1); }
        [s[i]] + Join(tail, rep);
        { JoinPrepend([s[i]], tail, rep); }
        Join([[s[i]] + tail[0]] + tail[1..], rep);
      }
    }
  }

  /** With a replacement free of `$`, a global replace glues the gaps with it verbatim. */
  lemma {:induction false} ReplaceAllLiteral(s: string, pat: string, rep: string)
    requires |pat| > 0 && '$' !in rep
    ensures ReplaceAll(s, pat, rep) == Join(Split(s, pat), rep)
  {
    ReplaceFromLiteral(s, pat, rep, 0);
    assert s[0..] == s;
  }

  /** Past `i`, with no occurrence left, the scan copies the rest unchanged. */
  lemma {:induction false} ReplaceFromAbsent(s: string, pat: string, rep: string, i: int)
    requires |pat| > 0 && 0 <= i <= |s|
    requires forall k :: i <= k ==> !OccursAt(s, pat, k)
    ensures ReplaceFrom(s, pat, rep, i) == s[i..]
    decreases |s| - i
  {
    if i + |pat| <= |s| {
      assert !OccursAt(s, pat, i);
      ReplaceFromAbsent(s, pat, rep, i + 1);
      assert s[i..] == [s[i]] + s[i + 1..];
    }
  }

  /** A pattern that does not occur leaves the text unchanged, whatever the replacement. */
  lemma {:induction false} ReplaceAllAbsent(s: string, pat: string, rep: string)
    requires |pat| > 0 && !Occurs(s, pat)
    ensures ReplaceAll(s, pat, rep) == s
  {
    ReplaceFromAbsent(s, pat, rep, 0);
    assert s[0..] == s;
  }

  /** The total length of the gaps. */
  function TotalLength(gaps: seq<string>): nat
    decreases |gaps|
  {
    if |gaps| == 0 then 0 else |gaps[0]| + TotalLength(gaps[1..])
  }

  /** Gluing adds one separator per gap but the last. */
  lemma {:induction false} JoinLength(gaps: seq<string>, sep: string)
    requires |gaps| >= 1
    ensures |Join(gaps, sep)| + |sep| == TotalLength(gaps) + |gaps| * |sep|
    decreases |gaps|
  {
    if |gaps| > 1 {
      JoinLength(gaps[1..], sep);
      assert |gaps| * |sep| == |sep| + (|gaps| - 1) * |sep|;
    }
  }

  /** Each of the k occurrences changes the length by |rep| - |pat|. */
  lemma {:induction false} ReplaceAllLength(s: string, pat: string, rep: string)
    requires |pat| > 0 && '$' !in rep
    ensures |ReplaceAll(s, pat, rep)| == |s| + Count(s, pat) * (|rep| - |pat|)
  {
    var gaps := Split(s, pat);
    ReplaceAllLiteral(s, pat, rep);
    SplitJoin(s, pat);
    SplitCount(s, pat);
    JoinLength(gaps, rep);
    JoinLength(gaps, pat);
    LengthArithmetic(Count(s, pat), TotalLength(gaps), |ReplaceAll(s, pat, rep)|, |rep|, |s|, |pat|);
  }

  /** x + a == t + (k + 1) * a and y + b == t + (k + 1) * b give x == y + k * (a - b). */
  lemma {:induction false} LengthArithmetic(k: int, t: int, x: int, a: int, y: int, b: int)
    requires x + a == t + (k + 1) * a && y + b == t + (k + 1) * b
    ensures x == y + k * (a - b)
  {
    assert (k + 1) * a == k * a + a && (k + 1) * b == k * b + b;
    assert k * (a - b) == k * a - k * b;
  }

  /** Replacing a `$`-free pattern by itself changes nothing. */
  lemma {:induction false} ReplaceAllBySelf(s: string, pat: string)
    requires |pat| > 0 && '$' !in pat
    ensures ReplaceAll(s, pat, pat) == s
  {
    ReplaceAllLiteral(s, pat, pat);
    SplitJoin(s, pat);
  }
}
