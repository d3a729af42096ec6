/** String operations the dispatcher relies on: Python's substring test
    (`key in custom_id`), `str.replace` and `str.split` with an explicit
    separator, and `str.join` as the inverse of `split`.
    Strings are sequences of characters; no encoding is involved. */
module Text {

  /** `s.startswith(p)` */
  predicate StartsWith(s: string, p: string)
  {
    |p| <= |s| && s[..|p|] == p
  }

  /** Python's `p in s` for strings: `p` occurs somewhere in `s`
      (the empty string occurs in every string). */
  predicate Contains(s: string, p: string): (b: bool)
    ensures b ==> |p| <= |s|
    decreases |s|
  {
    StartsWith(s, p) || (|s| > 0 && Contains(s[1..], p))
  }

  /** Independent reference for `Contains`: `p` sits at index `i` of `s`. */
  ghost predicate OccursAt(s: string, p: string, i: int)
  {
    0 <= i && i + |p| <= |s| && s[i..i + |p|] == p
  }

  /** The scanning definition agrees with "there is an index where `p` occurs". */
  lemma {:induction false} ContainsIffOccurs(s: string, p: string)
    ensures Contains(s, p) <==> exists i :: OccursAt(s, p, i)
    decreases |s|
  {
    if Contains(s, p) {
      if StartsWith(s, p) {
        assert OccursAt(s, p, 0);
      } else {
        ContainsIffOccurs(s[1..], p);
        var j :| OccursAt(s[1..], p, j);
        assert s[j + 1..j + 1 + |p|] == s[1..][j..j + |p|];
        assert OccursAt(s, p, j + 1);
      }
    }
    if exists i :: OccursAt(s, p, i) {
      var i :| OccursAt(s, p, i);
      if i > 0 {
        assert s[1..][i - 1..i - 1 + |p|] == s[i..i + |p|];
        assert OccursAt(s[1..], p, i - 1);
        ContainsIffOccurs(s[1..], p);
      } else {
        assert StartsWith(s, p);
      }
    }
  }

  /** An occurring pattern's first character occurs too. */
  lemma ContainsHead(s: string, p: string)
    requires |p| > 0 && Contains(s, p)
    ensures p[0] in s
  {
    ContainsIffOccurs(s, p);
    var i :| OccursAt(s, p, i);
    assert s[i] == s[i..i + |p|][0];
  }

  /** A one-character pattern occurs exactly when that character does. */
  lemma {:induction false} ContainsChar(s: string, c: char)
    ensures Contains(s, [c]) <==> c in s
    decreases |s|
  {
    if |s| > 0 {
      ContainsChar(s[1..], c);
      assert s == [s[0]] + s[1..];
    }
  }

  /** Python's `s.replace(pat, rep)`: scan left to right and replace every
      non-overlapping occurrence of `pat`. The pattern is never empty here. */
  function ReplaceAll(s: string, pat: string, rep: string): (r: string)
    requires |pat| > 0
    ensures |rep| <= |pat| ==> |r| <= |s|
    decreases |s|
  {
    if |s| < |pat| then s
    else if StartsWith(s, pat) then rep + ReplaceAll(s[|pat|..], pat, rep)
    else [s[0]] + ReplaceAll(s[1..], pat, rep)
  }

  /** Python's `s.split(sep)` with an explicit, non-empty separator: the
      pieces between the non-overlapping occurrences of `sep`, found left to
      right. Empty pieces are kept, so the result is never empty. */
  function Split(s: string, sep: string): (r: seq<string>)
    requires |sep| > 0
    ensures |r| >= 1
    ensures StartsWith(s, r[0])
    ensures forall i :: 0 <= i < |r| ==> !Contains(r[i], sep)
    decreases |s|
  {
    if |s| < |sep| then [s]
    else if StartsWith(s, sep) then [""] + Split(s[|sep|..], sep)
    else
      var rest := Split(s[1..], sep);
      var first := [s[0]] + rest[0];
      assert first[1..] == rest[0];
      assert StartsWith(s, first);
      assert !StartsWith(first, sep);
      [first] + rest[1..]
  }

  /** Python's `sep.join(parts)`. */
  function Join(parts: seq<string>, sep: string): string
    decreases |parts|
  {
    if |parts| == 0 then ""
    else if |parts| == 1 then parts[0]
    else parts[0] + sep + Join(parts[1..], sep)
  }

  /** Prepending a character to the first piece prepends it to the join. */
  lemma JoinConsFirst(c: char, parts: seq<string>, sep: string)
    requires |parts| >= 1
    ensures Join([[c] + parts[0]] + parts[1..], sep) == [c] + Join(parts, sep)
  {
    var ps := [[c] + parts[0]] + parts[1..];
    assert ps[1..] == parts[1..];
  }

  /** Joining the pieces of a split with the same separator gives back the
      original string. */
  lemma {:induction false} JoinSplit(s: string, sep: string)
    requires |sep| > 0
    ensures Join(Split(s, sep), sep) == s
    decreases |s|
  {
    if |s| < |sep| {
    } else if StartsWith(s, sep) {
      JoinSplit(s[|sep|..], sep);
      var rest := Split(s[|sep|..], sep);
      assert ([""] + rest)[1..] == rest;
      assert s == sep + s[|sep|..];
    } else {
      JoinSplit(s[1..], sep);
      JoinConsFirst(s[0], Split(s[1..], sep), sep);
      assert s == [s[0]] + s[1..];
    }
  }

  /** `replace` steps over a leading occurrence of the pattern. */
  lemma ReplaceAllAtPattern(pat: string, t: string, rep: string)
    requires |pat| > 0
    ensures ReplaceAll(pat + t, pat, rep) == rep + ReplaceAll(t, pat, rep)
  {
    assert (pat + t)[..|pat|] == pat && (pat + t)[|pat|..] == t;
  }

  /** `replace` keeps a leading character that does not start the pattern. */
  lemma ReplaceAllAtOther(c: char, t: string, pat: string, rep: string)
    requires |pat| > 0 && c != pat[0]
    ensures ReplaceAll([c] + t, pat, rep) == [c] + ReplaceAll(t, pat, rep)
  {
    assert ([c] + t)[1..] == t;
    if |pat| <= |[c] + t| {
      assert ([c] + t)[..|pat|][0] == c;
    }
  }

  /** An occurrence in the tail is an occurrence one index further on. */
  lemma OccursInTail(s: string, p: string, j: nat)
    requires |s| > 0
    ensures OccursAt(s[1..], p, j) <==> OccursAt(s, p, j + 1)
  {
    if j + |p| <= |s| - 1 {
      assert s[1..][j..j + |p|] == s[j + 1..j + 1 + |p|];
    }
  }

  /** No occurrence before index `i` means none before `i - 1` in the tail. */
  lemma NoEarlierInTail(s: string, p: string, i: nat)
    requires 0 < i <= |s|
    requires forall j :: 0 <= j < i ==> !OccursAt(s, p, j)
    ensures forall j :: 0 <= j < i - 1 ==> !OccursAt(s[1..], p, j)
  {
    forall j | 0 <= j < i - 1 ensures !OccursAt(s[1..], p, j) {
      OccursInTail(s, p, j);
    }
  }

  /** `replace` keeps a leading character where the pattern does not start. */
  lemma ReplaceAllSkip(s: string, pat: string, rep: string)
    requires |pat| > 0 && |s| > 0 && !StartsWith(s, pat)
    ensures ReplaceAll(s, pat, rep) == [s[0]] + ReplaceAll(s[1..], pat, rep)
  {
    if |s| < |pat| {
      assert ReplaceAll(s[1..], pat, rep) == s[1..];
    }
  }

  /** Sequence bookkeeping for `ReplaceAllFirstOccurrence`: a head
      character put before a prefix of the tail gives a prefix of the whole. */
  lemma HeadSplice(s: string, i: nat, x: string, rest: string, rep: string, tail: string)
    requires 0 < i <= |s|
    requires x == [s[0]] + rest && rest == s[1..][..i - 1] + rep + tail
    ensures x == s[..i] + rep + tail
  {
    assert s[..i] == [s[0]] + s[1..][..i - 1];
  }

  /** The scan runs left to right: the leftmost occurrence of the pattern
      is replaced first and scanning resumes right after it, so matches
      never overlap. */
  lemma {:induction false} ReplaceAllFirstOccurrence(s: string, pat: string, rep: string, i: nat)
    requires |pat| > 0
    requires OccursAt(s, pat, i)
    requires forall j :: 0 <= j < i ==> !OccursAt(s, pat, j)
    ensures ReplaceAll(s, pat, rep) == s[..i] + rep + ReplaceAll(s[i + |pat|..], pat, rep)
    decreases i
  {
    if i == 0 {
      assert StartsWith(s, pat);
      assert s[..i] == [] && s[i + |pat|..] == s[|pat|..];
    } else {
      assert !StartsWith(s, pat) by { assert !OccursAt(s, pat, 0); }
      OccursInTail(s, pat, i - 1);
      NoEarlierInTail(s, pat, i);
      ReplaceAllFirstOccurrence(s[1..], pat, rep, i - 1);
      assert s[1..][i - 1 + |pat|..] == s[i + |pat|..];
      ReplaceAllSkip(s, pat, rep);
      HeadSplice(s, i, ReplaceAll(s, pat, rep), ReplaceAll(s[1..], pat, rep), rep,
                 ReplaceAll(s[i + |pat|..], pat, rep));
    }
  }

  /** Overlapping candidates: in "_a_a_" the pattern "_a_" sits at 0 and at
      2; the leftmost one is removed and the other is then broken, so the
      result is "a_" (a right-to-left scan would give "_a"). */
  lemma ExampleNoOverlap()
    ensures ReplaceAll("_a_a_", "_a_", "") == "a_"
  {
    ReplaceAllAtPattern("_a_", "a_", "");
    assert "_a_" + "a_" == "_a_a_";
    assert ReplaceAll("a_", "_a_", "") == "a_";
  }

  /** Independent reference for `ReplaceAll`: it is `rep.join(s.split(pat))`. */
  lemma {:induction false} ReplaceAllIsJoinOfSplit(s: string, pat: string, rep: string)
    requires |pat| > 0
    ensures ReplaceAll(s, pat, rep) == Join(Split(s, pat), rep)
    decreases |s|
  {
    if |s| < |pat| {
    } else if StartsWith(s, pat) {
      ReplaceAllIsJoinOfSplit(s[|pat|..], pat, rep);
      var rest := Split(s[|pat|..], pat);
      assert ([""] + rest)[1..] == rest;
    } else {
      ReplaceAllIsJoinOfSplit(s[1..], pat, rep);
      JoinConsFirst(s[0], Split(s[1..], pat), rep);
    }
  }

  /** Without an occurrence of the pattern, `replace` returns its input. */
  lemma {:induction false} ReplaceAllAbsent(s: string, pat: string, rep: string)
    requires |pat| > 0
    requires !Contains(s, pat)
    ensures ReplaceAll(s, pat, rep) == s
    decreases |s|
  {
    if |s| >= |pat| {
      ReplaceAllAbsent(s[1..], pat, rep);
      assert s == [s[0]] + s[1..];
    }
  }

  /** Removing a pattern (replacing it by "") never lengthens the string,
      and shortens it whenever the pattern occurs. */
  lemma {:induction false} RemoveAllLength(s: string, pat: string)
    requires |pat| > 0
    ensures |ReplaceAll(s, pat, "")| <= |s|
    ensures Contains(s, pat) ==> |ReplaceAll(s, pat, "")| < |s|
    decreases |s|
  {
    if |s| < |pat| {
    } else if StartsWith(s, pat) {
      RemoveAllLength(s[|pat|..], pat);
    } else {
      RemoveAllLength(s[1..], pat);
    }
  }

  /** Removing a pattern leaves the string unchanged exactly when the
      pattern does not occur in it. */
  lemma RemoveAllUnchangedIff(s: string, pat: string)
    requires |pat| > 0
    ensures ReplaceAll(s, pat, "") == s <==> !Contains(s, pat)
  {
    RemoveAllLength(s, pat);
    if !Contains(s, pat) {
      ReplaceAllAbsent(s, pat, "");
    }
  }

  /** A piece without the separator character splits into itself. */
  lemma {:induction false} SplitWithoutSep(p: string, c: char)
    requires !Contains(p, [c])
    ensures Split(p, [c]) == [p]
    decreases |p|
  {
    if |p| > 0 {
      SplitWithoutSep(p[1..], c);
      assert p == [p[0]] + p[1..];
    }
  }

  /** Splitting `p + sep + t`, where `p` has no separator character, yields
      `p` followed by the pieces of `t`. */
  lemma {:induction false} SplitAfterFirstSep(p: string, c: char, t: string)
    requires !Contains(p, [c])
    ensures Split(p + [c] + t, [c]) == [p] + Split(t, [c])
    decreases |p|
  {
    var s := p + [c] + t;
    if |p| == 0 {
      assert s[1..] == t;
    } else {
      assert s[1..] == p[1..] + [c] + t;
      assert !StartsWith(s, [c]);
      SplitAfterFirstSep(p[1..], c, t);
      assert p == [p[0]] + p[1..];
    }
  }

  /** For a one-character separator `split` also inverts `join`: pieces that
      do not contain the separator come back unchanged. Together with
      `JoinSplit`, `Split(s, [c])` is the only non-empty list of
      separator-free pieces whose join is `s`. */
  lemma {:induction false} SplitJoinChar(parts: seq<string>, c: char)
    requires |parts| >= 1
    requires forall i :: 0 <= i < |parts| ==> !Contains(parts[i], [c])
    ensures Split(Join(parts, [c]), [c]) == parts
    decreases |parts|
  {
    if |parts| == 1 {
      SplitWithoutSep(parts[0], c);
    } else {
      SplitJoinChar(parts[1..], c);
      SplitAfterFirstSep(parts[0], c, Join(parts[1..], [c]));
      assert parts[0] + [c] + Join(parts[1..], [c]) == Join(parts, [c]);
      assert [parts[0]] + parts[1..] == parts;
    }
  }
}
