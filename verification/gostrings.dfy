/** Go's `strings.ReplaceAll` for a non-empty search string: a left-to-right scan that
    replaces each leftmost, non-overlapping occurrence. */
module GoStrings {
  import opened Text

  /** `strings.ReplaceAll(s, pat, rep)`. */
  function ReplaceAll(s: string, pat: string, rep: string): string
    requires |pat| > 0
    decreases |s|
  {
    if |s| < |pat| then s
    else if s[..|pat|] == pat then rep + ReplaceAll(s[|pat|..], pat, rep)
    else [s[0]] + ReplaceAll(s[1..], pat, rep)
  }

  /** The stretches of `s` between the occurrences `ReplaceAll` replaces
      (Go's `strings.Split` for a non-empty separator). */
  function SplitOn(s: string, pat: string): (pieces: seq<string>)
    requires |pat| > 0
    ensures |pieces| >= 1
    decreases |s|
  {
    if |s| < |pat| then [s]
    else if s[..|pat|] == pat then [""] + SplitOn(s[|pat|..], pat)
    else
      var t := SplitOn(s[1..], pat);
      [[s[0]] + t[0]] + t[1..]
  }

  /** The first piece is a prefix of `s`, and all of `s` when there is one piece. */
  lemma {:induction false} SplitOnHeadIsPrefix(s: string, pat: string)
    requires |pat| > 0
    ensures var ps := SplitOn(s, pat);
      && |ps[0]| <= |s| && s[..|ps[0]|] == ps[0]
      && (|ps| == 1 ==> ps[0] == s)
    decreases |s|
  {
    if |s| >= |pat| && s[..|pat|] != pat {
      var t := SplitOn(s[1..], pat);
      SplitOnHeadIsPrefix(s[1..], pat);
      assert SplitOn(s, pat) == [[s[0]] + t[0]] + t[1..];
      PrefixOfCons(s, |t[0]|);
    }
  }

  /** No occurrence starts inside the first piece. */
  lemma {:induction false} SplitOnHeadNoMatch(s: string, pat: string)
    requires |pat| > 0
    ensures forall j :: 0 <= j < |SplitOn(s, pat)[0]| ==> !MatchAt(s, pat, j)
    decreases |s|
  {
    if |s| >= |pat| && s[..|pat|] != pat {
      var t := SplitOn(s[1..], pat);
      SplitOnHeadNoMatch(s[1..], pat);
      var p := [s[0]] + t[0];
      assert SplitOn(s, pat)[0] == p;
      forall j | 0 <= j < |p|
        ensures !MatchAt(s, pat, j)
      {
        if j == 0 {
          assert s[0..|pat|] == s[..|pat|];
        } else if j + |pat| <= |s| {
          assert !MatchAt(s[1..], pat, j - 1);
          SliceOfSuffix(s, 1, j - 1, |pat|);
        }
      }
    }
  }

  /** The facts `SplitOnHeadNext` states, for one text. */
  ghost predicate HeadThenRest(s: string, pat: string)
    requires |pat| > 0
  {
    var ps := SplitOn(s, pat); var p := ps[0];
    |ps| > 1 ==> |p| + |pat| <= |s| && MatchAt(s, pat, |p|) && ps[1..] == SplitOn(s[|p| + |pat|..], pat)
  }

  /** A text starting with the search string splits into an empty piece and the
      pieces of what follows. */
  lemma HeadThenRestAtMatch(s: string, pat: string)
    requires |pat| > 0 && |pat| <= |s| && s[..|pat|] == pat
    ensures HeadThenRest(s, pat)
  {
    var t := SplitOn(s[|pat|..], pat);
    assert SplitOn(s, pat) == [""] + t;
    assert ([""] + t)[1..] == t;
    assert s[0..|pat|] == s[..|pat|];
  }

  /** A text not starting with the search string inherits the facts from its tail. */
  lemma HeadThenRestPastChar(s: string, pat: string)
    requires |pat| > 0 && |pat| <= |s| && s[..|pat|] != pat
    requires HeadThenRest(s[1..], pat)
    ensures HeadThenRest(s, pat)
  {
    var t := SplitOn(s[1..], pat);
    var p := [s[0]] + t[0];
    assert SplitOn(s, pat) == [p] + t[1..];
    assert ([p] + t[1..])[1..] == t[1..];
    if |t| > 1 {
      assert MatchAt(s[1..], pat, |t[0]|);
      SliceOfSuffix(s, 1, |t[0]|, |pat|);
      SuffixOfSuffix(s, 1, |t[0]| + |pat|);
    }
  }

  /** When there is more than one piece, an occurrence follows the first piece and the
      remaining pieces split what comes after it. */
  lemma {:induction false} SplitOnHeadNext(s: string, pat: string)
    requires |pat| > 0
    ensures var ps := SplitOn(s, pat); var p := ps[0];
      |ps| > 1 ==> |p| + |pat| <= |s| && MatchAt(s, pat, |p|) && ps[1..] == SplitOn(s[|p| + |pat|..], pat)
    decreases |s|
  {
    if |s| < |pat| {
    } else if s[..|pat|] == pat {
      HeadThenRestAtMatch(s, pat);
    } else {
      SplitOnHeadNext(s[1..], pat);
      HeadThenRestPastChar(s, pat);
    }
  }

  /** The three facts about the first piece together. */
  lemma SplitOnHead(s: string, pat: string)
    requires |pat| > 0
    ensures var ps := SplitOn(s, pat); var p := ps[0];
      && |p| <= |s| && s[..|p|] == p
      && (forall j :: 0 <= j < |p| ==> !MatchAt(s, pat, j))
      && (|ps| == 1 ==> p == s)
      && (|ps| > 1 ==> |p| + |pat| <= |s| && MatchAt(s, pat, |p|) && ps[1..] == SplitOn(s[|p| + |pat|..], pat))
  {
    SplitOnHeadIsPrefix(s, pat);
    SplitOnHeadNoMatch(s, pat);
    SplitOnHeadNext(s, pat);
  }

  /** Splitting then joining with the search string gives back the text. */
  lemma {:induction false} JoinSplitOn(s: string, pat: string)
    requires |pat| > 0
    ensures Join(SplitOn(s, pat), pat) == s
    decreases |s|
  {
    var ps := SplitOn(s, pat);
    SplitOnHead(s, pat);
    if |ps| > 1 {
      var p := ps[0];
      var rest := s[|p| + |pat|..];
      JoinSplitOn(rest, pat);
      assert s == s[..|p|] + s[|p|..|p| + |pat|] + rest;
    }
  }

  /** `ReplaceAll` joins the pieces with the replacement: every occurrence the scan
      finds is replaced, and the text between them is kept. */
  lemma {:induction false} ReplaceAllIsJoin(s: string, pat: string, rep: string)
    requires |pat| > 0
    ensures ReplaceAll(s, pat, rep) == Join(SplitOn(s, pat), rep)
    decreases |s|
  {
    if |s| < |pat| {
    } else if s[..|pat|] == pat {
      ReplaceAllIsJoin(s[|pat|..], pat, rep);
      var t := SplitOn(s[|pat|..], pat);
      assert ([""] + t)[1..] == t;
    } else {
      ReplaceAllIsJoin(s[1..], pat, rep);
      JoinPrepend(s[0], SplitOn(s[1..], pat), rep);
    }
  }

  /** No piece contains the search string. Every piece but the last, followed by the
      search string without its last character, contains no occurrence either: each
      replaced occurrence is the leftmost one. */
  lemma {:induction false} SplitOnPiecesAreClean(s: string, pat: string)
    requires |pat| > 0
    ensures var ps := SplitOn(s, pat);
      && (forall i :: 0 <= i < |ps| ==> !Occurs(pat, ps[i]))
      && (forall i :: 0 <= i < |ps| - 1 ==> !Occurs(pat, ps[i] + pat[..|pat| - 1]))
    decreases |s|
  {
    var ps := SplitOn(s, pat);
    SplitOnHead(s, pat);
    var p := ps[0];
    CleanPrefix(s, p, pat, |p|);
    if |ps| > 1 {
      var q := p + pat[..|pat| - 1];
      assert s[..|q|] == q by {
        assert s[..|q|] == s[..|p|] + s[|p|..|p| + |pat|][..|pat| - 1];
      }
      CleanPrefix(s, q, pat, |p|);
      SplitOnPiecesAreClean(s[|p| + |pat|..], pat);
      assert forall i :: 1 <= i < |ps| ==> ps[i] == ps[1..][i - 1];
    }
  }

  /** The scan splits `s` into one piece exactly when the search string does not
      occur in it. */
  lemma SplitOnSingle(s: string, pat: string)
    requires |pat| > 0
    ensures |SplitOn(s, pat)| == 1 <==> !Occurs(pat, s)
  {
    SplitOnHead(s, pat);
    SplitOnPiecesAreClean(s, pat);
    var ps := SplitOn(s, pat);
    if |ps| > 1 {
      assert MatchAt(s, pat, |ps[0]|);
    }
  }

  /** When the search string does not occur, `ReplaceAll` returns its input. */
  lemma ReplaceAllAbsent(s: string, pat: string, rep: string)
    requires |pat| > 0 && !Occurs(pat, s)
    ensures ReplaceAll(s, pat, rep) == s
  {
    SplitOnSingle(s, pat);
    ReplaceAllIsJoin(s, pat, rep);
    SplitOnHead(s, pat);
  }
}
