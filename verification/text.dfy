/** Substring occurrence and joining, shared by the Go and Python string models. */
module Text {

  /** `pat` occurs in `s` starting at position `j`. */
  predicate MatchAt(s: string, pat: string, j: int)
  {
    0 <= j && j + |pat| <= |s| && s[j..j + |pat|] == pat
  }

  /** `pat` occurs somewhere in `s`. */
  predicate Occurs(pat: string, s: string)
  {
    exists j :: 0 <= j <= |s| && MatchAt(s, pat, j)
  }

  /** The parts laid end to end with `sep` between neighbours (Go's `strings.Join`,
      Python's `sep.join`). */
  function Join(parts: seq<string>, sep: string): string
  {
    if |parts| == 0 then ""
    else if |parts| == 1 then parts[0]
    else parts[0] + sep + Join(parts[1..], sep)
  }

  /** The position of the first `c` in `s`, or the length of `s` if there is none. */
  function IndexOf(s: string, c: char): (k: nat)
    ensures k <= |s| && c !in s[..k]
    ensures k < |s| ==> s[k] == c
  {
    if |s| == 0 || s[0] == c then 0
    else
      var k := IndexOf(s[1..], c);
      assert s[..k + 1] == [s[0]] + s[1..][..k];
      k + 1
  }

  /** The first `c` after a stretch without one is where the stretch ends. */
  lemma IndexOfAfterPrefix(n: string, t: string, c: char)
    requires c !in n && |t| > 0 && t[0] == c
    ensures IndexOf(n + t, c) == |n|
    decreases |n|
  {
    if |n| > 0 {
      assert (n + t)[1..] == n[1..] + t;
      IndexOfAfterPrefix(n[1..], t, c);
    }
  }

  /** A join starts with its first part, followed by the separator when more parts
      come. */
  lemma JoinHead(parts: seq<string>, sep: string)
    requires |parts| > 0
    ensures var j := Join(parts, sep); var n := |parts[0]|;
      && n <= |j| && j[..n] == parts[0]
      && (|parts| == 1 ==> j == parts[0])
      && (|parts| > 1 ==> n + |sep| <= |j| && j[n..n + |sep|] == sep)
  {
  }

  /** Prefixing the first part with `c` prefixes the joined text with `c`. */
  lemma {:induction false} JoinPrepend(c: char, parts: seq<string>, sep: string)
    requires |parts| > 0
    ensures Join([[c] + parts[0]] + parts[1..], sep) == [c] + Join(parts, sep)
  {
    var q := [[c] + parts[0]] + parts[1..];
    assert q[1..] == parts[1..];
  }

  /** A match inside a prefix of `s` is a match in `s`. */
  lemma MatchInPrefix(x: string, s: string, pat: string, j: int)
    requires |x| <= |s| && s[..|x|] == x
    requires MatchAt(x, pat, j)
    ensures MatchAt(s, pat, j)
  {
    assert s[j..j + |pat|] == x[j..j + |pat|];
  }

  /** A slice of a suffix is a slice of the whole. */
  lemma SliceOfSuffix(s: string, d: nat, j: nat, m: nat)
    requires d + j + m <= |s|
    ensures s[d..][j..j + m] == s[d + j..d + j + m]
  {
  }

  /** A prefix of a non-empty text is its head followed by a prefix of its tail. */
  lemma PrefixOfCons(s: string, m: nat)
    requires m < |s|
    ensures s[..m + 1] == [s[0]] + s[1..][..m]
  {
  }

  /** A suffix of a suffix is a suffix of the whole. */
  lemma SuffixOfSuffix(s: string, d: nat, j: nat)
    requires d + j <= |s|
    ensures s[d..][j..] == s[d + j..]
  {
  }

  /** A prefix of `s` holds no occurrence when none starts in `s` before `b` and every
      occurrence inside the prefix would have to start before `b`. */
  lemma CleanPrefix(s: string, q: string, pat: string, b: int)
    requires |q| <= |s| && s[..|q|] == q && |q| < b + |pat|
    requires forall j :: 0 <= j < b ==> !MatchAt(s, pat, j)
    ensures !Occurs(pat, q)
  {
    forall j | 0 <= j <= |q|
      ensures !MatchAt(q, pat, j)
    {
      if MatchAt(q, pat, j) {
        MatchInPrefix(q, s, pat, j);
      }
    }
  }

  /** A text that lacks the first character of a non-empty pattern cannot contain it. */
  lemma NoOccurrenceWithoutHead(pat: string, p: string)
    requires |pat| > 0 && pat[0] !in p
    ensures !Occurs(pat, p)
  {
    forall j | 0 <= j <= |p|
      ensures !MatchAt(p, pat, j)
    {
      if j + |pat| <= |p| {
        assert p[j..j + |pat|][0] == p[j];
      }
    }
  }

  /** A prefix lacking the pattern's first character cannot start an occurrence. */
  lemma NoOccurrenceAfterHeadless(pat: string, p: string, x: string)
    requires |pat| > 0 && pat[0] !in p
    requires !Occurs(pat, x)
    ensures !Occurs(pat, p + x)
  {
    var s := p + x;
    forall j | 0 <= j <= |s|
      ensures !MatchAt(s, pat, j)
    {
      if j + |pat| <= |s| {
        if j < |p| {
          assert s[j..j + |pat|][0] == p[j];
        } else {
          assert s[j..j + |pat|] == x[j - |p|..j - |p| + |pat|];
          assert !MatchAt(x, pat, j - |p|);
        }
      }
    }
  }

  /** A character the pattern does not contain separates occurrences: every
      occurrence in `x + [c] + y` lies inside `x` or inside `y`. */
  lemma NoOccurrenceAcross(pat: string, x: string, c: char, y: string)
    requires c !in pat
    requires !Occurs(pat, x) && !Occurs(pat, y)
    ensures !Occurs(pat, x + [c] + y)
  {
    var s := x + [c] + y;
    forall j | 0 <= j <= |s|
      ensures !MatchAt(s, pat, j)
    {
      if j + |pat| <= |s| {
        if j + |pat| <= |x| {
          assert s[j..j + |pat|] == x[j..j + |pat|];
          assert !MatchAt(x, pat, j);
        } else if j <= |x| {
          assert s[j..j + |pat|][|x| - j] == s[|x|] == c;
        } else {
          assert s[j..j + |pat|] == y[j - |x| - 1..j - |x| - 1 + |pat|];
          assert !MatchAt(y, pat, j - |x| - 1);
        }
      }
    }
  }
}
