/**
 Reference string operations with no JavaScript quirks: character counts,
 substring occurrence, literal replace-all and joining with a separator.
 The JavaScript built-ins the server calls are modelled in `JsString` and
 related back to these definitions there.
 */
module Text {

  /** Number of occurrences of `c` in `s`. */
  function Count(s: string, c: char): nat
    decreases |s|
  {
    if |s| == 0 then 0
    else (if s[0] == c then 1 else 0) + Count(s[1..], c)
  }

  lemma {:induction false} CountConcat(a: string, b: string, c: char)
    ensures Count(a + b, c) == Count(a, c) + Count(b, c)
    decreases |a|
  {
    if |a| == 0 {
      assert a + b == b;
    } else {
      assert (a + b)[0] == a[0];
      assert (a + b)[1..] == a[1..] + b;
      CountConcat(a[1..], b, c);
    }
  }

  /** A character is counted exactly when it is present. */
  lemma {:induction false} CountZero(s: string, c: char)
    ensures Count(s, c) == 0 <==> c !in s
    decreases |s|
  {
    if |s| > 0 {
      CountZero(s[1..], c);
      assert s == [s[0]] + s[1..];
    }
  }

  /** `pat` occurs somewhere in `s` as a contiguous block. */
  predicate Occurs(s: string, pat: string)
    decreases |s|
  {
    |pat| <= |s| && (s[..|pat|] == pat || (0 < |s| && Occurs(s[1..], pat)))
  }

  /** A pattern longer than the text does not occur in it. */
  lemma NotOccursShorter(s: string, pat: string)
    requires |s| < |pat|
    ensures !Occurs(s, pat)
  {
  }

  /** A text as long as the pattern holds it only by being equal to it. */
  lemma NotOccursSameLength(s: string, pat: string)
    requires |s| == |pat| && s != pat
    ensures !Occurs(s, pat)
  {
    assert s[..|pat|] == s;
    if 0 < |s| {
      NotOccursShorter(s[1..], pat);
    }
  }

  /**
   Literal replace-all: scans `s` from the left and replaces every
   non-overlapping occurrence of `pat` by `rep`, resuming the scan after
   each replaced occurrence. Text inserted from `rep` is never rescanned.
   */
  function ReplaceAll(s: string, pat: string, rep: string): string
    requires |pat| > 0
    decreases |s|
  {
    if |s| < |pat| then s
    else if s[..|pat|] == pat then rep + ReplaceAll(s[|pat|..], pat, rep)
    else [s[0]] + ReplaceAll(s[1..], pat, rep)
  }

  /** Without an occurrence of the pattern, replace-all changes nothing. */
  lemma {:induction false} ReplaceAllAbsent(s: string, pat: string, rep: string)
    requires |pat| > 0
    requires !Occurs(s, pat)
    ensures ReplaceAll(s, pat, rep) == s
    decreases |s|
  {
    if |s| >= |pat| {
      ReplaceAllAbsent(s[1..], pat, rep);
      assert s == [s[0]] + s[1..];
    }
  }

  /**
   Replacing a pattern by a text, neither of which contains `c`, leaves the
   number of `c` characters unchanged.
   */
  lemma {:induction false} ReplaceAllKeepsCount(s: string, pat: string, rep: string, c: char)
    requires |pat| > 0
    requires c !in pat && c !in rep
    ensures Count(ReplaceAll(s, pat, rep), c) == Count(s, c)
    decreases |s|
  {
    if |s| < |pat| {
    } else if s[..|pat|] == pat {
      ReplaceAllKeepsCount(s[|pat|..], pat, rep, c);
      CountZero(rep, c);
      CountZero(pat, c);
      CountConcat(rep, ReplaceAll(s[|pat|..], pat, rep), c);
      assert s == pat + s[|pat|..];
      CountConcat(pat, s[|pat|..], c);
    } else {
      ReplaceAllKeepsCount(s[1..], pat, rep, c);
      CountConcat([s[0]], ReplaceAll(s[1..], pat, rep), c);
      assert s == [s[0]] + s[1..];
      CountConcat([s[0]], s[1..], c);
    }
  }

  /** With a one-character pattern, replace-all works character by character. */
  lemma {:induction false} ReplaceCharConcat(a: string, b: string, c: char, rep: string)
    ensures ReplaceAll(a + b, [c], rep) == ReplaceAll(a, [c], rep) + ReplaceAll(b, [c], rep)
    decreases |a|
  {
    if |a| == 0 {
      assert a + b == b;
    } else {
      assert (a + b)[..1] == a[..1];
      assert (a + b)[1..] == a[1..] + b;
      ReplaceCharConcat(a[1..], b, c, rep);
    }
  }

  /** A one-character pattern meets a one-character text exactly when they agree. */
  lemma ReplaceCharSingle(x: char, c: char, rep: string)
    ensures ReplaceAll([x], [c], rep) == if x == c then rep else [x]
  {
    assert [x][..1] == [x];
    assert [x][1..] == [];
  }

  /** A one-character pattern that does not occur leaves the text unchanged. */
  lemma {:induction false} ReplaceCharAbsent(s: string, c: char, rep: string)
    requires c !in s
    ensures ReplaceAll(s, [c], rep) == s
    decreases |s|
  {
    if |s| > 0 {
      assert s[..1] == [s[0]];
      assert c !in s[1..] by {
        forall k | 0 <= k < |s[1..]| ensures s[1..][k] != c {
          assert s[1..][k] == s[k + 1];
        }
      }
      ReplaceCharAbsent(s[1..], c, rep);
      assert s == [s[0]] + s[1..];
    }
  }

  /** Concatenation of `parts` with `sep` between consecutive parts. */
  function Join(parts: seq<string>, sep: char): string
    requires |parts| > 0
    decreases |parts|
  {
    if |parts| == 1 then parts[0]
    else parts[0] + [sep] + Join(parts[1..], sep)
  }
}
