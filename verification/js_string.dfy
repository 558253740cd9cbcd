/**
 The two JavaScript string built-ins the server relies on, with their
 ECMAScript behaviour:

 - `s.replace(/pat/g, rep)` where `pat` is a literal (no regular-expression
   operator in it) and `rep` is a STRING. In that case `rep` is not inserted
   verbatim: each `$` pattern in it is expanded per match (the
   GetSubstitution step of String.prototype.replace in ECMA-262);
 - `s.split(sep)` for a one-character separator.
 */
module JsString {
  import opened Text

  /** A JavaScript value that may be `undefined` (`None`). */
  datatype Option<+T> = None | Some(value: T)

  /**
   GetSubstitution for a pattern with no capture groups: `$$` gives `$`,
   `$&` the matched text, `` $` `` the text before the match and `$'` the
   text after it; any other `$` (including `$1`, `$<` and a trailing `$`)
   stands for itself.
   */
  function Substitution(rep: string, matched: string, before: string, after: string): string
    decreases |rep|
  {
    if |rep| == 0 then []
    else if rep[0] == '$' && |rep| >= 2 && rep[1] in "$&`'" then
      (if rep[1] == '$' then "$"
       else if rep[1] == '&' then matched
       else if rep[1] == '`' then before
       else after)
      + Substitution(rep[2..], matched, before, after)
    else [rep[0]] + Substitution(rep[1..], matched, before, after)
  }

  /** A replacement text without `$` is inserted as it is. */
  lemma {:induction false} SubstitutionWithoutDollar(rep: string, matched: string, before: string, after: string)
    requires '$' !in rep
    ensures Substitution(rep, matched, before, after) == rep
    decreases |rep|
  {
    if |rep| > 0 {
      assert rep[0] != '$';
      assert '$' !in rep[1..] by {
        forall k | 0 <= k < |rep[1..]| ensures rep[1..][k] != '$' {
          assert rep[1..][k] == rep[k + 1];
        }
      }
      SubstitutionWithoutDollar(rep[1..], matched, before, after);
      assert rep == [rep[0]] + rep[1..];
    }
  }

  /**
   The global replace scanned from index `i` of the original `s`: matches
   are found left to right without overlap, and every `$` pattern refers to
   the original `s` (text before and after the match), not to the output.
   */
  function ReplaceFrom(s: string, pat: string, rep: string, i: nat): string
    requires |pat| > 0 && i <= |s|
    decreases |s| - i
  {
    if |s| - i < |pat| then s[i..]
    else if s[i..i + |pat|] == pat then
      Substitution(rep, pat, s[..i], s[i + |pat|..]) + ReplaceFrom(s, pat, rep, i + |pat|)
    else [s[i]] + ReplaceFrom(s, pat, rep, i + 1)
  }

  lemma {:induction false} ReplaceFromLiteral(s: string, pat: string, rep: string, i: nat)
    requires |pat| > 0 && i <= |s|
    requires '$' !in rep
    ensures ReplaceFrom(s, pat, rep, i) == ReplaceAll(s[i..], pat, rep)
    decreases |s| - i
  {
    var t := s[i..];
    if |s| - i >= |pat| {
      assert t[..|pat|] == s[i..i + |pat|];
      if s[i..i + |pat|] == pat {
        calc {
          ReplaceFrom(s, pat, rep, i);
          Substitution(rep, pat, s[..i], s[i + |pat|..]) + ReplaceFrom(s, pat, rep, i + |pat|);
          { SubstitutionWithoutDollar(rep, pat, s[..i], s[i + |pat|..]);
            ReplaceFromLiteral(s, pat, rep, i + |pat|); }
          rep + ReplaceAll(s[i + |pat|..], pat, rep);
          { assert t[|pat|..] == s[i + |pat|..]; }
          ReplaceAll(t, pat, rep);
        }
      } else {
        calc {
          ReplaceFrom(s, pat, rep, i);
          [s[i]] + ReplaceFrom(s, pat, rep, i + 1);
          { ReplaceFromLiteral(s, pat, rep, i + 1); }
          [s[i]] + ReplaceAll(s[i + 1..], pat, rep);
          { assert t[1..] == s[i + 1..]; }
          ReplaceAll(t, pat, rep);
        }
      }
    }
  }

  lemma {:induction false} ReplaceFromAbsent(s: string, pat: string, rep: string, i: nat)
    requires |pat| > 0 && i <= |s|
    requires !Occurs(s[i..], pat)
    ensures ReplaceFrom(s, pat, rep, i) == s[i..]
    decreases |s| - i
  {
    var t := s[i..];
    if |s| - i >= |pat| {
      assert t[..|pat|] == s[i..i + |pat|];
      assert t[1..] == s[i + 1..];
      ReplaceFromAbsent(s, pat, rep, i + 1);
      assert s[i..] == [s[i]] + s[i + 1..];
    }
  }

  /**
   `s.replace(/pat/g, rep)` for a literal `pat` and a string `rep`. When
   `rep` holds no `$` it is the literal replace-all, and without a match the
   input comes back unchanged whatever `rep` holds.
   */
  function ReplaceGlobal(s: string, pat: string, rep: string): (r: string)
    requires |pat| > 0
    ensures '$' !in rep ==> r == ReplaceAll(s, pat, rep)
    ensures !Occurs(s, pat) ==> r == s
  {
    ReplaceFromStart(s, pat, rep);
    ReplaceFrom(s, pat, rep, 0)
  }

  /** The two facts `ReplaceGlobal` promises, stated on the scan from index 0. */
  lemma ReplaceFromStart(s: string, pat: string, rep: string)
    requires |pat| > 0
    ensures '$' !in rep ==> ReplaceFrom(s, pat, rep, 0) == ReplaceAll(s, pat, rep)
    ensures !Occurs(s, pat) ==> ReplaceFrom(s, pat, rep, 0) == s
  {
    assert s[0..] == s;
    if '$' !in rep {
      ReplaceFromLiteral(s, pat, rep, 0);
    }
    if !Occurs(s, pat) {
      ReplaceFromAbsent(s, pat, rep, 0);
    }
  }

  /**
   `s.split(sep)`: the maximal `sep`-free pieces of `s`, in order. There is
   always at least one piece; the empty string splits into one empty piece.
   */
  function Split(s: string, sep: char): (parts: seq<string>)
    ensures |parts| > 0
    ensures forall k :: 0 <= k < |parts| ==> sep !in parts[k]
    ensures Join(parts, sep) == s
    decreases |s|
  {
    if |s| == 0 then [""]
    else
      var rest := Split(s[1..], sep);
      if s[0] == sep then
        assert s == [sep] + s[1..];
        [""] + rest
      else
        var parts := [[s[0]] + rest[0]] + rest[1..];
        assert parts[1..] == rest[1..];
        assert |rest| > 1 ==> Join(rest, sep) == rest[0] + [sep] + Join(rest[1..], sep);
        assert s == [s[0]] + s[1..];
        parts
  }

  /** A piece before the first separator is split off unchanged. */
  lemma {:induction false} SplitAfterFirst(x: string, y: string, sep: char)
    requires sep !in x
    ensures Split(x + [sep] + y, sep) == [x] + Split(y, sep)
    decreases |x|
  {
    var s := x + [sep] + y;
    if |x| == 0 {
      assert s == [sep] + y;
      assert s[1..] == y;
    } else {
      assert s[1..] == x[1..] + [sep] + y;
      assert sep !in x[1..] by {
        forall k | 0 <= k < |x[1..]| ensures x[1..][k] != sep {
          assert x[1..][k] == x[k + 1];
        }
      }
      SplitAfterFirst(x[1..], y, sep);
      assert [x[0]] + x[1..] == x;
    }
  }

  /** A `sep`-free prefix followed by nothing or by `sep` is the first piece. */
  lemma {:induction false} SplitFirstPiece(x: string, tail: string, sep: char)
    requires sep !in x
    requires |tail| == 0 || tail[0] == sep
    ensures Split(x + tail, sep)[0] == x
    decreases |x|
  {
    var s := x + tail;
    if |x| == 0 {
      assert s == tail;
      if |tail| > 0 {
        assert s[1..] == tail[1..];
      }
    } else {
      assert s[1..] == x[1..] + tail;
      assert sep !in x[1..] by {
        forall k | 0 <= k < |x[1..]| ensures x[1..][k] != sep {
          assert x[1..][k] == x[k + 1];
        }
      }
      SplitFirstPiece(x[1..], tail, sep);
      assert [x[0]] + x[1..] == x;
    }
  }

  /** Without the separator, `split` returns the whole string as one piece. */
  lemma {:induction false} SplitNoSeparator(s: string, sep: char)
    requires sep !in s
    ensures Split(s, sep) == [s]
  {
    SplitFirstPiece(s, [], sep);
    assert s + [] == s;
  }

  /**
   Splitting undoes joining: `sep`-free pieces joined with `sep` split back
   into exactly those pieces.
   */
  lemma {:induction false} SplitJoin(parts: seq<string>, sep: char)
    requires |parts| > 0
    requires forall k :: 0 <= k < |parts| ==> sep !in parts[k]
    ensures Split(Join(parts, sep), sep) == parts
    decreases |parts|
  {
    if |parts| == 1 {
      SplitNoSeparator(parts[0], sep);
    } else {
      SplitJoin(parts[1..], sep);
      SplitAfterFirst(parts[0], Join(parts[1..], sep), sep);
      assert [parts[0]] + parts[1..] == parts;
    }
  }

  /** JavaScript array indexing `a[k]`: `undefined` (here `None`) past the end. */
  function At(parts: seq<string>, k: nat): Option<string>
  {
    if k < |parts| then Some(parts[k]) else None
  }
}
