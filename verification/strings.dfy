/** Character classes and the handful of JavaScript string operations the
    analysis engine relies on (trim, startsWith, endsWith, includes,
    global replace-with-nothing, split and join), stated over `seq<char>`. */
module Strings {

  /** The characters that JavaScript's `\s` and `String.prototype.trim`
      treat as white space or line terminators. */
  predicate IsSpace(c: char) {
    c == '\t' || c == '\n' || c == '\U{000B}' || c == '\U{000C}' || c == '\r' || c == ' '
    || c == '\U{00A0}' || c == '\U{1680}' || ('\U{2000}' <= c <= '\U{200A}')
    || c == '\U{2028}' || c == '\U{2029}' || c == '\U{202F}' || c == '\U{205F}'
    || c == '\U{3000}' || c == '\U{FEFF}'
  }

  /** The characters a regular-expression `.` does not match (no `s` flag). */
  predicate IsLineTerminator(c: char) {
    c == '\n' || c == '\r' || c == '\U{2028}' || c == '\U{2029}'
  }

  /** The characters of the regular-expression class `\w`. */
  predicate IsWordChar(c: char) {
    ('a' <= c <= 'z') || ('A' <= c <= 'Z') || ('0' <= c <= '9') || c == '_'
  }

  lemma LineTerminatorIsSpace(c: char)
    requires IsLineTerminator(c)
    ensures IsSpace(c)
  {
  }

  predicate StartsWith(s: string, prefix: string) {
    prefix <= s
  }

  predicate EndsWith(s: string, suffix: string) {
    |suffix| <= |s| && s[|s| - |suffix|..] == suffix
  }

  /** `p` occurs in `s` starting at index `i`. */
  predicate OccursAt(s: string, p: string, i: int) {
    0 <= i && i + |p| <= |s| && s[i..i + |p|] == p
  }

  /** `s.includes(p)`: `p` occurs somewhere in `s`. */
  function Contains(s: string, p: string): (r: bool)
    ensures r <==> exists i :: OccursAt(s, p, i)
    decreases |s|
  {
    if p <= s then
      assert OccursAt(s, p, 0);
      true
    else if |s| <= |p| then
      assert forall i :: OccursAt(s, p, i) ==> i == 0;
      false
    else
      var r := Contains(s[1..], p);
      forall i | 1 <= i ensures OccursAt(s, p, i) <==> OccursAt(s[1..], p, i - 1) {
        OccursShift(s, p, i);
      }
      assert r ==> OccursAt(s, p, 1 + var j :| OccursAt(s[1..], p, j); j);
      r
  }

  /** An occurrence past the first character is one in the tail. */
  lemma OccursShift(s: string, p: string, i: int)
    requires s != [] && 1 <= i
    ensures OccursAt(s, p, i) <==> OccursAt(s[1..], p, i - 1)
  {
    if i + |p| <= |s| {
      assert forall j | i <= j < i + |p| :: s[j] == s[1..][j - 1];
      assert s[i..i + |p|] == s[1..][i - 1..i - 1 + |p|];
    }
  }

  /** Number of leading white-space characters of `s`. */
  function LeadingSpace(s: string): (n: nat)
    ensures n <= |s|
    ensures forall i :: 0 <= i < n ==> IsSpace(s[i])
    ensures n < |s| ==> !IsSpace(s[n])
  {
    if s == [] || !IsSpace(s[0]) then 0 else 1 + LeadingSpace(s[1..])
  }

  /** Number of trailing white-space characters of `s`. */
  function TrailingSpace(s: string): (n: nat)
    ensures n <= |s|
    ensures forall i :: |s| - n <= i < |s| ==> IsSpace(s[i])
    ensures n < |s| ==> !IsSpace(s[|s| - n - 1])
  {
    if s == [] || !IsSpace(s[|s| - 1]) then 0 else 1 + TrailingSpace(s[..|s| - 1])
  }

  /** `s.trim()`: the longest infix of `s` that neither starts nor ends with
      white space, obtained by dropping white space at both ends. */
  function Trim(s: string): (r: string)
    ensures exists i, j :: 0 <= i <= j <= |s| && r == s[i..j]
                           && (forall k :: 0 <= k < i ==> IsSpace(s[k]))
                           && (forall k :: j <= k < |s| ==> IsSpace(s[k]))
    ensures r != [] ==> !IsSpace(r[0]) && !IsSpace(r[|r| - 1])
    ensures r == [] <==> forall k :: 0 <= k < |s| ==> IsSpace(s[k])
  {
    var i := LeadingSpace(s);
    var n := TrailingSpace(s[i..]);
    var j := |s| - n;
    SpaceSuffix(s, i, n);
    assert s[i..][..|s[i..]| - n] == s[i..j];
    s[i..j]
  }

  /** The trailing white space of an infix `s[i..]` is trailing white space of `s`. */
  lemma SpaceSuffix(s: string, i: nat, n: nat)
    requires i <= |s| && n == TrailingSpace(s[i..])
    ensures forall k :: |s| - n <= k < |s| ==> IsSpace(s[k])
    ensures i < |s| - n ==> !IsSpace(s[|s| - n - 1])
  {
    forall k | |s| - n <= k < |s| ensures IsSpace(s[k]) {
      assert s[k] == s[i..][k - i];
    }
    if i < |s| - n {
      assert s[|s| - n - 1] == s[i..][|s[i..]| - n - 1];
    }
  }

  /** A string with no white space at either end trims to itself. */
  lemma TrimIdentity(s: string)
    requires s != [] ==> !IsSpace(s[0]) && !IsSpace(s[|s| - 1])
    ensures Trim(s) == s
  {
    if s != [] {
      assert LeadingSpace(s) == 0;
      assert TrailingSpace(s) == 0;
    }
  }

  /** `s.replace(/p/g, "")`: every occurrence of `p`, found left to right
      without overlap, is deleted. */
  function RemoveAll(s: string, p: string): (r: string)
    requires p != []
    ensures |r| <= |s|
    ensures forall c :: c in r ==> c in s
    ensures |p| == 1 ==> p[0] !in r
    decreases |s|
  {
    if s == [] then []
    else if p <= s then RemoveAll(s[|p|..], p)
    else [s[0]] + RemoveAll(s[1..], p)
  }

  /** Deleting every `//` leaves no `//` behind: a `/` survives only when
      the character after it is not a `/`. */
  lemma {:induction false} RemoveAllSlashesLeavesNone(s: string)
    ensures !Contains(RemoveAll(s, "//"), "//")
    decreases |s|
  {
    var r := RemoveAll(s, "//");
    if s == [] {
    } else if "//" <= s {
      RemoveAllSlashesLeavesNone(s[2..]);
    } else {
      var rest := RemoveAll(s[1..], "//");
      RemoveAllSlashesLeavesNone(s[1..]);
      assert r == [s[0]] + rest;
      if s[0] == '/' {
        // The character after a surviving '/' is not '/', so the first
        // surviving character of the rest is not '/' either.
        RemoveAllHead(s[1..]);
      }
      assert |r| >= 2 ==> r[1] == rest[0];
      forall i | 1 <= i ensures OccursAt(r, "//", i) ==> OccursAt(rest, "//", i - 1) {
        if i + 2 <= |r| {
          assert r[i..i + 2] == rest[i - 1..i + 1];
        }
      }
    }
  }

  /** What `RemoveAll(s, "//")` starts with when `s` does not start with a `/`. */
  lemma RemoveAllHead(s: string)
    requires s == [] || s[0] != '/'
    ensures var r := RemoveAll(s, "//"); r == [] || r[0] != '/'
  {
  }

  /** `s.split(sep)` for a one-character separator: the pieces between the
      separators, in order; an empty string gives one empty piece. */
  function Split(s: string, sep: char): (r: seq<string>)
    ensures |r| >= 1
    ensures forall k :: 0 <= k < |r| ==> sep !in r[k]
    ensures forall k, c :: 0 <= k < |r| && c in r[k] ==> c in s
    ensures Join(r, sep) == s
  {
    if s == [] then [[]]
    else if s[0] == sep then
      var rest := Split(s[1..], sep);
      assert Join([[]] + rest, sep) == [] + [sep] + Join(rest, sep);
      var r := [[]] + rest;
      forall k, c | 0 <= k < |r| && c in r[k] ensures c in s {
        assert r[k] == rest[k - 1];
        assert c in s[1..];
      }
      r
    else
      var rest := Split(s[1..], sep);
      var r := [[s[0]] + rest[0]] + rest[1..];
      assert forall k :: 1 <= k < |r| ==> r[k] == rest[k];
      forall k, c | 0 <= k < |r| && c in r[k] ensures c in s {
        if k == 0 && c != s[0] {
          assert c in rest[0];
        }
        assert c == s[0] || c in s[1..];
      }
      JoinHead(rest, sep, s[0]);
      r
  }

  /** `xs.join(sep)`. */
  function Join(xs: seq<string>, sep: char): string
  {
    if xs == [] then []
    else if |xs| == 1 then xs[0]
    else xs[0] + [sep] + Join(xs[1..], sep)
  }

  lemma JoinHead(xs: seq<string>, sep: char, c: char)
    requires xs != []
    ensures Join([[c] + xs[0]] + xs[1..], sep) == [c] + Join(xs, sep)
  {
    var ys := [[c] + xs[0]] + xs[1..];
    assert ys[1..] == xs[1..];
  }

  /** Splitting a join recovers the pieces when none of them holds the
      separator. */
  lemma {:induction false} SplitJoin(xs: seq<string>, sep: char)
    requires |xs| >= 1
    requires forall k :: 0 <= k < |xs| ==> sep !in xs[k]
    ensures Split(Join(xs, sep), sep) == xs
    decreases |xs|, |xs[0]|
  {
    if |xs| == 1 {
      SplitPiece(xs[0], sep);
    } else if xs[0] == [] {
      var rest := xs[1..];
      assert Join(xs, sep) == [sep] + Join(rest, sep);
      SplitJoin(rest, sep);
      assert ([sep] + Join(rest, sep))[1..] == Join(rest, sep);
    } else {
      var c := xs[0][0];
      var ys := [xs[0][1..]] + xs[1..];
      assert ys[1..] == xs[1..];
      SplitJoin(ys, sep);
      assert [c] + xs[0][1..] == xs[0];
      JoinHead(ys, sep, c);
      assert [[c] + ys[0]] + ys[1..] == xs;
      var j := Join(xs, sep);
      assert j == [c] + Join(ys, sep);
      assert j[1..] == Join(ys, sep);
    }
  }

  /** A string without the separator splits into itself. */
  lemma {:induction false} SplitPiece(s: string, sep: char)
    requires sep !in s
    ensures Split(s, sep) == [s]
    decreases |s|
  {
    if s != [] {
      SplitPiece(s[1..], sep);
      assert [s[0]] + s[1..] == s;
    }
  }

  /** Joining two non-empty lists of pieces around one separator. */
  lemma {:induction false} JoinAppend(xs: seq<string>, ys: seq<string>, sep: char)
    requires xs != [] && ys != []
    ensures Join(xs + ys, sep) == Join(xs, sep) + [sep] + Join(ys, sep)
    decreases |xs|
  {
    if |xs| == 1 {
      assert (xs + ys)[1..] == ys;
    } else {
      assert (xs + ys)[1..] == xs[1..] + ys;
      JoinAppend(xs[1..], ys, sep);
    }
  }

  /** Every character of a join is the separator or a character of one of
      the pieces. */
  lemma {:induction false} JoinChars(xs: seq<string>, sep: char, c: char)
    requires c in Join(xs, sep)
    ensures c == sep || exists k :: 0 <= k < |xs| && c in xs[k]
    decreases |xs|
  {
    if |xs| > 1 && c != sep && c !in xs[0] {
      JoinChars(xs[1..], sep, c);
      var k :| 0 <= k < |xs[1..]| && c in xs[1..][k];
      assert xs[k + 1] == xs[1..][k];
    }
  }

  /** A join of non-empty pieces starts with its first piece and ends with
      its last. */
  lemma {:induction false} JoinEnds(xs: seq<string>, sep: char)
    requires xs != [] && forall k :: 0 <= k < |xs| ==> xs[k] != []
    ensures var j := Join(xs, sep);
            j != [] && j[0] == xs[0][0] && j[|j| - 1] == xs[|xs| - 1][|xs[|xs| - 1]| - 1]
    decreases |xs|
  {
    if |xs| > 1 {
      JoinEnds(xs[1..], sep);
    }
  }

  /** Every character of a trimmed string is a character of the string. */
  lemma TrimChars(s: string, c: char)
    requires c in Trim(s)
    ensures c in s
  {
    var i, j :| 0 <= i <= j <= |s| && Trim(s) == s[i..j];
    SliceChars(s, i, j, c);
  }

  lemma SliceChars(s: string, i: nat, j: nat, c: char)
    requires i <= j <= |s| && c in s[i..j]
    ensures c in s
  {
    var k :| 0 <= k < j - i && s[i..j][k] == c;
    assert s[i + k] == c;
  }

  /** Trimming is idempotent. */
  lemma TrimTwice(s: string)
    ensures Trim(Trim(s)) == Trim(s)
  {
    TrimIdentity(Trim(s));
  }
}
