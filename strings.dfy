/**
 The handful of Python string operations that the job-recommendation service
 relies on, modelled on `string` (`seq<char>`):

 - `str.replace(old, new)` with a non-empty `old`: one left-to-right scan that
   replaces non-overlapping occurrences (`Replace`);
 - `new.join(xs)` and `s.split(sep)` (`Join`, `SplitOn`);
 - `str.strip()` with no argument (`Strip`), over a fixed whitespace set;
 - deleting every occurrence of one character (`Remove`), which is what
   `s.replace(c, "")` does for a one-character `c`.

 Beside them: subsequence and infix relations used to state what these
 operations keep and drop.
 */
module Strings {

  /* ---------------------------------------------------------------------- */
  /* Relations between strings                                              */
  /* ---------------------------------------------------------------------- */

  /** `pat` occurs in `s` at position `i`. */
  predicate OccursAt(pat: string, s: string, i: int) {
    0 <= i && i + |pat| <= |s| && s[i..i + |pat|] == pat
  }

  /** `pat` occurs somewhere in `s` (Python's `pat in s`). */
  predicate Occurs(pat: string, s: string) {
    exists i :: 0 <= i <= |s| - |pat| && OccursAt(pat, s, i)
  }

  /** `a` is obtained from `b` by deleting some characters, keeping the order. */
  predicate IsSubsequence<T(==)>(a: seq<T>, b: seq<T>)
    decreases |b|
  {
    if b == [] then a == []
    else (a != [] && a[0] == b[0] && IsSubsequence(a[1..], b[1..])) || IsSubsequence(a, b[1..])
  }

  /** The empty sequence is a subsequence of anything. */
  lemma {:induction false} EmptyIsSubsequence<T>(b: seq<T>)
    ensures IsSubsequence([], b)
  {
    if b != [] {
      EmptyIsSubsequence(b[1..]);
    }
  }

  /** Every sequence is a subsequence of itself. */
  lemma {:induction false} SubsequenceReflexive<T>(b: seq<T>)
    ensures IsSubsequence(b, b)
  {
    if b != [] {
      SubsequenceReflexive(b[1..]);
    }
  }

  /** A subsequence is never longer than the sequence it is taken from. */
  lemma {:induction false} SubsequenceLength<T>(a: seq<T>, b: seq<T>)
    requires IsSubsequence(a, b)
    ensures |a| <= |b|
  {
    if b != [] {
      if a != [] && a[0] == b[0] && IsSubsequence(a[1..], b[1..]) {
        SubsequenceLength(a[1..], b[1..]);
      } else {
        SubsequenceLength(a, b[1..]);
      }
    }
  }

  /** Every element of a subsequence is an element of the sequence it is taken from. */
  lemma {:induction false} SubsequenceElements<T>(a: seq<T>, b: seq<T>, x: T)
    requires IsSubsequence(a, b) && x in a
    ensures x in b
  {
    if a[0] == b[0] && IsSubsequence(a[1..], b[1..]) {
      if x != a[0] {
        SubsequenceElements(a[1..], b[1..], x);
      }
    } else {
      SubsequenceElements(a, b[1..], x);
    }
  }

  /** A subsequence of a subsequence is a subsequence. */
  lemma {:induction false} SubsequenceTransitive<T>(a: seq<T>, b: seq<T>, c: seq<T>)
    requires IsSubsequence(a, b) && IsSubsequence(b, c)
    ensures IsSubsequence(a, c)
    decreases |c|
  {
    if c != [] {
      if b != [] && b[0] == c[0] && IsSubsequence(b[1..], c[1..]) {
        if a != [] && a[0] == b[0] && IsSubsequence(a[1..], b[1..]) {
          SubsequenceTransitive(a[1..], b[1..], c[1..]);
        } else {
          SubsequenceTransitive(a, b[1..], c[1..]);
        }
      } else {
        SubsequenceTransitive(a, b, c[1..]);
      }
    }
  }

  /** Subsequences of two pieces concatenate to a subsequence of the whole. */
  lemma {:induction false} SubsequenceConcat<T>(a1: seq<T>, b1: seq<T>, a2: seq<T>, b2: seq<T>)
    requires IsSubsequence(a1, b1) && IsSubsequence(a2, b2)
    ensures IsSubsequence(a1 + a2, b1 + b2)
    decreases |b1|
  {
    if b1 == [] {
      assert a1 + a2 == a2 && b1 + b2 == b2;
    } else {
      assert (b1 + b2)[1..] == b1[1..] + b2;
      if a1 != [] && a1[0] == b1[0] && IsSubsequence(a1[1..], b1[1..]) {
        SubsequenceConcat(a1[1..], b1[1..], a2, b2);
        assert (a1 + a2)[1..] == a1[1..] + a2;
      } else {
        SubsequenceConcat(a1, b1[1..], a2, b2);
      }
    }
  }

  /** The middle piece of a concatenation is a subsequence of it. */
  lemma InfixIsSubsequence<T>(t: seq<T>, u: seq<T>, v: seq<T>)
    ensures IsSubsequence(u, t + u + v)
  {
    EmptyIsSubsequence(t);
    SubsequenceReflexive(u);
    SubsequenceConcat([], t, u, u);
    assert [] + u == u;
    EmptyIsSubsequence(v);
    SubsequenceConcat(u, t + u, [], v);
    assert u + [] == u;
  }

  /** A contiguous slice is in particular a subsequence. */
  lemma SliceIsSubsequence<T>(s: seq<T>, i: int, j: int)
    requires 0 <= i <= j <= |s|
    ensures IsSubsequence(s[i..j], s)
  {
    InfixIsSubsequence(s[..i], s[i..j], s[j..]);
    assert s[..i] + s[i..j] + s[j..] == s;
  }

  /* ---------------------------------------------------------------------- */
  /* str.replace                                                            */
  /* ---------------------------------------------------------------------- */

  /**
   `s.replace(pat, rep)`: scan `s` from the left; wherever `pat` starts, emit
   `rep` and continue after the occurrence, otherwise emit the character and
   move on by one. Occurrences therefore never overlap, and text produced by
   `rep` is never scanned again.
   */
  function Replace(s: string, pat: string, rep: string): (r: string)
    requires |pat| > 0
    ensures |rep| <= |pat| ==> |r| <= |s|
    decreases |s|
  {
    if |s| < |pat| then s
    else if s[..|pat|] == pat then rep + Replace(s[|pat|..], pat, rep)
    else [s[0]] + Replace(s[1..], pat, rep)
  }

  /** One step of the scan, at a position where the pattern starts. */
  lemma ReplaceAtMatch(s: string, pat: string, rep: string)
    requires 0 < |pat| <= |s| && s[..|pat|] == pat
    ensures Replace(s, pat, rep) == rep + Replace(s[|pat|..], pat, rep)
  {
  }

  /** One step of the scan, at a position where the pattern does not start. */
  lemma ReplaceAtMiss(s: string, pat: string, rep: string)
    requires 0 < |pat| && s != [] && (|s| < |pat| || s[..|pat|] != pat)
    ensures Replace(s, pat, rep) == [s[0]] + Replace(s[1..], pat, rep)
  {
    if |s| < |pat| {
      assert |s[1..]| < |pat|;
      assert s == [s[0]] + s[1..];
    }
  }

  /**
   `sep.join(xs)`: the pieces with one `sep` between each neighbouring pair
   (the empty list joins to the empty string).
   */
  function Join(xs: seq<string>, sep: string): string
    decreases |xs|
  {
    if |xs| == 0 then []
    else if |xs| == 1 then xs[0]
    else xs[0] + sep + Join(xs[1..], sep)
  }

  /**
   `s.split(sep)` for a non-empty `sep`: the maximal pieces of `s` between
   non-overlapping occurrences of `sep`, found left to right. There is always
   at least one piece.
   */
  function SplitOn(s: string, sep: string): (r: seq<string>)
    requires |sep| > 0
    ensures |r| > 0
    decreases |s|
  {
    if |s| < |sep| then [s]
    else if s[..|sep|] == sep then [[]] + SplitOn(s[|sep|..], sep)
    else
      var rest := SplitOn(s[1..], sep);
      [[s[0]] + rest[0]] + rest[1..]
  }

  /** Joining a non-empty list of pieces after a first one puts one separator between them. */
  lemma JoinCons(x: string, xs: seq<string>, sep: string)
    requires |xs| > 0
    ensures Join([x] + xs, sep) == x + sep + Join(xs, sep)
  {
    assert ([x] + xs)[1..] == xs;
  }

  /** Joining three pieces. */
  lemma JoinThree(a: string, b: string, c: string, sep: string)
    ensures Join([a, b, c], sep) == a + sep + b + sep + c
  {
    JoinCons(b, [c], sep);
    assert [b] + [c] == [b, c];
    JoinCons(a, [b, c], sep);
    assert [a] + [b, c] == [a, b, c];
  }

  /** Joining six pieces puts one separator after each of the first five. */
  lemma JoinSix(a: string, b: string, c: string, d: string, e: string, f: string, sep: string)
    ensures Join([a, b, c, d, e, f], sep) == (a + sep) + (b + sep) + (c + sep) + (d + sep) + (e + sep) + f
  {
    JoinCons(e, [f], sep);
    assert [e] + [f] == [e, f];
    JoinCons(d, [e, f], sep);
    assert [d] + [e, f] == [d, e, f];
    JoinCons(c, [d, e, f], sep);
    assert [c] + [d, e, f] == [c, d, e, f];
    JoinCons(b, [c, d, e, f], sep);
    assert [b] + [c, d, e, f] == [b, c, d, e, f];
    JoinCons(a, [b, c, d, e, f], sep);
    assert [a] + [b, c, d, e, f] == [a, b, c, d, e, f];
  }

  /** Gluing a prefix onto the first piece of a join glues it onto the joined string. */
  lemma JoinGlue(c: string, xs: seq<string>, sep: string)
    requires |xs| > 0
    ensures Join([c + xs[0]] + xs[1..], sep) == c + Join(xs, sep)
  {
    if |xs| > 1 {
      JoinCons(c + xs[0], xs[1..], sep);
      JoinCons(xs[0], xs[1..], sep);
      assert xs == [xs[0]] + xs[1..];
    }
  }

  /** Replacing a pattern by itself changes nothing. */
  lemma {:induction false} ReplaceBySelf(s: string, pat: string)
    requires |pat| > 0
    ensures Replace(s, pat, pat) == s
    decreases |s|
  {
    if |s| >= |pat| {
      if s[..|pat|] == pat {
        ReplaceBySelf(s[|pat|..], pat);
        assert s == pat + s[|pat|..];
      } else {
        ReplaceBySelf(s[1..], pat);
        assert s == [s[0]] + s[1..];
      }
    }
  }

  /** Joining the pieces of a split with the same separator restores the string. */
  lemma JoinSplitOn(s: string, sep: string)
    requires |sep| > 0
    ensures Join(SplitOn(s, sep), sep) == s
  {
    ReplaceIsJoinOfSplit(s, sep, sep);
    ReplaceBySelf(s, sep);
  }

  /**
   Splitting a piece that cannot start a separator, followed by more text,
   glues that piece onto the first piece of the rest.
   */
  lemma {:induction false} SplitOnPrefix(x: string, t: string, sep: string)
    requires |sep| > 0 && sep[0] !in x
    ensures SplitOn(x + t, sep) == [x + SplitOn(t, sep)[0]] + SplitOn(t, sep)[1..]
    decreases |x|
  {
    if x == [] {
      assert x + t == t;
      assert x + SplitOn(t, sep)[0] == SplitOn(t, sep)[0];
      assert SplitOn(t, sep) == [SplitOn(t, sep)[0]] + SplitOn(t, sep)[1..];
    } else {
      assert (x + t)[1..] == x[1..] + t;
      SplitOnPrefix(x[1..], t, sep);
      if |x + t| >= |sep| {
        assert (x + t)[..|sep|][0] == x[0] != sep[0];
      } else {
        assert |t| < |sep|;
      }
      assert x + SplitOn(t, sep)[0] == [x[0]] + (x[1..] + SplitOn(t, sep)[0]);
    }
  }

  /** The first piece of a split is a prefix of the string. */
  lemma {:induction false} SplitOnFirstIsPrefix(s: string, sep: string)
    requires |sep| > 0
    ensures |SplitOn(s, sep)[0]| <= |s| && SplitOn(s, sep)[0] == s[..|SplitOn(s, sep)[0]|]
    decreases |s|
  {
    if |s| < |sep| {
    } else if s[..|sep|] == sep {
    } else {
      var rest := SplitOn(s[1..], sep);
      SplitOnFirstIsPrefix(s[1..], sep);
      assert s[..1 + |rest[0]|] == [s[0]] + s[1..][..|rest[0]|];
    }
  }

  /** No piece of a split contains the separator: every occurrence is cut at. */
  lemma {:induction false} PiecesHaveNoSep(s: string, sep: string)
    requires |sep| > 0
    ensures forall p :: p in SplitOn(s, sep) ==> !Occurs(sep, p)
    decreases |s|
  {
    var r := SplitOn(s, sep);
    if |s| < |sep| {
      assert r == [s];
    } else if s[..|sep|] == sep {
      PiecesHaveNoSep(s[|sep|..], sep);
      assert r == [[]] + SplitOn(s[|sep|..], sep);
    } else {
      var rest := SplitOn(s[1..], sep);
      PiecesHaveNoSep(s[1..], sep);
      SplitOnFirstIsPrefix(s[1..], sep);
      var first := [s[0]] + rest[0];
      assert r == [first] + rest[1..];
      forall i | 0 <= i <= |first| - |sep| ensures !OccursAt(sep, first, i) {
        if i == 0 {
          assert first[..|sep|] == s[..|sep|];
        } else {
          assert first[1..] == rest[0];
          assert first[i..i + |sep|] == first[1..][i - 1..i - 1 + |sep|];
          assert rest[0] in rest;
          assert !OccursAt(sep, rest[0], i - 1);
        }
      }
      forall p | p in r ensures !Occurs(sep, p) {
        if p != first {
          assert p in rest;
        }
      }
    }
  }

  /**
   Splitting a join gives back the pieces, provided there is at least one
   piece and no piece contains the separator's first character.
   */
  lemma {:induction false} SplitOnJoin(xs: seq<string>, sep: string)
    requires |sep| > 0 && |xs| > 0
    requires forall x :: x in xs ==> sep[0] !in x
    ensures SplitOn(Join(xs, sep), sep) == xs
    decreases |xs|
  {
    if |xs| == 1 {
      SplitOnPrefix(xs[0], [], sep);
      assert xs[0] + [] == xs[0];
    } else {
      var tail := Join(xs[1..], sep);
      assert forall x :: x in xs[1..] ==> x in xs;
      SplitOnJoin(xs[1..], sep);
      assert Join(xs, sep) == xs[0] + (sep + tail);
      SplitOnPrefix(xs[0], sep + tail, sep);
      assert (sep + tail)[..|sep|] == sep && (sep + tail)[|sep|..] == tail;
      assert SplitOn(sep + tail, sep) == [[]] + xs[1..];
      assert xs[0] + [] == xs[0];
      assert xs == [xs[0]] + xs[1..];
    }
  }

  /**
   An independent reference definition of `Replace`: cut `s` at every
   occurrence of `pat` (`PiecesHaveNoSep` says no occurrence is left inside a
   piece) and put `rep` between the pieces, as `rep.join(s.split(pat))` does.
   */
  lemma {:induction false} ReplaceIsJoinOfSplit(s: string, pat: string, rep: string)
    requires |pat| > 0
    ensures Replace(s, pat, rep) == Join(SplitOn(s, pat), rep)
    decreases |s|
  {
    if |s| < |pat| {
    } else if s[..|pat|] == pat {
      ReplaceIsJoinOfSplit(s[|pat|..], pat, rep);
      JoinCons([], SplitOn(s[|pat|..], pat), rep);
    } else {
      ReplaceIsJoinOfSplit(s[1..], pat, rep);
      JoinGlue([s[0]], SplitOn(s[1..], pat), rep);
    }
  }

  /** Replacing a pattern that does not occur changes nothing. */
  lemma {:induction false} ReplaceAbsent(s: string, pat: string, rep: string)
    requires |pat| > 0 && !Occurs(pat, s)
    ensures Replace(s, pat, rep) == s
    decreases |s|
  {
    if |s| >= |pat| {
      assert !OccursAt(pat, s, 0);
      forall i | OccursAt(pat, s[1..], i) ensures OccursAt(pat, s, i + 1) {
        assert s[1..][i..i + |pat|] == s[i + 1..i + 1 + |pat|];
      }
      ReplaceAbsent(s[1..], pat, rep);
      assert s == [s[0]] + s[1..];
    }
  }

  /**
   When the replacement is itself a subsequence of the pattern (in particular
   when it is shorter and only deletes), replacing only deletes characters.
   */
  lemma {:induction false} ReplaceIsSubsequence(s: string, pat: string, rep: string)
    requires |pat| > 0 && IsSubsequence(rep, pat)
    ensures IsSubsequence(Replace(s, pat, rep), s)
    decreases |s|
  {
    if |s| < |pat| {
      SubsequenceReflexive(s);
    } else if s[..|pat|] == pat {
      ReplaceIsSubsequence(s[|pat|..], pat, rep);
      SubsequenceConcat(rep, pat, Replace(s[|pat|..], pat, rep), s[|pat|..]);
      assert pat + s[|pat|..] == s;
    } else {
      ReplaceIsSubsequence(s[1..], pat, rep);
      SubsequenceReflexive([s[0]]);
      SubsequenceConcat([s[0]], [s[0]], Replace(s[1..], pat, rep), s[1..]);
      assert [s[0]] + s[1..] == s;
    }
  }

  /**
   A character that occurs as often in the replacement as in the pattern
   occurs as often after the replacement as before it.
   */
  lemma {:induction false} ReplaceKeepsCount(s: string, pat: string, rep: string, c: char)
    requires |pat| > 0 && multiset(rep)[c] == multiset(pat)[c]
    ensures multiset(Replace(s, pat, rep))[c] == multiset(s)[c]
    decreases |s|
  {
    if |s| < |pat| {
    } else if s[..|pat|] == pat {
      ReplaceKeepsCount(s[|pat|..], pat, rep, c);
      assert s == pat + s[|pat|..];
    } else {
      ReplaceKeepsCount(s[1..], pat, rep, c);
      assert s == [s[0]] + s[1..];
    }
  }

  /* ---------------------------------------------------------------------- */
  /* Deleting one character                                                 */
  /* ---------------------------------------------------------------------- */

  /** `s` with every occurrence of `c` deleted. */
  function Remove(s: string, c: char): string
    decreases |s|
  {
    if s == [] then []
    else if s[0] == c then Remove(s[1..], c)
    else [s[0]] + Remove(s[1..], c)
  }

  /** Deleting `c` leaves no `c` and keeps the count of every other character. */
  lemma {:induction false} RemoveCounts(s: string, c: char)
    ensures multiset(Remove(s, c))[c] == 0
    ensures forall d :: d != c ==> multiset(Remove(s, c))[d] == multiset(s)[d]
    decreases |s|
  {
    if s != [] {
      RemoveCounts(s[1..], c);
      assert s == [s[0]] + s[1..];
    }
  }

  /** One step of the deletion. */
  lemma RemoveCons(x: char, s: string, c: char)
    ensures Remove([x] + s, c) == (if x == c then [] else [x]) + Remove(s, c)
  {
    assert ([x] + s)[1..] == s;
  }

  /** Deleting a character keeps the order of the others. */
  lemma {:induction false} RemoveIsSubsequence(s: string, c: char)
    ensures IsSubsequence(Remove(s, c), s)
    decreases |s|
  {
    if s != [] {
      RemoveIsSubsequence(s[1..], c);
      if s[0] != c {
        assert ([s[0]] + Remove(s[1..], c))[1..] == Remove(s[1..], c);
      }
    }
  }

  /** `s.replace(c, "")` for a one-character `c` deletes every `c`. */
  lemma {:induction false} ReplaceCharByNothing(s: string, c: char)
    ensures Replace(s, [c], []) == Remove(s, c)
    decreases |s|
  {
    if s != [] {
      ReplaceCharByNothing(s[1..], c);
      assert s[..1] == [s[0]];
    }
  }

  /* ---------------------------------------------------------------------- */
  /* str.strip                                                              */
  /* ---------------------------------------------------------------------- */

  /**
   The characters Python's `str.isspace` accepts among the first 256 code
   points: tab, line feed, vertical tab, form feed, carriage return, the four
   information separators, space, next line and no-break space.
   */
  predicate IsSpace(c: char) {
    c == '\t' || c == '\n' || c == '\U{000B}' || c == '\U{000C}' || c == '\r'
    || c == '\U{001C}' || c == '\U{001D}' || c == '\U{001E}' || c == '\U{001F}'
    || c == ' ' || c == '\U{0085}' || c == '\U{00A0}'
  }

  /** Every character of `s` is whitespace. */
  predicate AllSpace(s: string) {
    forall k :: 0 <= k < |s| ==> IsSpace(s[k])
  }

  /** `s.lstrip()`: drops exactly the longest all-space prefix. */
  function StripLeft(s: string): (r: string)
    ensures |r| <= |s| && r == s[|s| - |r|..]
    ensures AllSpace(s[..|s| - |r|])
    ensures r == [] || !IsSpace(r[0])
    decreases |s|
  {
    if s != [] && IsSpace(s[0]) then
      var r := StripLeft(s[1..]);
      assert s[1..][|s| - 1 - |r|..] == s[|s| - |r|..];
      assert s[..|s| - |r|] == [s[0]] + s[1..][..|s| - 1 - |r|];
      r
    else s
  }

  /** `s.rstrip()`: drops exactly the longest all-space suffix. */
  function StripRight(s: string): (r: string)
    ensures |r| <= |s| && r == s[..|r|]
    ensures AllSpace(s[|r|..])
    ensures r == [] || !IsSpace(r[|r| - 1])
    decreases |s|
  {
    if s != [] && IsSpace(s[|s| - 1]) then
      var init := s[..|s| - 1];
      var r := StripRight(init);
      assert init[..|r|] == s[..|r|];
      assert s[|r|..] == init[|r|..] + [s[|s| - 1]];
      r
    else s
  }

  /** `s.strip()`: neither end of the result is whitespace. */
  function Strip(s: string): (r: string)
    ensures r == [] || (!IsSpace(r[0]) && !IsSpace(r[|r| - 1]))
  {
    var l := StripLeft(s);
    var r := StripRight(l);
    assert r != [] ==> r[0] == l[0];
    r
  }

  /**
   `Strip` cuts `s` at two points and throws away only whitespace: together
   with the ensures of `Strip`, this determines the result uniquely.
   */
  lemma StripIsSlice(s: string) returns (i: nat, j: nat)
    ensures i <= j <= |s| && Strip(s) == s[i..j]
    ensures AllSpace(s[..i]) && AllSpace(s[j..])
  {
    var l := StripLeft(s);
    var r := StripRight(l);
    i := |s| - |l|;
    j := i + |r|;
    assert l[|r|..] == s[j..];
  }

  /** Stripping twice is stripping once. */
  lemma StripIdempotent(s: string)
    ensures Strip(Strip(s)) == Strip(s)
  {
    StripUnchanged(Strip(s));
  }

  /** A string whose ends are not whitespace is left as it is. */
  lemma StripUnchanged(s: string)
    requires s == [] || (!IsSpace(s[0]) && !IsSpace(s[|s| - 1]))
    ensures Strip(s) == s
  {
  }

  /** Stripping only deletes characters. */
  lemma StripIsSubsequence(s: string)
    ensures IsSubsequence(Strip(s), s)
  {
    var i, j := StripIsSlice(s);
    SliceIsSubsequence(s, i, j);
  }
}
