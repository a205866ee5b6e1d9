/**
 The output sanitiser `clean_output` of the job-recommendation service: three
 plain substring replacements followed by `strip()`, applied to the text the
 completion service returns before it is handed back to the client.
 */
module Sanitizer {
  import opened Strings

  /** The three `str.replace` passes, in source order: drop `**`, drop `*`, turn `"  \n"` into `"\n"`. */
  function ReplacePasses(text: string): string {
    var noDoubleStars := Replace(text, "**", "");
    var noStars := Replace(noDoubleStars, "*", "");
    Replace(noStars, "  \n", "\n")
  }

  /**
   `clean_output(text)`: the replace passes, then `strip()`. The result is
   never longer than the input, neither of its ends is whitespace, and the
   empty text stays empty.
   */
  function CleanOutput(text: string): (r: string)
    ensures |r| <= |text|
    ensures r == [] || (!IsSpace(r[0]) && !IsSpace(r[|r| - 1]))
    ensures text == [] ==> r == []
  {
    Strip(ReplacePasses(text))
  }

  /** Deleting every `c` after deleting the pairs `cc` is deleting every `c`. */
  lemma {:induction false} RemoveAfterPairRemoval(s: string, c: char)
    ensures Remove(Replace(s, [c, c], []), c) == Remove(s, c)
    decreases |s|
  {
    if s == [] {
    } else if |s| >= 2 && s[..2] == [c, c] {
      ReplaceAtMatch(s, [c, c], []);
      assert Replace(s, [c, c], []) == Replace(s[2..], [c, c], []);
      RemoveAfterPairRemoval(s[2..], c);
      assert s == [c] + ([c] + s[2..]);
      RemoveCons(c, [c] + s[2..], c);
      RemoveCons(c, s[2..], c);
      assert Remove(s, c) == Remove(s[2..], c);
    } else {
      ReplaceAtMiss(s, [c, c], []);
      RemoveAfterPairRemoval(s[1..], c);
      RemoveCons(s[0], Replace(s[1..], [c, c], []), c);
      RemoveCons(s[0], s[1..], c);
      assert s == [s[0]] + s[1..];
    }
  }

  /**
   Deleting `**` and then `*` deletes exactly every `*`: the first pass is
   subsumed by the second.
   */
  lemma StarPassesDeleteEveryStar(s: string)
    ensures Replace(Replace(s, "**", ""), "*", "") == Remove(s, '*')
  {
    ReplaceCharByNothing(Replace(s, "**", ""), '*');
    RemoveAfterPairRemoval(s, '*');
  }

  /** A reference definition of the sanitiser with the star passes folded into one deletion. */
  lemma CleanOutputReference(s: string)
    ensures CleanOutput(s) == Strip(Replace(Remove(s, '*'), "  \n", "\n"))
  {
    StarPassesDeleteEveryStar(s);
  }

  /** The replacement of the third pass is a subsequence of its pattern. */
  lemma NewlineWithinPattern()
    ensures IsSubsequence("\n", "  \n")
  {
    SubsequenceReflexive("\n");
    EmptyIsSubsequence("  ");
    SubsequenceConcat([], "  ", "\n", "\n");
    assert "  " + "\n" == "  \n";
  }

  /** The third pass only deletes characters. */
  lemma JoinPassIsSubsequence(s: string)
    ensures IsSubsequence(Replace(s, "  \n", "\n"), s)
  {
    NewlineWithinPattern();
    ReplaceIsSubsequence(s, "  \n", "\n");
  }

  /** The replace passes only delete characters. */
  lemma ReplacePassesIsSubsequence(s: string)
    ensures IsSubsequence(ReplacePasses(s), s)
  {
    var noStars := Replace(Replace(s, "**", ""), "*", "");
    StarPassesDeleteEveryStar(s);
    RemoveIsSubsequence(s, '*');
    JoinPassIsSubsequence(noStars);
    SubsequenceTransitive(ReplacePasses(s), noStars, s);
  }

  /** The sanitiser only deletes characters, so it never makes the text longer. */
  lemma CleanOutputIsSubsequence(s: string)
    ensures IsSubsequence(CleanOutput(s), s)
    ensures |CleanOutput(s)| <= |s|
  {
    ReplacePassesIsSubsequence(s);
    StripIsSubsequence(ReplacePasses(s));
    SubsequenceTransitive(CleanOutput(s), ReplacePasses(s), s);
    SubsequenceLength(CleanOutput(s), s);
  }

  /** No `*` survives the sanitiser. */
  lemma CleanOutputHasNoStar(s: string)
    ensures '*' !in CleanOutput(s)
  {
    var noStars := Replace(Replace(s, "**", ""), "*", "");
    StarPassesDeleteEveryStar(s);
    RemoveCounts(s, '*');
    assert '*' !in noStars;
    JoinPassIsSubsequence(noStars);
    StripIsSubsequence(ReplacePasses(s));
    SubsequenceTransitive(CleanOutput(s), ReplacePasses(s), noStars);
    if '*' in CleanOutput(s) {
      SubsequenceElements(CleanOutput(s), noStars, '*');
    }
  }

  /** On text without `*` the two star passes change nothing. */
  lemma ReplaceAbsentStar(s: string)
    requires '*' !in s
    ensures Replace(Replace(s, "**", ""), "*", "") == s
  {
    StarFreeHasNoStars(s);
    ReplaceAbsent(s, "**", "");
    ReplaceAbsent(s, "*", "");
  }

  /** Text without `*` contains neither star pattern. */
  lemma StarFreeHasNoStars(s: string)
    requires '*' !in s
    ensures !Occurs("**", s) && !Occurs("*", s)
  {
    forall i | 0 <= i < |s| ensures !OccursAt("*", s, i) && !OccursAt("**", s, i) {
      assert s[i] != '*';
      if i + 1 <= |s| {
        assert s[i..i + 1][0] != "*"[0];
      }
      if i + 2 <= |s| {
        assert s[i..i + 2][0] != "**"[0];
      }
    }
  }

  /** Text with no `*` and no two-spaces-before-newline is only stripped. */
  lemma CleanOutputOfPlainText(s: string)
    requires '*' !in s && !Occurs("  \n", s)
    ensures CleanOutput(s) == Strip(s)
  {
    ReplaceAbsentStar(s);
    ReplaceAbsent(s, "  \n", "\n");
  }

  /** The replace passes keep every line break; only `strip()` can drop some, at the ends. */
  lemma ReplacePassesKeepLineBreaks(s: string)
    ensures multiset(ReplacePasses(s))['\n'] == multiset(s)['\n']
  {
    StarPassesDeleteEveryStar(s);
    RemoveCounts(s, '*');
    ReplaceKeepsCount(Remove(s, '*'), "  \n", "\n", '\n');
  }

  /**
   The sanitiser is not idempotent: one pass of the third replacement can
   leave a fresh two-spaces-before-newline behind it. With `a` and `b` any
   visible characters other than `*`, `a    \nb` cleans to `a  \nb`, which
   cleans again to `a\nb`.
   */
  lemma CleanOutputNotIdempotent(a: char, b: char)
    requires a != '*' && b != '*' && !IsSpace(a) && !IsSpace(b)
    ensures CleanOutput([a, ' ', ' ', ' ', ' ', '\n', b]) == [a, ' ', ' ', '\n', b]
    ensures CleanOutput([a, ' ', ' ', '\n', b]) == [a, '\n', b]
    ensures CleanOutput(CleanOutput([a, ' ', ' ', ' ', ' ', '\n', b])) != CleanOutput([a, ' ', ' ', ' ', ' ', '\n', b])
  {
    FirstCleaning(a, b);
    SecondCleaning(a, b);
    assert |[a, '\n', b]| != |[a, ' ', ' ', '\n', b]|;
  }

  /** The first cleaning of `a    \nb`. */
  lemma FirstCleaning(a: char, b: char)
    requires a != '*' && b != '*' && !IsSpace(a) && !IsSpace(b)
    ensures CleanOutput([a, ' ', ' ', ' ', ' ', '\n', b]) == [a, ' ', ' ', '\n', b]
  {
    var s := [a, ' ', ' ', ' ', ' ', '\n', b];
    var once := [a, ' ', ' ', '\n', b];
    assert forall k :: 0 <= k < |s| ==> s[k] != '*';
    ReplaceAbsentStar(s);
    FourSpacesPass(a, b);
    StripUnchanged(once);
  }

  /** The second cleaning, of `a  \nb`. */
  lemma SecondCleaning(a: char, b: char)
    requires a != '*' && b != '*' && !IsSpace(a) && !IsSpace(b)
    ensures CleanOutput([a, ' ', ' ', '\n', b]) == [a, '\n', b]
  {
    var s := [a, ' ', ' ', '\n', b];
    var twice := [a, '\n', b];
    assert forall k :: 0 <= k < |s| ==> s[k] != '*';
    ReplaceAbsentStar(s);
    TwoSpacesPass(a, b);
    StripUnchanged(twice);
  }

  /** The third pass on `a    \nb` matches once, at the third space. */
  lemma FourSpacesPass(a: char, b: char)
    ensures Replace([a, ' ', ' ', ' ', ' ', '\n', b], "  \n", "\n") == [a, ' ', ' ', '\n', b]
  {
    var s := [a, ' ', ' ', ' ', ' ', '\n', b];
    assert s[..3][2] != '\n' && s[1..][..3][2] != '\n' && s[2..][..3][2] != '\n' && s[3..][..3] == "  \n";
    ReplaceAtMiss(s, "  \n", "\n");
    ReplaceAtMiss(s[1..], "  \n", "\n");
    ReplaceAtMiss(s[2..], "  \n", "\n");
    ReplaceAtMatch(s[3..], "  \n", "\n");
    assert s[1..][1..] == s[2..] && s[2..][1..] == s[3..] && s[3..][3..] == [b];
  }

  /** The third pass on `a  \nb` matches once, at the first space. */
  lemma TwoSpacesPass(a: char, b: char)
    ensures Replace([a, ' ', ' ', '\n', b], "  \n", "\n") == [a, '\n', b]
  {
    var s := [a, ' ', ' ', '\n', b];
    assert s[..3][2] != '\n' && s[1..][..3] == "  \n";
    ReplaceAtMiss(s, "  \n", "\n");
    ReplaceAtMatch(s[1..], "  \n", "\n");
    assert s[1..][3..] == [b];
  }
}
