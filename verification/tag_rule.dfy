/**
 * The production image-tag rule: the anchored pattern `^[0-9]+\.[0-9]+(\.[0-9]+)?$`
 * as Python's `re.match` applies it.
 *
 * The pattern is modelled by splitting the tag on '.' and asking for two or three
 * groups of ASCII digits, none empty. `ReleaseTagChars` is an independent,
 * character-by-character reading of the same pattern, and `VersionTagIffChars`
 * proves the two agree. Python's `$` also matches just before a single final
 * newline, so `MatchesTagPattern` accepts a valid tag followed by one "\n".
 */
module TagRule {

  /** `[0-9]`: ASCII digits only, no other Unicode digits. */
  predicate IsDigit(c: char) {
    '0' <= c <= '9'
  }

  /** Every character of `s` is an ASCII digit (`s` may be empty). */
  predicate IsDigits(s: string) {
    forall i :: 0 <= i < |s| ==> IsDigit(s[i])
  }

  /** `[0-9]+`: one or more ASCII digits. */
  predicate IsNumber(s: string) {
    |s| > 0 && IsDigits(s)
  }

  /** The groups of `s` between the '.' separators, in order; "1..2" gives ["1", "", "2"]. */
  function Split(s: string): (groups: seq<string>)
    ensures |groups| > 0
    ensures forall k :: 0 <= k < |groups| ==> '.' !in groups[k]
  {
    if |s| == 0 then [""]
    else
      var rest := Split(s[1..]);
      if s[0] == '.' then [""] + rest
      else [[s[0]] + rest[0]] + rest[1..]
  }

  /** The groups put back together with '.' between neighbours. */
  function Join(groups: seq<string>): string
    requires |groups| > 0
  {
    if |groups| == 1 then groups[0]
    else groups[0] + "." + Join(groups[1..])
  }

  /** Splitting on '.' loses nothing: joining the groups gives the tag back. */
  lemma {:induction false} JoinSplit(s: string)
    ensures Join(Split(s)) == s
  {
    if |s| > 0 {
      var rest := Split(s[1..]);
      JoinSplit(s[1..]);
      if s[0] == '.' {
        assert Split(s)[1..] == rest;
      } else if |rest| == 1 {
        assert Join(Split(s)) == [s[0]] + rest[0];
      } else {
        assert Split(s)[1..] == rest[1..];
        assert Join(Split(s)) == [s[0]] + rest[0] + "." + Join(rest[1..]);
      }
    }
  }

  /** Splitting a dot-free prefix onto a string extends its first group. */
  lemma {:induction false} SplitDotFreePrefix(d: string, t: string)
    requires '.' !in d
    ensures Split(d + t) == [d + Split(t)[0]] + Split(t)[1..]
  {
    if |d| > 0 {
      assert (d + t)[1..] == d[1..] + t;
      SplitDotFreePrefix(d[1..], t);
      assert [d[0]] + (d[1..] + Split(t)[0]) == d + Split(t)[0];
    } else {
      assert d + t == t && d + Split(t)[0] == Split(t)[0];
      assert [Split(t)[0]] + Split(t)[1..] == Split(t);
    }
  }

  /** Joining dot-free groups and splitting again gives the same groups. */
  lemma {:induction false} SplitJoin(groups: seq<string>)
    requires |groups| > 0
    requires forall k :: 0 <= k < |groups| ==> '.' !in groups[k]
    ensures Split(Join(groups)) == groups
  {
    if |groups| == 1 {
      SplitDotFreePrefix(groups[0], "");
      assert groups[0] + "" == groups[0];
    } else {
      var tail := "." + Join(groups[1..]);
      SplitJoin(groups[1..]);
      assert tail[1..] == Join(groups[1..]);
      assert Split(tail) == [""] + groups[1..];
      assert Join(groups) == groups[0] + tail;
      SplitDotFreePrefix(groups[0], tail);
      assert groups[0] + "" == groups[0];
    }
  }

  /** The pattern without its end anchor's newline allowance: 2 or 3 dot-separated numbers. */
  predicate IsVersionTag(s: string) {
    var groups := Split(s);
    (|groups| == 2 || |groups| == 3) &&
    forall k :: 0 <= k < |groups| ==> IsNumber(groups[k])
  }

  /**
   * `VALID_IMAGE_TAG_PATTERN.match(s)` succeeds: `re.match` anchors at the start, and
   * `$` matches at the end of the string or just before a newline that ends it.
   */
  predicate MatchesTagPattern(s: string) {
    IsVersionTag(s) || (|s| > 0 && s[|s| - 1] == '\n' && IsVersionTag(s[..|s| - 1]))
  }

  // ---------------------------------------------------------------------------
  // A character-level reading of the pattern

  /** Number of '.' characters in `s`. */
  function Dots(s: string): nat {
    multiset(s)['.']
  }

  /** No '.' is followed directly by another '.'. */
  predicate NoAdjacentDots(s: string) {
    forall i :: 0 < i < |s| && s[i - 1] == '.' ==> s[i] != '.'
  }

  /** Every character is an ASCII digit or '.'. */
  predicate DigitsAndDots(s: string) {
    forall i :: 0 <= i < |s| ==> IsDigit(s[i]) || s[i] == '.'
  }

  /** Every group of the split is non-empty, stated on characters. */
  predicate NoEmptyGroup(s: string) {
    |s| > 0 && s[0] != '.' && s[|s| - 1] != '.' && NoAdjacentDots(s)
  }

  /**
   * Character-level definition: digits and dots only, starting and ending with a
   * digit, never two dots in a row, and exactly one or two dots.
   */
  predicate ReleaseTagChars(s: string) {
    DigitsAndDots(s) && NoEmptyGroup(s) && (Dots(s) == 1 || Dots(s) == 2)
  }

  lemma DotsCons(s: string)
    requires |s| > 0
    ensures Dots(s) == Dots(s[1..]) + (if s[0] == '.' then 1 else 0)
  {
    assert s == [s[0]] + s[1..];
    assert multiset(s) == multiset{s[0]} + multiset(s[1..]);
  }

  /** One more group than there are dots. */
  lemma {:induction false} SplitCount(s: string)
    ensures |Split(s)| == Dots(s) + 1
  {
    if |s| > 0 {
      SplitCount(s[1..]);
      DotsCons(s);
    }
  }

  /** Every group is a (possibly empty) digit string. */
  predicate AllDigitGroups(groups: seq<string>) {
    forall k :: 0 <= k < |groups| ==> IsDigits(groups[k])
  }

  lemma DigitsCons(c: char, g: string)
    ensures IsDigits([c] + g) <==> IsDigit(c) && IsDigits(g)
  {
    var cg := [c] + g;
    assert cg[0] == c;
    assert forall j :: 0 <= j < |g| ==> cg[j + 1] == g[j];
    assert forall i :: 1 <= i < |cg| ==> cg[i] == g[i - 1];
  }

  lemma DigitsAndDotsCons(s: string)
    requires |s| > 0
    ensures DigitsAndDots(s) <==> (IsDigit(s[0]) || s[0] == '.') && DigitsAndDots(s[1..])
  {
    assert forall i :: 0 <= i < |s| - 1 ==> s[1..][i] == s[i + 1];
  }

  lemma AllDigitGroupsCons(g: string, groups: seq<string>)
    ensures AllDigitGroups([g] + groups) <==> IsDigits(g) && AllDigitGroups(groups)
  {
    var all := [g] + groups;
    assert all[0] == g;
    assert forall k :: 0 <= k < |groups| ==> all[k + 1] == groups[k];
    assert forall k :: 1 <= k < |all| ==> all[k] == groups[k - 1];
  }

  /** All groups are digit strings exactly when all characters are digits or dots. */
  lemma {:induction false} SplitDigits(s: string)
    ensures AllDigitGroups(Split(s)) <==> DigitsAndDots(s)
  {
    if |s| > 0 {
      var t := s[1..];
      var rest := Split(t);
      SplitDigits(t);
      DigitsAndDotsCons(s);
      if s[0] == '.' {
        assert Split(s) == [""] + rest;
        AllDigitGroupsCons("", rest);
      } else {
        assert Split(s) == [[s[0]] + rest[0]] + rest[1..];
        assert rest == [rest[0]] + rest[1..];
        AllDigitGroupsCons([s[0]] + rest[0], rest[1..]);
        AllDigitGroupsCons(rest[0], rest[1..]);
        DigitsCons(s[0], rest[0]);
      }
    }
  }

  /** Whether a dot follows a dot, decided on the first two characters and the rest. */
  lemma NoAdjacentDotsCons(s: string)
    requires |s| > 0
    ensures NoAdjacentDots(s) <==>
            (|s| > 1 && s[0] == '.' ==> s[1] != '.') && NoAdjacentDots(s[1..])
  {
    var t := s[1..];
    if NoAdjacentDots(s) {
      forall i | 0 < i < |t| && t[i - 1] == '.' ensures t[i] != '.' {
        assert s[i] == t[i - 1] && s[i + 1] == t[i];
      }
    }
    if (|s| > 1 && s[0] == '.' ==> s[1] != '.') && NoAdjacentDots(t) {
      forall i | 0 < i < |s| && s[i - 1] == '.' ensures s[i] != '.' {
        if i > 1 {
          assert s[i - 1] == t[i - 2] && s[i] == t[i - 1];
        }
      }
    }
  }

  /** Every group from index `from` on is non-empty. */
  predicate NonEmptyFrom(groups: seq<string>, from: nat) {
    forall k :: from <= k < |groups| ==> |groups[k]| > 0
  }

  /** Every group is non-empty exactly when `NoEmptyGroup` holds. */
  lemma {:induction false} SplitNonEmpty(s: string)
    ensures NonEmptyFrom(Split(s), 0) <==> NoEmptyGroup(s)
    decreases |s|, 1
  {
    var groups := Split(s);
    if |s| == 0 {
      assert |groups[0]| == 0;
    } else {
      var t := s[1..];
      var rest := Split(t);
      if s[0] == '.' {
        assert groups == [""] + rest;
        assert |groups[0]| == 0;
      } else {
        SplitTailNonEmpty(t);
        NoAdjacentDotsCons(s);
        assert groups == [[s[0]] + rest[0]] + rest[1..];
        assert |groups[0]| > 0;
        assert forall k :: 1 <= k < |groups| ==> groups[k] == rest[k];
        assert NonEmptyFrom(groups, 0) <==> NonEmptyFrom(rest, 1);
        assert |t| > 0 ==> s[|s| - 1] == t[|t| - 1];
        assert |t| == 0 ==> NoAdjacentDots(s) && s[|s| - 1] == s[0];
      }
    }
  }

  /** Every group after the first is non-empty exactly when no dot ends `s` or follows a dot. */
  lemma {:induction false} SplitTailNonEmpty(s: string)
    ensures NonEmptyFrom(Split(s), 1) <==>
            (|s| == 0 || (s[|s| - 1] != '.' && NoAdjacentDots(s)))
    decreases |s|, 0
  {
    if |s| > 0 {
      var groups := Split(s);
      var t := s[1..];
      var rest := Split(t);
      NoAdjacentDotsCons(s);
      assert |t| > 0 ==> s[|s| - 1] == t[|t| - 1];
      if s[0] == '.' {
        SplitNonEmpty(t);
        assert groups == [""] + rest;
        assert forall k :: 0 <= k < |rest| ==> rest[k] == groups[k + 1];
        assert NonEmptyFrom(groups, 1) <==> NonEmptyFrom(rest, 0);
      } else {
        SplitTailNonEmpty(t);
        assert groups == [[s[0]] + rest[0]] + rest[1..];
        assert forall k :: 1 <= k < |groups| ==> groups[k] == rest[k];
        assert NonEmptyFrom(groups, 1) <==> NonEmptyFrom(rest, 1);
      }
    }
  }

  /** The split-based model of the pattern and the character-level reading agree on every string. */
  lemma VersionTagIffChars(s: string)
    ensures IsVersionTag(s) <==> ReleaseTagChars(s)
  {
    SplitCount(s);
    SplitDigits(s);
    SplitNonEmpty(s);
  }

  /**
   * What `re.match` accepts, in characters: a release tag, or a release tag
   * followed by exactly one newline.
   */
  lemma MatchesTagPatternIffChars(s: string)
    ensures MatchesTagPattern(s) <==>
            ReleaseTagChars(s) ||
            (|s| > 0 && s[|s| - 1] == '\n' && ReleaseTagChars(s[..|s| - 1]))
  {
    VersionTagIffChars(s);
    if |s| > 0 {
      VersionTagIffChars(s[..|s| - 1]);
    }
  }

  // ---------------------------------------------------------------------------
  // Accepted and rejected tags

  /** `2024.3`, the source comment's two-number example, is accepted. */
  lemma TwoNumberExampleAccepted()
    ensures MatchesTagPattern("2024.3")
  {
    var groups := ["2024", "3"];
    assert groups[1..] == ["3"];
    assert Join(groups) == "2024.3";
    SplitJoin(groups);
    assert IsNumber(groups[0]) && IsNumber(groups[1]);
  }

  /** `1.0.2`, the source comment's three-number example, is accepted. */
  lemma ThreeNumberExampleAccepted()
    ensures MatchesTagPattern("1.0.2")
  {
    var groups := ["1", "0", "2"];
    assert groups[1..] == ["0", "2"] && groups[1..][1..] == ["2"];
    assert Join(groups) == "1.0.2";
    SplitJoin(groups);
    assert IsNumber(groups[0]) && IsNumber(groups[1]) && IsNumber(groups[2]);
  }

  /** Python's `$` lets one final newline through: `1.2` followed by a newline is accepted. */
  lemma FinalNewlineAccepted()
    ensures MatchesTagPattern("1.2\n")
  {
    var groups := ["1", "2"];
    assert groups[1..] == ["2"];
    assert Join(groups) == "1.2";
    SplitJoin(groups);
    assert IsNumber(groups[0]) && IsNumber(groups[1]);
    assert "1.2\n"[..3] == "1.2";
  }

  /** A character other than a digit or '.' rejects the tag, unless it is the one final newline. */
  lemma NonDigitRejected(s: string, i: nat)
    requires i < |s| && !IsDigit(s[i]) && s[i] != '.'
    requires !(i == |s| - 1 && s[i] == '\n')
    ensures !MatchesTagPattern(s)
  {
    MatchesTagPatternIffChars(s);
    if |s| > 0 && s[|s| - 1] == '\n' {
      assert s[..|s| - 1][i] == s[i];
    }
  }

  /** A leading dot, a trailing dot or two dots in a row (an empty group) rejects the tag. */
  lemma EmptyGroupRejected(s: string, i: nat)
    requires i < |s|
    requires s[i] == '.'
    requires i == 0 || i == |s| - 1 || (i == |s| - 2 && s[|s| - 1] == '\n') || s[i - 1] == '.'
    ensures !MatchesTagPattern(s)
  {
    MatchesTagPatternIffChars(s);
    if |s| > 0 && s[|s| - 1] == '\n' {
      var t := s[..|s| - 1];
      assert i < |t| && t[i] == '.';
      assert i > 0 && i != |t| - 1 ==> t[i - 1] == '.';
    }
  }

  /** A tag with fewer than one or more than two dots is rejected. */
  lemma WrongDotCountRejected(s: string)
    requires Dots(s) != 1 && Dots(s) != 2
    ensures !MatchesTagPattern(s)
  {
    MatchesTagPatternIffChars(s);
    if |s| > 0 && s[|s| - 1] == '\n' {
      var t := s[..|s| - 1];
      assert s == t + "\n";
      assert multiset(s) == multiset(t) + multiset{'\n'};
    }
  }

  /** Tags with a letter, a suffix, surrounding spaces or a second newline are turned away. */
  lemma ForeignCharacterExamplesRejected()
    ensures !MatchesTagPattern("latest")
    ensures !MatchesTagPattern("1.2-rc1")
    ensures !MatchesTagPattern(" 1.2 ")
    ensures !MatchesTagPattern("1.2\n\n")
  {
    NonDigitRejected("latest", 0);
    NonDigitRejected("1.2-rc1", 3);
    NonDigitRejected(" 1.2 ", 0);
    NonDigitRejected("1.2\n\n", 3);
  }

  /** Tags with an empty group are turned away. */
  lemma EmptyGroupExamplesRejected()
    ensures !MatchesTagPattern("1..2")
    ensures !MatchesTagPattern(".1.2")
    ensures !MatchesTagPattern("1.2.")
    ensures !MatchesTagPattern("1.2.\n")
  {
    EmptyGroupRejected("1..2", 2);
    EmptyGroupRejected(".1.2", 0);
    EmptyGroupRejected("1.2.", 3);
    EmptyGroupRejected("1.2.\n", 3);
  }

  /** The empty tag, a single number and a four-number version are turned away. */
  lemma GroupCountExamplesRejected()
    ensures !MatchesTagPattern("")
    ensures !MatchesTagPattern("1")
    ensures !MatchesTagPattern("1.2.3.4")
  {
    SplitJoin(["1"]);
    SplitJoin(["1", "2", "3", "4"]);
    assert Join(["1", "2", "3", "4"]) == "1.2.3.4";
  }
}
