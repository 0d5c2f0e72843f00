/**
 * The three name patterns of the action and the parsing of version tags:
 * `RELEASE_BRANCH_REGEXP`, `VERSION_TAG_REGEXP` with `parseVersionTag`, and
 * the minor-zero filter `/^v\d+\.\d+\.0$/`. Each regular expression is
 * written out as a scan with the greedy, backtracking meaning JavaScript
 * gives it, and is proved equal to a plain description of the names it
 * accepts.
 */
module VersionTags {
  import opened Wrappers
  import opened Text

  /** The three capture groups of `VERSION_TAG_REGEXP`, still as text. */
  datatype Captures = Captures(major: string, minor: string, patch: string)

  /** The characters `.` does not match in a JavaScript regular expression without the `s` flag. */
  predicate IsLineTerminator(c: char)
  {
    c == '\n' || c == '\r' || c == '\U{2028}' || c == '\U{2029}'
  }

  /**
   * The characters an unescaped `.` matches in a JavaScript regular
   * expression without the `s` and `u` flags: one UTF-16 code unit that is
   * not a line terminator, so no character beyond U+FFFF, which takes two.
   */
  predicate MatchesDot(c: char)
  {
    !IsLineTerminator(c) && c < '\U{10000}'
  }

  /** `v<major>.<minor>.<patch>` as the action writes a version tag name. */
  function VersionName(major: string, minor: string, patch: string): string
  {
    "v" + major + "." + minor + "." + patch
  }

  /** A version name starts with `v<major>.<minor>`, and so with `v<major>`. */
  lemma VersionNamePrefixes(major: string, minor: string, patch: string)
    ensures StartsWith(VersionName(major, minor, patch), "v" + (major + "." + minor))
    ensures StartsWith(VersionName(major, minor, patch), "v" + major)
  {
    var name, group := VersionName(major, minor, patch), "v" + (major + "." + minor);
    assert StartsWith(name, group) by {
      assert name == group + ("." + patch);
      StartsWithConcat(group, "." + patch);
    }
    assert StartsWith(group, "v" + major) by {
      assert group == ("v" + major) + ("." + minor);
      StartsWithConcat("v" + major, "." + minor);
    }
    StartsWithTransitive(name, group, "v" + major);
  }

  /**
   * `name` reads `v<major>.<minor><sep><patch>` with digit runs for the three
   * parts: the names `/^v(\d+)\.(\d+).(\d+)$/` accepts, since its third
   * separator is an unescaped `.`, which matches any `sep` satisfying `MatchesDot`.
   */
  predicate SpellsVersion(name: string, c: Captures, sep: char)
  {
    && IsDigits(c.major) && IsDigits(c.minor) && IsDigits(c.patch)
    && MatchesDot(sep)
    && name == "v" + c.major + "." + c.minor + [sep] + c.patch
  }

  /**
   * `VERSION_TAG_REGEXP.exec(name)`: the captures, or None where the
   * expression does not match. The major digits must be followed by `.`.
   * When the rest is all digits, backtracking leaves the last digit to the
   * patch and the one before it to the separator; otherwise the minor
   * digits run up to the first non-digit, which is the separator.
   */
  function MatchVersionTag(name: string): Option<Captures>
  {
    if |name| == 0 || name[0] != 'v' then None
    else
      var a := DigitRun(name, 1);
      if a == 0 || a + 1 >= |name| || name[a + 1] != '.' then None
      else
        var b := DigitRun(name, a + 2);
        if a + 2 + b == |name| then
          if b >= 3 then Some(Captures(name[1..a + 1], name[a + 2..|name| - 2], name[|name| - 1..]))
          else None
        else if b > 0 && MatchesDot(name[a + 2 + b]) && a + 3 + b < |name|
                && DigitRun(name, a + 3 + b) == |name| - (a + 3 + b) then
          Some(Captures(name[1..a + 1], name[a + 2..a + 2 + b], name[a + 3 + b..]))
        else None
  }

  /** `VERSION_TAG_REGEXP.test(name)`. */
  predicate IsVersionTag(name: string)
  {
    MatchVersionTag(name).Some?
  }

  /** `parseVersionTag`: the three captured digit strings of a version tag. */
  function ParseVersionTag(name: string): (r: Captures)
    requires IsVersionTag(name)
    ensures IsDigits(r.major) && IsDigits(r.minor) && IsDigits(r.patch)
  {
    MatchVersionTagSound(name);
    MatchVersionTag(name).value
  }

  /** The separator character of a version tag name: the one before the patch digits. */
  function Separator(name: string): char
    requires IsVersionTag(name)
  {
    MatchVersionTagSound(name);
    name[|name| - |ParseVersionTag(name).patch| - 1]
  }

  /** A name cut at a `.` after position 0 and at a separator, with digits between the cuts, spells a version. */
  lemma SpellsFromCuts(name: string, i: nat, j: nat)
    requires 0 < i < j < |name| && name[0] == 'v' && name[i] == '.' && MatchesDot(name[j])
    requires IsDigits(name[1..i]) && IsDigits(name[i + 1..j]) && IsDigits(name[j + 1..])
    ensures SpellsVersion(name, Captures(name[1..i], name[i + 1..j], name[j + 1..]), name[j])
  {
    SplitAround(name, i, j);
    assert [name[0]] == "v" && [name[i]] == ".";
  }

  /** The all-digits reading spells a version whose separator is the next-to-last digit. */
  lemma SpellsAllDigits(name: string, a: nat)
    requires |name| > 0 && name[0] == 'v' && a == DigitRun(name, 1) && 0 < a && a + 1 < |name| && name[a + 1] == '.'
    requires DigitRun(name, a + 2) == |name| - (a + 2) >= 3
    ensures SpellsVersion(name, Captures(name[1..a + 1], name[a + 2..|name| - 2], name[|name| - 1..]), name[|name| - 2])
  {
    var j := |name| - 2;
    assert IsDigits(name[1..a + 1]) by {
      DigitsWithinRun(name, 1, 1, a + 1);
    }
    assert IsDigits(name[a + 2..j]) by {
      DigitsWithinRun(name, a + 2, a + 2, j);
    }
    assert IsDigits(name[j + 1..]) && IsDigit(name[j]) by {
      DigitsWithinRun(name, a + 2, j + 1, |name|);
      assert name[j + 1..|name|] == name[j + 1..];
    }
    SpellsFromCuts(name, a + 1, j);
  }

  /** The separated reading spells a version whose separator is the first non-digit after the minor. */
  lemma SpellsSeparated(name: string, a: nat, b: nat)
    requires |name| > 0 && name[0] == 'v' && a == DigitRun(name, 1) && 0 < a && a + 1 < |name| && name[a + 1] == '.'
    requires b == DigitRun(name, a + 2) && 0 < b && a + 3 + b < |name| && MatchesDot(name[a + 2 + b])
    requires DigitRun(name, a + 3 + b) == |name| - (a + 3 + b)
    ensures SpellsVersion(name, Captures(name[1..a + 1], name[a + 2..a + 2 + b], name[a + 3 + b..]), name[a + 2 + b])
  {
    var j := a + 2 + b;
    assert IsDigits(name[1..a + 1]) by {
      DigitsWithinRun(name, 1, 1, a + 1);
    }
    assert IsDigits(name[a + 2..j]) by {
      DigitsWithinRun(name, a + 2, a + 2, j);
    }
    assert IsDigits(name[j + 1..]) by {
      DigitsWithinRun(name, j + 1, j + 1, |name|);
      assert name[j + 1..|name|] == name[j + 1..];
    }
    SpellsFromCuts(name, a + 1, j);
  }

  /** Whatever the scan accepts is spelled as the pattern describes. */
  lemma MatchVersionTagSound(name: string)
    ensures MatchVersionTag(name).Some? ==>
      var c := MatchVersionTag(name).value;
      |c.patch| + 1 <= |name| && SpellsVersion(name, c, name[|name| - |c.patch| - 1])
  {
    if MatchVersionTag(name).Some? {
      var a := DigitRun(name, 1);
      assert 0 < |name| && name[0] == 'v' && 0 < a && a + 1 < |name| && name[a + 1] == '.';
      var b := DigitRun(name, a + 2);
      if a + 2 + b == |name| {
        SoundAllDigits(name, a);
      } else {
        assert b > 0 && MatchesDot(name[a + 2 + b]) && a + 3 + b < |name|;
        assert DigitRun(name, a + 3 + b) == |name| - (a + 3 + b);
        SoundSeparated(name, a, b);
      }
    }
  }

  /** Soundness of the scan when the part after the major is all digits. */
  lemma SoundAllDigits(name: string, a: nat)
    requires |name| > 0 && name[0] == 'v' && a == DigitRun(name, 1) && 0 < a && a + 1 < |name| && name[a + 1] == '.'
    requires DigitRun(name, a + 2) == |name| - (a + 2) >= 3
    ensures MatchVersionTag(name).Some?
    ensures var c := MatchVersionTag(name).value;
      |c.patch| + 1 <= |name| && SpellsVersion(name, c, name[|name| - |c.patch| - 1])
  {
    var c := Captures(name[1..a + 1], name[a + 2..|name| - 2], name[|name| - 1..]);
    MatchAllDigits(name, a);
    SpellsAllDigits(name, a);
    assert |name| - |c.patch| - 1 == |name| - 2;
  }

  /** Soundness of the scan when the minor digits stop at a separator. */
  lemma SoundSeparated(name: string, a: nat, b: nat)
    requires |name| > 0 && name[0] == 'v' && a == DigitRun(name, 1) && 0 < a && a + 1 < |name| && name[a + 1] == '.'
    requires b == DigitRun(name, a + 2) && 0 < b && a + 3 + b < |name| && MatchesDot(name[a + 2 + b])
    requires DigitRun(name, a + 3 + b) == |name| - (a + 3 + b)
    ensures MatchVersionTag(name).Some?
    ensures var c := MatchVersionTag(name).value;
      |c.patch| + 1 <= |name| && SpellsVersion(name, c, name[|name| - |c.patch| - 1])
  {
    var c := Captures(name[1..a + 1], name[a + 2..a + 2 + b], name[a + 3 + b..]);
    MatchSeparated(name, a, b);
    SpellsSeparated(name, a, b);
    assert |name| - |c.patch| - 1 == a + 2 + b;
  }

  /** The scan on a name whose minor digits stop at a non-digit separator. */
  lemma MatchSeparated(name: string, a: nat, b: nat)
    requires |name| > 0 && name[0] == 'v' && a == DigitRun(name, 1) && 0 < a && a + 1 < |name| && name[a + 1] == '.'
    requires b == DigitRun(name, a + 2) && 0 < b && a + 3 + b < |name| && MatchesDot(name[a + 2 + b])
    requires DigitRun(name, a + 3 + b) == |name| - (a + 3 + b)
    ensures MatchVersionTag(name) == Some(Captures(name[1..a + 1], name[a + 2..a + 2 + b], name[a + 3 + b..]))
  {
  }

  /** The scan on a name whose part after the major is all digits. */
  lemma MatchAllDigits(name: string, a: nat)
    requires |name| > 0 && name[0] == 'v' && a == DigitRun(name, 1) && 0 < a && a + 1 < |name| && name[a + 1] == '.'
    requires DigitRun(name, a + 2) == |name| - (a + 2) >= 3
    ensures MatchVersionTag(name) == Some(Captures(name[1..a + 1], name[a + 2..|name| - 2], name[|name| - 1..]))
  {
  }

  /** Where the parts of a spelled-out version sit in the name. */
  lemma SpellsVersionParts(name: string, c: Captures, sep: char)
    requires SpellsVersion(name, c, sep)
    ensures var m, n := |c.major|, |c.minor|;
      && |name| == m + n + |c.patch| + 3
      && name[0] == 'v' && name[m + 1] == '.' && name[m + n + 2] == sep
      && name[1..m + 1] == c.major && name[m + 2..m + n + 2] == c.minor && name[m + n + 3..] == c.patch
      && name[m + 2..] == c.minor + [sep] + c.patch
  {
    var m, n := |c.major|, |c.minor|;
    var head, tail := "v" + c.major + ".", c.minor + [sep] + c.patch;
    assert name == head + tail;
    assert name[..m + 2] == head && name[m + 2..] == tail;
    assert head[1..m + 1] == c.major;
    assert tail[..n] == c.minor && tail[n] == sep && tail[n + 1..] == c.patch;
  }

  /** A spelled-out version whose separator is a digit: the scan gives the minor everything up to the last two digits. */
  lemma CompleteAllDigits(name: string, c: Captures, sep: char)
    requires SpellsVersion(name, c, sep) && IsDigit(sep)
    ensures MatchVersionTag(name) == Some(Captures(c.major, name[|c.major| + 2..|name| - 2], name[|name| - 1..]))
    ensures |name[|c.major| + 2..|name| - 2]| >= |c.minor|
  {
    var m, n := |c.major|, |c.minor|;
    SpellsVersionParts(name, c, sep);
    DigitRunOfSlice(name, 1, c.major);
    var tail := c.minor + [sep] + c.patch;
    assert AllDigits(tail) by {
      forall i | 0 <= i < |tail|
        ensures IsDigit(tail[i])
      {
        if i < n {
          assert tail[i] == c.minor[i];
        } else if n < i {
          assert tail[i] == c.patch[i - n - 1];
        }
      }
    }
    DigitRunOfSlice(name, m + 2, tail);
    MatchAllDigits(name, m);
  }

  /** A spelled-out version whose separator is not a digit: the scan gives back exactly its parts. */
  lemma CompleteSeparated(name: string, c: Captures, sep: char)
    requires SpellsVersion(name, c, sep) && !IsDigit(sep)
    ensures MatchVersionTag(name) == Some(c)
  {
    var m, n := |c.major|, |c.minor|;
    SpellsVersionParts(name, c, sep);
    DigitRunOfSlice(name, 1, c.major);
    DigitRunOfSlice(name, m + 2, c.minor);
    DigitRunOfSlice(name, m + n + 3, c.patch);
    MatchSeparated(name, m, n);
  }

  /**
   * Every name the pattern describes is accepted, the major part is the one
   * given, the minor part is at least as long (the greedy choice), and it is
   * exactly the given split when the separator is not a digit.
   */
  lemma MatchVersionTagComplete(name: string, c: Captures, sep: char)
    requires SpellsVersion(name, c, sep)
    ensures MatchVersionTag(name).Some?
    ensures MatchVersionTag(name).value.major == c.major
    ensures |MatchVersionTag(name).value.minor| >= |c.minor|
    ensures !IsDigit(sep) ==> MatchVersionTag(name) == Some(c)
  {
    if IsDigit(sep) {
      CompleteAllDigits(name, c, sep);
    } else {
      CompleteSeparated(name, c, sep);
    }
  }

  /** A name the action writes for a version is read back with the same three parts. */
  lemma VersionNameParses(major: string, minor: string, patch: string)
    requires IsDigits(major) && IsDigits(minor) && IsDigits(patch)
    ensures IsVersionTag(VersionName(major, minor, patch))
    ensures ParseVersionTag(VersionName(major, minor, patch)) == Captures(major, minor, patch)
    ensures Separator(VersionName(major, minor, patch)) == '.'
  {
    var name := VersionName(major, minor, patch);
    assert name == "v" + major + "." + minor + ['.'] + patch;
    MatchVersionTagComplete(name, Captures(major, minor, patch), '.');
  }

  /**
   * `parseVersionTag` yields three digit strings, hence three non-negative
   * integers, and when the third separator is `.` writing them back as
   * `v{major}.{minor}.{patch}` gives the name itself.
   */
  lemma ParseFormatRoundTrip(name: string)
    requires IsVersionTag(name)
    ensures var c := ParseVersionTag(name);
      IsDigits(c.major) && IsDigits(c.minor) && IsDigits(c.patch)
    ensures Separator(name) == '.' ==>
      var c := ParseVersionTag(name);
      VersionName(c.major, c.minor, c.patch) == name
  {
    MatchVersionTagSound(name);
  }

  /**
   * With the numbers in place of the captured text: when the separator is
   * `.` and no part has a superfluous leading zero, printing the three
   * numbers reproduces the name.
   */
  lemma ParseNumbersRoundTrip(name: string)
    requires IsVersionTag(name) && Separator(name) == '.'
    requires var c := ParseVersionTag(name); IsCanonical(c.major) && IsCanonical(c.minor) && IsCanonical(c.patch)
    ensures var c := ParseVersionTag(name);
      VersionName(NatToString(DigitsValue(c.major)), NatToString(DigitsValue(c.minor)),
                  NatToString(DigitsValue(c.patch))) == name
  {
    var c := ParseVersionTag(name);
    ParseFormatRoundTrip(name);
    NatToStringOfValue(c.major);
    NatToStringOfValue(c.minor);
    NatToStringOfValue(c.patch);
  }

  /** A version tag name starts with `v` and its captured major digits. */
  lemma VersionTagStartsWithMajor(name: string)
    requires IsVersionTag(name)
    ensures StartsWith(name, "v" + ParseVersionTag(name).major)
  {
    MatchVersionTagSound(name);
    var c := ParseVersionTag(name);
    SpellsVersionParts(name, c, Separator(name));
    var m := |c.major|;
    assert name[..m + 1] == name[..1] + name[1..m + 1];
    assert name[..1] == "v";
  }

  /** `release/<major>.<minor>.x` as the action names a release branch. */
  function ReleaseBranchName(major: string, minor: string): string
  {
    "release/" + major + "." + minor + ".x"
  }

  /**
   * `RELEASE_BRANCH_REGEXP.exec(name).groups.version`: the `M.N` of a
   * `release/M.N.x` name, or None where the expression does not match.
   */
  function MatchReleaseBranch(name: string): Option<string>
  {
    if |name| < 8 || name[..8] != "release/" then None
    else
      var a := DigitRun(name, 8);
      if a == 0 || a + 8 >= |name| || name[a + 8] != '.' then None
      else
        var b := DigitRun(name, a + 9);
        if b > 0 && a + b + 11 == |name| && name[a + b + 9..] == ".x" then Some(name[8..a + b + 9])
        else None
  }

  /** Whatever matches is `release/<digits>.<digits>.x`, and the group is `<digits>.<digits>`. */
  lemma MatchReleaseBranchSound(name: string)
    ensures MatchReleaseBranch(name).Some? ==>
      var a := DigitRun(name, 8);
      var major, minor := name[8..8 + a], name[9 + a..|name| - 2];
      && IsDigits(major) && IsDigits(minor)
      && MatchReleaseBranch(name).value == major + "." + minor
      && name == ReleaseBranchName(major, minor)
  {
    if MatchReleaseBranch(name).Some? {
      var a := DigitRun(name, 8);
      ReleaseBranchParts(name, a, DigitRun(name, a + 9));
    }
  }

  lemma ReleaseBranchParts(name: string, a: nat, b: nat)
    requires 0 < a && 0 < b && a + b + 11 == |name|
    requires name[..8] == "release/" && name[a + 8] == '.' && name[a + b + 9..] == ".x"
    requires forall i :: 8 <= i < 8 + a ==> IsDigit(name[i])
    requires forall i :: 9 + a <= i < 9 + a + b ==> IsDigit(name[i])
    ensures IsDigits(name[8..8 + a]) && IsDigits(name[9 + a..|name| - 2])
    ensures name[8..|name| - 2] == name[8..8 + a] + "." + name[9 + a..|name| - 2]
    ensures name == ReleaseBranchName(name[8..8 + a], name[9 + a..|name| - 2])
  {
    var major, minor, v := name[8..8 + a], name[9 + a..|name| - 2], name[8..|name| - 2];
    assert forall i :: 0 <= i < |minor| ==> minor[i] == name[9 + a + i];
    assert v == major + "." + minor;
    assert name == name[..8] + v + name[|name| - 2..];
  }

  /** Every name `release/<digits>.<digits>.x` matches, with the group `<digits>.<digits>`. */
  lemma MatchReleaseBranchComplete(major: string, minor: string)
    requires IsDigits(major) && IsDigits(minor)
    ensures MatchReleaseBranch(ReleaseBranchName(major, minor)) == Some(major + "." + minor)
  {
    var name := ReleaseBranchName(major, minor);
    var m, n := |major|, |minor|;
    var group := major + "." + minor;
    assert name[..8] == "release/" && name[8..m + n + 9] == group && name[m + n + 9..] == ".x" by {
      assert name == "release/" + group + ".x";
    }
    assert name[8..8 + m] == major && name[8 + m] == '.' && name[m + 9..m + 9 + n] == minor by {
      assert group[..m] == major && group[m] == '.' && group[m + 1..] == minor;
    }
    DigitRunOfSlice(name, 8, major);
    DigitRunOfSlice(name, m + 9, minor);
    ReleaseBranchScan(name, m, n);
  }

  /** The scan on a name whose two digit runs are followed by `.` and by `.x` and the end. */
  lemma ReleaseBranchScan(name: string, a: nat, b: nat)
    requires |name| >= 8 && name[..8] == "release/" && a == DigitRun(name, 8) && 0 < a && a + 8 < |name| && name[a + 8] == '.'
    requires b == DigitRun(name, a + 9) && 0 < b && a + b + 11 == |name| && name[a + b + 9..] == ".x"
    ensures MatchReleaseBranch(name) == Some(name[8..a + b + 9])
  {
  }

  /** `/^v\d+\.\d+\.0$/.test(name)`: the tag of a minor release. */
  predicate IsMinorZeroTag(name: string)
  {
    && 0 < |name| && name[0] == 'v'
    && var a := DigitRun(name, 1);
    && a > 0 && a + 1 < |name| && name[a + 1] == '.'
    && var b := DigitRun(name, a + 2);
    && b > 0 && a + b + 4 == |name| && name[a + b + 2..] == ".0"
  }

  /** Every `v<digits>.<digits>.0` passes the minor-zero filter. */
  lemma MinorZeroTagOfName(major: string, minor: string)
    requires IsDigits(major) && IsDigits(minor)
    ensures IsMinorZeroTag(VersionName(major, minor, "0"))
  {
    var name := VersionName(major, minor, "0");
    var m, n := |major|, |minor|;
    assert forall i :: 0 <= i < m ==> name[1 + i] == major[i];
    assert name[m + 1] == '.';
    DigitRunIsUnique(name, 1, m);
    assert forall i :: 0 <= i < n ==> name[m + 2 + i] == minor[i];
    assert name[m + n + 2] == '.';
    DigitRunIsUnique(name, m + 2, n);
    assert name[m + n + 2..] == ".0";
  }

  /**
   * A minor-zero tag is a version tag whose separator is `.` and whose
   * captured patch is `0`; and every such version tag is a minor-zero tag.
   */
  lemma MinorZeroTagExact(name: string)
    ensures IsMinorZeroTag(name) <==>
      IsVersionTag(name) && Separator(name) == '.' && ParseVersionTag(name).patch == "0"
  {
    if IsMinorZeroTag(name) {
      var a := DigitRun(name, 1);
      var b := DigitRun(name, a + 2);
      SplitAround(name, a + 1, a + b + 2);
      var c := Captures(name[1..a + 1], name[a + 2..a + b + 2], "0");
      assert name[a + b + 3..] == "0";
      assert name == "v" + c.major + "." + c.minor + ['.'] + c.patch;
      MatchVersionTagComplete(name, c, '.');
    }
    if IsVersionTag(name) && Separator(name) == '.' && ParseVersionTag(name).patch == "0" {
      var c := ParseVersionTag(name);
      ParseFormatRoundTrip(name);
      MinorZeroTagOfName(c.major, c.minor);
    }
  }
}
