/**
 * Worked examples: concrete branches, tags and commit messages run through
 * the model, including the places where the action's string handling gives
 * an answer a reader might not expect.
 */
module Scenarios {
  import opened Wrappers
  import opened Text
  import opened Refs
  import opened VersionTags
  import opened Classifier
  import opened Aliases
  import opened ReleaseEngine
  import opened TrunkEngine

  /** Release line 1.0 whose boundary, and newest tag, is `v1.0.2`. */
  const Line10 := ReleaseLine("1", "0", "v1.0.2", "v1.0.2")

  /** The names the examples on that line use. */
  lemma Line10Names()
    ensures PatchTagName(Line10, 3) == "v1.0.3" && PatchTagName(Line10, 4) == "v1.0.4"
    ensures LexLess(Line10.majorFloor, "v1.0.4") && LexLess(Line10.latestFloor, "v1.0.4")
    ensures MajorAlias(Line10.major) == "v1" && MinorAlias(Line10.major, Line10.minor) == "v1.0"
  {
    assert NatToString(3) == "3" && NatToString(4) == "4";
  }

  /** On that line a fix `a` then a commit `b` that is not a fix: one tag, `v1.0.3` at `a`. */
  lemma FirstFixExample(a: Commit, b: Commit)
    requires IsFix(a.message) && !IsFix(b.message)
    ensures FixFold(Line10, 2, [a, b]).patch == 3
    ensures FixFold(Line10, 2, [a, b]).intents == [CreateTag("v1.0.3", a)]
  {
    assert [a, b][..1] == [a] && [a][..0] == [];
    assert FixFold(Line10, 2, []) == PatchState(2, [], []);
    assert FixFold(Line10, 2, [a]) == FixStep(Line10, FixFold(Line10, 2, []), a);
    Line10Names();
  }

  /**
   * Release branch `release/1.0.x` whose boundary is `v1.0.2`, followed by a
   * fix `a`, a commit `b` that is not a fix, and a fix `c`: the tags
   * `v1.0.3` at `a` and `v1.0.4` at `c`, in that order, and `v1.0`, `v1`
   * and `latest` end at `c` when `v1.0.2` was the newest tag.
   */
  lemma ReleaseBranchExample(a: Commit, b: Commit, c: Commit)
    requires IsFix(a.message) && !IsFix(b.message) && IsFix(c.message)
    ensures var st := FixFold(Line10, 2, [a, b, c]);
      && st.intents == [CreateTag("v1.0.3", a), CreateTag("v1.0.4", c)]
      && LastWrite(st.writes, "v1.0") == Some(c)
      && LastWrite(st.writes, "v1") == Some(c)
      && LastWrite(st.writes, "latest") == Some(c)
  {
    var st1 := FixFold(Line10, 2, [a, b]);
    FirstFixExample(a, b);
    FixFoldSnoc(Line10, 2, [a, b], c);
    assert [a, b] + [c] == [a, b, c];
    FixStepAliases(Line10, st1, c);
    Line10Names();
  }

  /**
   * The guards compare names as strings: on line 1.9 with newest tag
   * `v1.9.9`, the fix tagged `v1.9.10` compares below it, so neither `v1`
   * nor `latest` moves, though 1.9.10 is the newer version.
   */
  lemma StringOrderExample()
    ensures var x := Commit("x", "fix: x");
      var st := FixFold(ReleaseLine("1", "9", "v1.9.9", "v1.9.9"), 9, [x]);
      && st.intents == [CreateTag("v1.9.10", x)]
      && LastWrite(st.writes, "v1.9") == Some(x)
      && LastWrite(st.writes, "v1") == None
      && LastWrite(st.writes, "latest") == None
  {
    var x := Commit("x", "fix: x");
    var line := ReleaseLine("1", "9", "v1.9.9", "v1.9.9");
    assert ToLower(x.message)[..3] == "fix";
    assert [x][..0] == [];
    assert FixFold(line, 9, [x]) == FixStep(line, PatchState(9, [], []), x);
    assert NatToString(10) == "10";
    assert PatchTagName(line, 10) == "v1.9.10";
    assert !LexLess("v1.9.9", "v1.9.10");
    assert MinorAlias("1", "9") == "v1.9";
    assert FixWrites(line, "v1.9.10", x) == [Write("v1.9", x)];
  }

  /** Trunk after `v2.1.0` with `feat: add thing`: tag `v2.2.0` and branch `release/2.2.x` at it, and `v2`, `v2.2`, `latest` move to it. */
  lemma FeatureExample()
    ensures var f := Commit("f", "feat: add thing");
      var st := TrunkFold(TrunkState(Cursor("2", 1), [], []), [f]);
      && st.cursor == Cursor("2", 2)
      && st.intents == [CreateTag("v2.2.0", f), CreateBranch("release/2.2.x", f)]
      && st.writes == [Write("v2", f), Write("v2.2", f), Write("latest", f)]
  {
    var f := Commit("f", "feat: add thing");
    var st0 := TrunkState(Cursor("2", 1), [], []);
    assert ToLower(f.message)[..4] == "feat";
    assert [f][..0] == [];
    assert TrunkFold(st0, [f]) == TrunkStep(st0, f);
    assert NatToString(2) == "2";
    assert VersionName("2", "2", "0") == "v2.2.0";
    assert ReleaseBranchName("2", "2") == "release/2.2.x";
    assert MinorAlias("2", "2") == "v2.2" && MajorAlias("2") == "v2";
  }

  /** `api!: remove old method` carries the short breaking marker and is not a feature. */
  lemma ShortMarkerExample()
    ensures ClassifyTrunk("api!: remove old method") == Breaking
  {
    var m := "api!: remove old method";
    assert ToLower(m)[..4] == "api!";
    assert m[..4] == ShortMarker("api", "");
    ShortBreakingComplete(m, "api", "");
  }

  /** The names a breaking change after major 2 uses. */
  lemma Major3Names()
    ensures NextMajor("2") == "3"
    ensures MajorAlias("3") == "v3" && MinorAlias("3", "0") == "v3.0"
    ensures VersionName("3", "0", "0") == "v3.0.0" && ReleaseBranchName("3", "0") == "release/3.0.x"
  {
    assert DigitsValue("2") == 2 && NatToString(3) == "3";
  }

  /**
   * Trunk at major 2 with a breaking commit `k`, such as
   * `api!: remove old method`: tags `v3`, `v3.0`, `v3.0.0` and branch
   * `release/3.0.x` at it, and only `latest` moves.
   */
  lemma ShortBreakingExample(k: Commit)
    requires ClassifyTrunk(k.message) == Breaking
    ensures var st := TrunkFold(TrunkState(Cursor("2", 1), [], []), [k]);
      && st.cursor == Cursor("3", 0)
      && st.intents == [CreateTag("v3", k), CreateTag("v3.0", k), CreateTag("v3.0.0", k), CreateBranch("release/3.0.x", k)]
      && st.writes == [Write("latest", k)]
  {
    var st0 := TrunkState(Cursor("2", 1), [], []);
    assert TrunkFold(st0, [k]) == TrunkStep(st0, k) by {
      assert [k][..0] == [];
    }
    Major3Names();
    assert TrunkStep(st0, k) == TrunkState(Cursor("3", 0), [] + BreakingIntents("3", k), [] + [Write(Latest, k)]);
  }

  /** The third separator of the version pattern is any code unit but a line terminator: `v1.2-3` is a version tag with parts 1, 2 and 3. */
  lemma LooseSeparatorExample()
    ensures IsVersionTag("v1.2-3") && ParseVersionTag("v1.2-3") == Captures("1", "2", "3")
  {
    var name := "v1.2-3";
    assert name == "v" + "1" + "." + "2" + ['-'] + "3";
    MatchVersionTagComplete(name, Captures("1", "2", "3"), '-');
  }

  /**
   * A digit can stand in for that separator: `v1.234` is a version tag too,
   * read as major 1, minor 2 and patch 4, with `3` as the separator.
   */
  lemma DigitSeparatorExample()
    ensures IsVersionTag("v1.234") && ParseVersionTag("v1.234") == Captures("1", "2", "4")
  {
    var name := "v1.234";
    DigitRunIsUnique(name, 1, 1);
    DigitRunIsUnique(name, 3, 3);
    assert name[1..2] == "1" && name[3..4] == "2" && name[5..] == "4";
  }

  /**
   * A separator beyond U+FFFF takes two UTF-16 code units, one more than the
   * pattern's `.` matches: `v1.2\U{1F600}3` is not a version tag.
   */
  lemma AstralSeparatorExample()
    ensures !IsVersionTag("v1.2\U{1F600}3")
  {
    var name := "v1.2\U{1F600}3";
    DigitRunIsUnique(name, 1, 1);
    DigitRunIsUnique(name, 3, 1);
  }
}
