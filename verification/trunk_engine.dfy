/**
 * The loop over trunk's new commits: a `feat` commit opens the next minor
 * release (its `.0` tag and its `release/M.N.x` branch), a breaking change
 * opens the next major release, and both move the `latest` alias. The loop
 * is a method specified by a fold over the commits; the lemmas below say
 * what the fold does to the version and to the refs it asks for.
 */
module TrunkEngine {
  import opened Wrappers
  import opened Text
  import opened Refs
  import opened VersionTags
  import opened Classifier
  import opened Aliases

  /**
   * The loop's `let [major, minor]`. The major stays the captured digit
   * text (it is printed as captured, leading zeros and all) until the first
   * breaking change turns it into a number; the minor is only ever printed
   * after `++minor` or `minor = 0`, so it is kept as a number from the start.
   */
  datatype Cursor = Cursor(major: string, minor: nat)

  /** The loop's state: the cursor, the refs created so far and the alias writes, in order. */
  datatype TrunkState = TrunkState(cursor: Cursor, intents: seq<Intent>, writes: seq<Write>)

  /** `++major`: the next number after the major's digits, printed in decimal. */
  function NextMajor(major: string): (r: string)
    requires IsDigits(major)
    ensures IsCanonical(r)
    ensures DigitsValue(r) == DigitsValue(major) + 1
  {
    NatToString(DigitsValue(major) + 1)
  }

  /** The refs a feature commit `c` creates for minor `minor` of `major`: its `.0` tag, then its release branch. */
  function FeatureIntents(major: string, minor: string, c: Commit): seq<Intent>
  {
    [CreateTag(VersionName(major, minor, "0"), c), CreateBranch(ReleaseBranchName(major, minor), c)]
  }

  /**
   * The refs a breaking commit `c` creates for the new major `major`: the
   * tags `v<major>`, `v<major>.0` and `v<major>.0.0`, then the branch
   * `release/<major>.0.x`.
   */
  function BreakingIntents(major: string, c: Commit): seq<Intent>
  {
    [CreateTag(MajorAlias(major), c), CreateTag(MinorAlias(major, "0"), c), CreateTag(VersionName(major, "0", "0"), c),
     CreateBranch(ReleaseBranchName(major, "0"), c)]
  }

  /** One commit of the trunk loop. */
  function TrunkStep(st: TrunkState, c: Commit): (r: TrunkState)
    requires IsDigits(st.cursor.major)
    ensures IsDigits(r.cursor.major)
    ensures ClassifyTrunk(c.message) == Other ==> r == st
  {
    match ClassifyTrunk(c.message)
    case Feature =>
      var major, minor := st.cursor.major, st.cursor.minor + 1;
      var m := NatToString(minor);
      TrunkState(Cursor(major, minor), st.intents + FeatureIntents(major, m, c),
                 st.writes + [Write(MajorAlias(major), c), Write(MinorAlias(major, m), c), Write(Latest, c)])
    case Breaking =>
      var major := NextMajor(st.cursor.major);
      TrunkState(Cursor(major, 0), st.intents + BreakingIntents(major, c), st.writes + [Write(Latest, c)])
    case Other => st
  }

  /** The trunk loop over `commits`, oldest first, from state `st0`. */
  function TrunkFold(st0: TrunkState, commits: seq<Commit>): (r: TrunkState)
    requires IsDigits(st0.cursor.major)
    ensures IsDigits(r.cursor.major)
    decreases |commits|
  {
    if |commits| == 0 then st0
    else TrunkStep(TrunkFold(st0, commits[..|commits| - 1]), commits[|commits| - 1])
  }

  /**
   * A feature commit `c` opens the next minor of the same major: the minor
   * rises by one, the two refs created are the `.0` tag that parses back to
   * the new major and minor and the release branch whose version group is
   * that major and minor, both at `c`, and the aliases `v<major>`,
   * `v<major>.<minor>` and `latest` now end with `c` while every other alias
   * keeps its last write.
   */
  lemma FeatureStep(st: TrunkState, c: Commit)
    requires IsDigits(st.cursor.major) && ClassifyTrunk(c.message) == Feature
    ensures TrunkStep(st, c).cursor == Cursor(st.cursor.major, st.cursor.minor + 1)
    ensures var r, m := TrunkStep(st, c), NatToString(st.cursor.minor + 1);
      && |r.intents| == |st.intents| + 2 && r.intents[..|st.intents|] == st.intents
      && r.intents[|st.intents|].CreateTag? && r.intents[|st.intents|].at == c
      && IsMinorZeroTag(r.intents[|st.intents|].name)
      && ParseVersionTag(r.intents[|st.intents|].name) == Captures(st.cursor.major, m, "0")
      && r.intents[|st.intents| + 1].CreateBranch? && r.intents[|st.intents| + 1].at == c
      && MatchReleaseBranch(r.intents[|st.intents| + 1].name) == Some(st.cursor.major + "." + m)
    ensures var r, m := TrunkStep(st, c), NatToString(st.cursor.minor + 1);
      forall key :: LastWrite(r.writes, key) ==
        if key in {MajorAlias(st.cursor.major), MinorAlias(st.cursor.major, m), Latest} then Some(c) else LastWrite(st.writes, key)
  {
    var major, m := st.cursor.major, NatToString(st.cursor.minor + 1);
    ReleasePair(major, m);
    var ws := [Write(MajorAlias(major), c), Write(MinorAlias(major, m), c), Write(Latest, c)];
    forall key ensures LastWrite(st.writes + ws, key) ==
      if key in {MajorAlias(major), MinorAlias(major, m), Latest} then Some(c) else LastWrite(st.writes, key)
    {
      LastWriteAppend(st.writes, ws, key);
      var w1, w2 := [Write(MajorAlias(major), c)], [Write(MajorAlias(major), c), Write(MinorAlias(major, m), c)];
      assert ws[..2] == w2 && w2[..1] == w1 && w1[..0] == [];
      assert LastWrite(w1, key) == if key == MajorAlias(major) then Some(c) else None;
      assert LastWrite(w2, key) == if key == MajorAlias(major) || key == MinorAlias(major, m) then Some(c) else None;
      assert LastWrite(ws, key) == if key in {MajorAlias(major), MinorAlias(major, m), Latest} then Some(c) else None;
    }
  }

  /**
   * A breaking commit `c` opens the next major: the major's number rises by
   * one and the minor drops to zero, the refs created are the tags
   * `v<major>`, `v<major>.0`, a `.0.0` tag that parses back to the new major,
   * and the release branch `release/<major>.0.x`, all at `c`, and of the
   * aliases only `latest` moves.
   */
  lemma BreakingStep(st: TrunkState, c: Commit)
    requires IsDigits(st.cursor.major) && ClassifyTrunk(c.message) == Breaking
    ensures DigitsValue(TrunkStep(st, c).cursor.major) == DigitsValue(st.cursor.major) + 1
    ensures TrunkStep(st, c).cursor.minor == 0
    ensures var r, major := TrunkStep(st, c), TrunkStep(st, c).cursor.major;
      && r.intents == st.intents + [CreateTag("v" + major, c), CreateTag("v" + major + ".0", c),
                                    CreateTag(VersionName(major, "0", "0"), c), CreateBranch(ReleaseBranchName(major, "0"), c)]
      && IsMinorZeroTag(VersionName(major, "0", "0"))
      && ParseVersionTag(VersionName(major, "0", "0")) == Captures(major, "0", "0")
      && MatchReleaseBranch(ReleaseBranchName(major, "0")) == Some(major + ".0")
    ensures forall key :: LastWrite(TrunkStep(st, c).writes, key) == if key == Latest then Some(c) else LastWrite(st.writes, key)
  {
    var major := NextMajor(st.cursor.major);
    ReleasePair(major, "0");
    assert MinorAlias(major, "0") == "v" + major + ".0";
    assert major + "." + "0" == major + ".0";
    forall key ensures LastWrite(st.writes + [Write(Latest, c)], key) == if key == Latest then Some(c) else LastWrite(st.writes, key)
    {
      assert (st.writes + [Write(Latest, c)])[..|st.writes|] == st.writes;
    }
  }

  /** The number of trunk commits of the given kind. */
  function Count(commits: seq<Commit>, kind: TrunkKind): nat
    decreases |commits|
  {
    if |commits| == 0 then 0
    else Count(commits[..|commits| - 1], kind) + if ClassifyTrunk(commits[|commits| - 1].message) == kind then 1 else 0
  }

  /** The last commit that is a feature or a breaking change, if any. */
  function LastRelease(commits: seq<Commit>): Option<Commit>
    decreases |commits|
  {
    if |commits| == 0 then None
    else if ClassifyTrunk(commits[|commits| - 1].message) != Other then Some(commits[|commits| - 1])
    else LastRelease(commits[..|commits| - 1])
  }

  /** Processing two runs of commits one after the other is processing them together. */
  lemma {:induction false} TrunkFoldAppend(st0: TrunkState, a: seq<Commit>, b: seq<Commit>)
    requires IsDigits(st0.cursor.major)
    ensures TrunkFold(st0, a + b) == TrunkFold(TrunkFold(st0, a), b)
    decreases |b|
  {
    if |b| == 0 {
      assert a + b == a;
    } else {
      assert (a + b)[..|a + b| - 1] == a + b[..|b| - 1];
      TrunkFoldAppend(st0, a, b[..|b| - 1]);
    }
  }

  /**
   * Every breaking change raises the major by one; without a breaking change
   * the major text is untouched and the minor rises by one per feature.
   */
  lemma {:induction false} TrunkFoldVersion(st0: TrunkState, commits: seq<Commit>)
    requires IsDigits(st0.cursor.major)
    ensures DigitsValue(TrunkFold(st0, commits).cursor.major) == DigitsValue(st0.cursor.major) + Count(commits, Breaking)
    ensures Count(commits, Breaking) == 0 ==>
      TrunkFold(st0, commits).cursor == Cursor(st0.cursor.major, st0.cursor.minor + Count(commits, Feature))
    decreases |commits|
  {
    if |commits| > 0 {
      TrunkFoldVersion(st0, commits[..|commits| - 1]);
    }
  }

  /**
   * After a breaking commit `b`, the minor counts only the features that
   * follow it (when no later breaking change resets it again), and the
   * major is the start major plus the breaking changes up to and including `b`.
   */
  lemma BreakingResetsMinor(st0: TrunkState, before: seq<Commit>, b: Commit, after: seq<Commit>)
    requires IsDigits(st0.cursor.major)
    requires ClassifyTrunk(b.message) == Breaking && Count(after, Breaking) == 0
    ensures TrunkFold(st0, before + [b] + after).cursor.minor == Count(after, Feature)
    ensures DigitsValue(TrunkFold(st0, before + [b] + after).cursor.major) ==
      DigitsValue(st0.cursor.major) + Count(before, Breaking) + 1
  {
    var mid := TrunkFold(st0, before + [b]);
    assert (before + [b])[..|before|] == before;
    TrunkFoldAppend(st0, before + [b], after);
    TrunkFoldVersion(st0, before);
    TrunkFoldVersion(mid, after);
  }

  /** `(major, minor)` read as numbers, in version order. */
  predicate VersionBelow(a: Cursor, b: Cursor)
    requires AllDigits(a.major) && AllDigits(b.major)
  {
    DigitsValue(a.major) < DigitsValue(b.major) || (DigitsValue(a.major) == DigitsValue(b.major) && a.minor < b.minor)
  }

  /**
   * Versions only go up: after at least one feature or breaking change the
   * cursor is strictly above where it started, as a pair of numbers.
   */
  lemma {:induction false} TrunkFoldAdvances(st0: TrunkState, commits: seq<Commit>)
    requires IsDigits(st0.cursor.major)
    ensures LastRelease(commits).Some? ==> VersionBelow(st0.cursor, TrunkFold(st0, commits).cursor)
    ensures LastRelease(commits).None? ==> TrunkFold(st0, commits) == st0
    decreases |commits|
  {
    if |commits| > 0 {
      TrunkFoldAdvances(st0, commits[..|commits| - 1]);
      var prev := TrunkFold(st0, commits[..|commits| - 1]);
      if ClassifyTrunk(commits[|commits| - 1].message) == Feature {
        assert prev.cursor.major == TrunkFold(st0, commits).cursor.major;
      }
    }
  }

  /**
   * The `.0` tag and the release branch a step creates fit together: the tag
   * passes the minor-zero filter and parses back to the cursor's text, the
   * branch passes the release-branch filter with group `<major>.<minor>`, and
   * the tag starts with `v` and that group, which is how the next run finds
   * it as the branch's boundary tag.
   */
  lemma ReleasePair(major: string, minor: string)
    requires IsDigits(major) && IsDigits(minor)
    ensures IsMinorZeroTag(VersionName(major, minor, "0"))
    ensures IsVersionTag(VersionName(major, minor, "0"))
    ensures ParseVersionTag(VersionName(major, minor, "0")) == Captures(major, minor, "0")
    ensures MatchReleaseBranch(ReleaseBranchName(major, minor)) == Some(major + "." + minor)
    ensures VersionName(major, minor, "0") == "v" + (major + "." + minor) + ".0"
  {
    MinorZeroTagOfName(major, minor);
    VersionNameParses(major, minor, "0");
    MatchReleaseBranchComplete(major, minor);
  }

  /**
   * `t` is the tag created with release branch `b`: both at the same commit,
   * `t` a minor-zero tag named `v` plus the branch's version group plus `.0`.
   */
  predicate CreatedWith(t: Intent, b: Intent)
  {
    && t.CreateTag? && b.CreateBranch? && t.at == b.at
    && MatchReleaseBranch(b.name).Some?
    && t.name == "v" + MatchReleaseBranch(b.name).value + ".0"
    && IsMinorZeroTag(t.name)
  }

  /** Every branch creation comes right after the creation of its boundary tag. */
  predicate BranchesPaired(intents: seq<Intent>)
  {
    forall i :: 0 <= i < |intents| && intents[i].CreateBranch? ==> 0 < i && CreatedWith(intents[i - 1], intents[i])
  }

  lemma BranchesPairedAppend(intents: seq<Intent>, block: seq<Intent>)
    requires BranchesPaired(intents) && BranchesPaired(block)
    requires |block| > 0 ==> !block[0].CreateBranch?
    ensures BranchesPaired(intents + block)
  {
    var all := intents + block;
    forall i | 0 <= i < |all| && all[i].CreateBranch?
      ensures 0 < i && CreatedWith(all[i - 1], all[i])
    {
      if i < |intents| {
        assert all[i] == intents[i] && all[i - 1] == intents[i - 1];
      } else {
        assert all[i] == block[i - |intents|];
        assert all[i - 1] == block[i - |intents| - 1];
      }
    }
  }

  lemma FeatureIntentsPaired(major: string, minor: string, c: Commit)
    requires IsDigits(major) && IsDigits(minor)
    ensures BranchesPaired(FeatureIntents(major, minor, c))
  {
    ReleasePair(major, minor);
    var block := FeatureIntents(major, minor, c);
    assert CreatedWith(block[0], block[1]);
  }

  lemma BreakingIntentsPaired(major: string, c: Commit)
    requires IsDigits(major)
    ensures BranchesPaired(BreakingIntents(major, c))
  {
    ReleasePair(major, "0");
    var block := BreakingIntents(major, c);
    assert block[2].name == "v" + (major + "." + "0") + ".0";
    assert CreatedWith(block[2], block[3]);
  }

  /**
   * Every release branch the trunk loop creates is created right after the
   * `.0` tag its version group names, at the same commit, so a later run
   * finds that tag as the new branch's boundary.
   */
  lemma {:induction false} TrunkFoldBranchesPaired(st0: TrunkState, commits: seq<Commit>)
    requires IsDigits(st0.cursor.major) && BranchesPaired(st0.intents)
    ensures BranchesPaired(TrunkFold(st0, commits).intents)
    decreases |commits|
  {
    if |commits| > 0 {
      var prev, c := TrunkFold(st0, commits[..|commits| - 1]), commits[|commits| - 1];
      TrunkFoldBranchesPaired(st0, commits[..|commits| - 1]);
      var kind := ClassifyTrunk(c.message);
      if kind == Feature {
        var major, m := prev.cursor.major, NatToString(prev.cursor.minor + 1);
        FeatureIntentsPaired(major, m, c);
        BranchesPairedAppend(prev.intents, FeatureIntents(major, m, c));
      } else if kind == Breaking {
        var major := NextMajor(prev.cursor.major);
        BreakingIntentsPaired(major, c);
        BranchesPairedAppend(prev.intents, BreakingIntents(major, c));
      }
    }
  }

  /** The trunk loop only creates refs; moving aliases is left to the flush. */
  lemma {:induction false} TrunkFoldCreatesOnly(st0: TrunkState, commits: seq<Commit>)
    requires IsDigits(st0.cursor.major) && CreatesOnly(st0.intents)
    ensures CreatesOnly(TrunkFold(st0, commits).intents)
    decreases |commits|
  {
    if |commits| > 0 {
      var prev, c := TrunkFold(st0, commits[..|commits| - 1]), commits[|commits| - 1];
      TrunkFoldCreatesOnly(st0, commits[..|commits| - 1]);
      var kind := ClassifyTrunk(c.message);
      if kind == Feature {
        var major, m := prev.cursor.major, NatToString(prev.cursor.minor + 1);
        CreatesOnlyAppend(prev.intents, FeatureIntents(major, m, c));
      } else if kind == Breaking {
        CreatesOnlyAppend(prev.intents, BreakingIntents(NextMajor(prev.cursor.major), c));
      }
    }
  }

  /**
   * `latest` ends up written with the last feature or breaking commit; when
   * there is none, the loop leaves `latest` as it was.
   */
  lemma {:induction false} TrunkFoldLatest(st0: TrunkState, commits: seq<Commit>)
    requires IsDigits(st0.cursor.major)
    ensures LastWrite(TrunkFold(st0, commits).writes, Latest) ==
      if LastRelease(commits).Some? then LastRelease(commits) else LastWrite(st0.writes, Latest)
    decreases |commits|
  {
    if |commits| > 0 {
      var prev, c := TrunkFold(st0, commits[..|commits| - 1]), commits[|commits| - 1];
      TrunkFoldLatest(st0, commits[..|commits| - 1]);
      var st := TrunkFold(st0, commits);
      if ClassifyTrunk(c.message) != Other {
        assert st.writes[|st.writes| - 1] == Write(Latest, c);
      }
    }
  }

  /**
   * The trunk loop, with `shortTagToCommit` as an accumulator: it creates
   * the refs the fold describes and leaves the map as the fold's writes
   * leave it.
   */
  method TrunkCommits(start: Cursor, commits: seq<Commit>, aliases: AliasMap)
    returns (intents: seq<Intent>, shortTagToCommit: AliasMap)
    requires IsDigits(start.major) && Valid(aliases)
    ensures intents == TrunkFold(TrunkState(start, [], []), commits).intents
    ensures Valid(shortTagToCommit)
    ensures shortTagToCommit == ApplyAll(aliases, TrunkFold(TrunkState(start, [], []), commits).writes)
  {
    var st0 := TrunkState(start, [], []);
    var major, minor := start.major, start.minor;
    intents := [];
    shortTagToCommit := aliases;
    ghost var writes: seq<Write> := [];
    for i := 0 to |commits|
      invariant IsDigits(major)
      invariant TrunkFold(st0, commits[..i]) == TrunkState(Cursor(major, minor), intents, writes)
      invariant Valid(shortTagToCommit)
      invariant shortTagToCommit == ApplyAll(aliases, writes)
    {
      var commit := commits[i];
      assert commits[..i + 1][..i] == commits[..i];
      ghost var prev := TrunkFold(st0, commits[..i]);
      assert TrunkFold(st0, commits[..i + 1]) == TrunkStep(prev, commit);
      ghost var base, ws: seq<Write> := shortTagToCommit, [];
      if IsFeature(commit.message) {
        minor := minor + 1;
        var m := NatToString(minor);
        intents := intents + [CreateTag(VersionName(major, m, "0"), commit), CreateBranch(ReleaseBranchName(major, m), commit)];
        assert intents == prev.intents + FeatureIntents(major, m, commit);
        ghost var w1, w2, w3 := Write(MajorAlias(major), commit), Write(MinorAlias(major, m), commit), Write(Latest, commit);
        ApplyAllStep(base, [], w1);
        assert [] + [w1] == [w1];
        shortTagToCommit := Set(shortTagToCommit, MajorAlias(major), commit);
        ApplyAllStep(base, [w1], w2);
        assert [w1] + [w2] == [w1, w2];
        shortTagToCommit := Set(shortTagToCommit, MinorAlias(major, m), commit);
        ApplyAllStep(base, [w1, w2], w3);
        assert [w1, w2] + [w3] == [w1, w2, w3];
        shortTagToCommit := Set(shortTagToCommit, Latest, commit);
        ws := [w1, w2, w3];
      } else if IsShortBreaking(commit.message) || IsLongBreaking(commit.message) {
        minor := 0;
        major := NextMajor(major);
        intents := intents + [CreateTag(MajorAlias(major), commit), CreateTag(MinorAlias(major, "0"), commit),
                              CreateTag(VersionName(major, "0", "0"), commit), CreateBranch(ReleaseBranchName(major, "0"), commit)];
        assert intents == prev.intents + BreakingIntents(major, commit);
        ApplyAllStep(base, [], Write(Latest, commit));
        assert [] + [Write(Latest, commit)] == [Write(Latest, commit)];
        shortTagToCommit := Set(shortTagToCommit, Latest, commit);
        ws := [Write(Latest, commit)];
      } else {
        assert writes + ws == writes;
      }
      ApplyAllAppend(aliases, writes, ws);
      writes := writes + ws;
    }
    assert commits[..|commits|] == commits;
  }
}
