/**
 * One run of the action, top to bottom: pick out the release branches and
 * the version tags (and stop when either list is empty), tag the fixes of
 * every release branch, tag trunk's features and breaking changes, then
 * move every alias the two loops wrote. The repository is an input value
 * and the run's effect is the list of ref mutations it asks for, in the
 * order it asks for them.
 */
module Action {
  import opened Wrappers
  import opened Text
  import opened Refs
  import opened VersionTags
  import opened Classifier
  import opened HistoryWalker
  import opened Aliases
  import opened ReleaseEngine
  import opened TrunkEngine

  /** What the run lists: the branches and the tags, in the order the host lists them, and the trunk branch. */
  datatype Repo = Repo(branches: seq<Branch>, tags: seq<Tag>, trunk: Branch)

  /** Why a run stops before moving the aliases. */
  datatype Failure =
    | NoReleaseBranches            // no branch is named `release/M.N.x`: error, exit code 1
    | NoVersionTags                // no tag is a version tag: error, exit code 1
    | NoBranchTag(branch: string)  // no version tag starts with `v<M.N>` of this release branch: the lookup crashes
    | TagCommitNotListed(branch: string) // the boundary tag's commit is not in the branch's history: the walk never ends
    | NoMinorZeroTag               // no version tag ends in `.0`: the trunk lookup crashes

  /** The refs the run asked to change, in order, and why it stopped early, if it did. */
  datatype Outcome = Outcome(intents: seq<Intent>, failure: Option<Failure>)

  predicate IsReleaseBranch(b: Branch)
  {
    MatchReleaseBranch(b.name).Some?
  }

  /** `branches.filter(({name}) => RELEASE_BRANCH_REGEXP.test(name))`. */
  function ReleaseBranches(branches: seq<Branch>): (r: seq<Branch>)
    ensures forall i :: 0 <= i < |r| ==> IsReleaseBranch(r[i])
    ensures forall i :: 0 <= i < |branches| && IsReleaseBranch(branches[i]) ==> branches[i] in r
  {
    Filter(branches, IsReleaseBranch)
  }

  predicate IsVersionTagged(t: Tag)
  {
    IsVersionTag(t.name)
  }

  /** `tags.filter(({name}) => VERSION_TAG_REGEXP.test(name))`. */
  function VersionTagsOf(tags: seq<Tag>): (r: seq<Tag>)
    ensures AllVersionTags(r)
    ensures forall i :: 0 <= i < |tags| && IsVersionTag(tags[i].name) ==> tags[i] in r
  {
    Filter(tags, IsVersionTagged)
  }

  predicate IsMinorZeroTagged(t: Tag)
  {
    IsMinorZeroTag(t.name)
  }

  /** `versionTags.filter(({name}) => /^v\d+\.\d+\.0$/.test(name))`. */
  function MinorZeroTags(versionTags: seq<Tag>): (r: seq<Tag>)
    ensures forall i :: 0 <= i < |r| ==> IsMinorZeroTag(r[i].name) && r[i] in versionTags
    ensures forall i :: 0 <= i < |versionTags| && IsMinorZeroTag(versionTags[i].name) ==> versionTags[i] in r
  {
    Filter(versionTags, IsMinorZeroTagged)
  }

  /** `tags.filter(({name}) => name.startsWith(prefix))`. */
  function TagsStartingWith(tags: seq<Tag>, prefix: string): seq<Tag>
  {
    Filter(tags, (t: Tag) => StartsWith(t.name, prefix))
  }

  predicate AllVersionTags(tags: seq<Tag>)
  {
    forall i :: 0 <= i < |tags| ==> IsVersionTag(tags[i].name)
  }

  /** The first tag a prefix filter keeps is the first listed tag with that prefix. */
  lemma FirstStartingWith(tags: seq<Tag>, prefix: string)
    requires |TagsStartingWith(tags, prefix)| > 0
    ensures exists i :: 0 <= i < |tags| && tags[i] == TagsStartingWith(tags, prefix)[0] &&
                        StartsWith(tags[i].name, prefix) &&
                        forall j :: 0 <= j < i ==> !StartsWith(tags[j].name, prefix)
  {
  }

  /** What the release loop works from for one branch. */
  datatype BranchJob = BranchJob(boundary: Tag, line: ReleaseLine, patch: nat)

  /**
   * The first listed version tag whose name starts with `v<version>` is the
   * branch's boundary; its captured major and minor and the number of its
   * patch start the loop. The major floor is the first listed version tag
   * starting with `v<major>` and the latest floor is the first listed
   * version tag. None when no version tag starts with `v<version>`.
   */
  function FindBoundary(versionTags: seq<Tag>, version: string): (r: Option<BranchJob>)
    requires |versionTags| > 0 && AllVersionTags(versionTags)
    ensures r.None? <==> forall i :: 0 <= i < |versionTags| ==> !StartsWith(versionTags[i].name, "v" + version)
    ensures r.Some? ==> exists i :: 0 <= i < |versionTags| && versionTags[i] == r.value.boundary &&
                                    StartsWith(r.value.boundary.name, "v" + version) &&
                                    forall j :: 0 <= j < i ==> !StartsWith(versionTags[j].name, "v" + version)
    ensures r.Some? ==> && IsVersionTag(r.value.boundary.name)
                        && (var c := ParseVersionTag(r.value.boundary.name);
                            && r.value.line.major == c.major && r.value.line.minor == c.minor
                            && r.value.patch == DigitsValue(c.patch))
    ensures r.Some? ==> exists i :: 0 <= i < |versionTags| && versionTags[i].name == r.value.line.majorFloor &&
                                    StartsWith(versionTags[i].name, "v" + r.value.line.major) &&
                                    forall j :: 0 <= j < i ==> !StartsWith(versionTags[j].name, "v" + r.value.line.major)
    ensures r.Some? ==> r.value.line.latestFloor == versionTags[0].name
  {
    var candidates := TagsStartingWith(versionTags, "v" + version);
    if |candidates| == 0 then None
    else
      var boundary := candidates[0];
      FirstStartingWith(versionTags, "v" + version);
      var k :| 0 <= k < |versionTags| && versionTags[k] == boundary;
      var c := ParseVersionTag(boundary.name);
      VersionTagStartsWithMajor(boundary.name);
      var sameMajor := TagsStartingWith(versionTags, "v" + c.major);
      assert sameMajor != [] by {
        assert StartsWith(versionTags[k].name, "v" + c.major);
      }
      FirstStartingWith(versionTags, "v" + c.major);
      Some(BranchJob(boundary, ReleaseLine(c.major, c.minor, sameMajor[0].name, versionTags[0].name), DigitsValue(c.patch)))
  }

  /** The run's progress: the refs created so far, the alias writes so far, and the failure that stopped it. */
  datatype Progress = Progress(intents: seq<Intent>, writes: seq<Write>, failure: Option<Failure>)

  /** One iteration of the loop over release branches. */
  function BranchStep(versionTags: seq<Tag>, p: Progress, b: Branch): (r: Progress)
    requires |versionTags| > 0 && AllVersionTags(versionTags) && IsReleaseBranch(b)
    ensures r.failure.Some? ==> r.failure.value.NoBranchTag? || r.failure.value.TagCommitNotListed?
    ensures r.failure.Some? ==> r.intents == p.intents
    ensures r.failure == Some(NoBranchTag(b.name)) <==> FindBoundary(versionTags, MatchReleaseBranch(b.name).value).None?
    ensures r.failure.None? ==>
      && FindBoundary(versionTags, MatchReleaseBranch(b.name).value).Some?
      && (var job := FindBoundary(versionTags, MatchReleaseBranch(b.name).value).value;
          && CommitsAfter(b.history, job.boundary.sha).Some?
          && (var st := FixFold(job.line, job.patch, CommitsAfter(b.history, job.boundary.sha).value);
              r.intents == p.intents + st.intents && r.writes == p.writes + st.writes))
  {
    match FindBoundary(versionTags, MatchReleaseBranch(b.name).value)
    case None => Progress(p.intents, p.writes, Some(NoBranchTag(b.name)))
    case Some(job) =>
      match CommitsAfter(b.history, job.boundary.sha)
      case None => Progress(p.intents, p.writes, Some(TagCommitNotListed(b.name)))
      case Some(commits) =>
        var st := FixFold(job.line, job.patch, commits);
        Progress(p.intents + st.intents, p.writes + st.writes, None)
  }

  /** The loop over release branches, which stops at the first branch it cannot process. */
  function ReleasePhase(versionTags: seq<Tag>, branches: seq<Branch>): (r: Progress)
    requires |versionTags| > 0 && AllVersionTags(versionTags)
    requires forall i :: 0 <= i < |branches| ==> IsReleaseBranch(branches[i])
    ensures r.failure.Some? ==> r.failure.value.NoBranchTag? || r.failure.value.TagCommitNotListed?
    decreases |branches|
  {
    if |branches| == 0 then Progress([], [], None)
    else
      var p := ReleasePhase(versionTags, branches[..|branches| - 1]);
      if p.failure.Some? then p else BranchStep(versionTags, p, branches[|branches| - 1])
  }

  /** Once a branch stops the loop, the later branches change nothing. */
  lemma {:induction false} ReleasePhaseStops(versionTags: seq<Tag>, branches: seq<Branch>, k: nat)
    requires |versionTags| > 0 && AllVersionTags(versionTags)
    requires forall i :: 0 <= i < |branches| ==> IsReleaseBranch(branches[i])
    requires k <= |branches| && ReleasePhase(versionTags, branches[..k]).failure.Some?
    ensures ReleasePhase(versionTags, branches) == ReleasePhase(versionTags, branches[..k])
    decreases |branches|
  {
    if |branches| == k {
      assert branches[..k] == branches;
    } else {
      var init := branches[..|branches| - 1];
      assert init[..k] == branches[..k];
      ReleasePhaseStops(versionTags, init, k);
    }
  }

  /** What the trunk loop works from: the cursor read from the boundary tag and the commits after it. */
  datatype TrunkJob = TrunkJob(start: Cursor, commits: seq<Commit>)

  /**
   * The first listed minor-zero tag is trunk's boundary: its captured major
   * text and minor number start the loop, and the commits after it are
   * walked. A failure when there is no minor-zero tag or the walk cannot
   * find the boundary's commit.
   */
  function FindTrunkJob(versionTags: seq<Tag>, trunk: Branch): (r: Result<TrunkJob, Failure>)
    requires AllVersionTags(versionTags)
    ensures r.Failure? <==> |MinorZeroTags(versionTags)| == 0 || CommitsAfter(trunk.history, MinorZeroTags(versionTags)[0].sha).None?
    ensures r.Failure? ==> r.error == NoMinorZeroTag || r.error.TagCommitNotListed?
    ensures r.Success? ==> && IsVersionTag(MinorZeroTags(versionTags)[0].name)
                           && (var t := MinorZeroTags(versionTags)[0];
                               var c := ParseVersionTag(t.name);
                               && r.value.start == Cursor(c.major, DigitsValue(c.minor))
                               && Some(r.value.commits) == CommitsAfter(trunk.history, t.sha))
    ensures r.Success? ==> IsDigits(r.value.start.major)
    ensures r.Success? ==> IsMinorZeroTag(VersionName(r.value.start.major, NatToString(r.value.start.minor), "0"))
  {
    var minorTags := MinorZeroTags(versionTags);
    if |minorTags| == 0 then Failure(NoMinorZeroTag)
    else
      var boundary := minorTags[0];
      assert IsVersionTag(boundary.name);
      var c := ParseVersionTag(boundary.name);
      ParseFormatRoundTrip(boundary.name);
      MinorZeroTagOfName(c.major, NatToString(DigitsValue(c.minor)));
      match CommitsAfter(trunk.history, boundary.sha)
      case None => Failure(TagCommitNotListed(trunk.name))
      case Some(commits) => Success(TrunkJob(Cursor(c.major, DigitsValue(c.minor)), commits))
  }

  /** The trunk loop after the release branches. */
  function TrunkPhase(versionTags: seq<Tag>, trunk: Branch, p: Progress): (r: Progress)
    requires AllVersionTags(versionTags)
    ensures r.failure.Some? ==> r.failure == Some(NoMinorZeroTag) || r.failure.value.TagCommitNotListed?
  {
    match FindTrunkJob(versionTags, trunk)
    case Failure(f) => Progress(p.intents, p.writes, Some(f))
    case Success(job) =>
      var st := TrunkFold(TrunkState(job.start, [], []), job.commits);
      Progress(p.intents + st.intents, p.writes + st.writes, None)
  }

  /**
   * Everything before the flush: the two early exits, the loop over release
   * branches, then the trunk loop.
   */
  function Phases(repo: Repo): (r: Progress)
    ensures r.failure == Some(NoReleaseBranches) <==> |ReleaseBranches(repo.branches)| == 0
    ensures r.failure == Some(NoVersionTags) <==> |ReleaseBranches(repo.branches)| > 0 && |VersionTagsOf(repo.tags)| == 0
  {
    var releaseBranches := ReleaseBranches(repo.branches);
    if |releaseBranches| == 0 then Progress([], [], Some(NoReleaseBranches))
    else
      var versionTags := VersionTagsOf(repo.tags);
      if |versionTags| == 0 then Progress([], [], Some(NoVersionTags))
      else
        var released := ReleasePhase(versionTags, releaseBranches);
        if released.failure.Some? then released
        else TrunkPhase(versionTags, repo.trunk, released)
  }

  /** What one run asks for: the creations, then, if nothing stopped it, one update per alias. */
  function RunSpec(repo: Repo): Outcome
  {
    var p := Phases(repo);
    if p.failure.Some? then Outcome(p.intents, p.failure)
    else Outcome(p.intents + FlushIntents(ApplyAll(Empty, p.writes)), None)
  }

  /**
   * The loop over release branches: it stops at the first branch it cannot
   * process, with the refs created so far; otherwise it hands the alias map
   * on to the trunk loop.
   */
  method TagReleaseBranches(versionTags: seq<Tag>, releaseBranches: seq<Branch>)
    returns (intents: seq<Intent>, shortTagToCommit: AliasMap, failure: Option<Failure>)
    requires |versionTags| > 0 && AllVersionTags(versionTags)
    requires forall i :: 0 <= i < |releaseBranches| ==> IsReleaseBranch(releaseBranches[i])
    ensures intents == ReleasePhase(versionTags, releaseBranches).intents
    ensures failure == ReleasePhase(versionTags, releaseBranches).failure
    ensures Valid(shortTagToCommit)
    ensures failure.None? ==> shortTagToCommit == ApplyAll(Empty, ReleasePhase(versionTags, releaseBranches).writes)
  {
    intents := [];
    shortTagToCommit := Empty;
    ghost var writes: seq<Write> := [];
    for i := 0 to |releaseBranches|
      invariant ReleasePhase(versionTags, releaseBranches[..i]) == Progress(intents, writes, None)
      invariant Valid(shortTagToCommit) && shortTagToCommit == ApplyAll(Empty, writes)
    {
      var releaseBranch := releaseBranches[i];
      assert releaseBranches[..i + 1][..i] == releaseBranches[..i];
      var job := FindBoundary(versionTags, MatchReleaseBranch(releaseBranch.name).value);
      if job.None? {
        ReleasePhaseStops(versionTags, releaseBranches, i + 1);
        return intents, shortTagToCommit, Some(NoBranchTag(releaseBranch.name));
      }
      var commits := GetBranchCommitsAfterTag(releaseBranch.history, job.value.boundary.sha);
      if commits.None? {
        ReleasePhaseStops(versionTags, releaseBranches, i + 1);
        return intents, shortTagToCommit, Some(TagCommitNotListed(releaseBranch.name));
      }
      var created, aliases := ReleaseCommits(job.value.line, job.value.patch, commits.value, shortTagToCommit);
      ghost var branchWrites := FixFold(job.value.line, job.value.patch, commits.value).writes;
      ApplyAllAppend(Empty, writes, branchWrites);
      intents := intents + created;
      writes := writes + branchWrites;
      shortTagToCommit := aliases;
    }
    assert releaseBranches[..|releaseBranches|] == releaseBranches;
    failure := None;
  }

  /** The action's top level. */
  method Run(repo: Repo) returns (out: Outcome)
    ensures out == RunSpec(repo)
  {
    var releaseBranches := ReleaseBranches(repo.branches);
    if |releaseBranches| == 0 {
      return Outcome([], Some(NoReleaseBranches));
    }
    var versionTags := VersionTagsOf(repo.tags);
    if |versionTags| == 0 {
      return Outcome([], Some(NoVersionTags));
    }
    var intents, shortTagToCommit, failure := TagReleaseBranches(versionTags, releaseBranches);
    if failure.Some? {
      return Outcome(intents, failure);
    }
    ghost var writes := ReleasePhase(versionTags, releaseBranches).writes;

    var minorVersionTags := MinorZeroTags(versionTags);
    if |minorVersionTags| == 0 {
      return Outcome(intents, Some(NoMinorZeroTag));
    }
    assert IsVersionTag(minorVersionTags[0].name);
    var c := ParseVersionTag(minorVersionTags[0].name);
    ParseFormatRoundTrip(minorVersionTags[0].name);
    var trunkCommits := GetBranchCommitsAfterTag(repo.trunk.history, minorVersionTags[0].sha);
    if trunkCommits.None? {
      return Outcome(intents, Some(TagCommitNotListed(repo.trunk.name)));
    }
    var start := Cursor(c.major, DigitsValue(c.minor));
    var created, aliases := TrunkCommits(start, trunkCommits.value, shortTagToCommit);
    ghost var trunkWrites := TrunkFold(TrunkState(start, [], []), trunkCommits.value).writes;
    ApplyAllAppend(Empty, writes, trunkWrites);
    var flushed := Flush(aliases);
    return Outcome(intents + created + flushed, None);
  }

  /**
   * The two early exits: the run stops with "no release branches" exactly
   * when no branch is named `release/M.N.x`, and with "no version tags"
   * exactly when there is such a branch but no tag is a version tag; either
   * way before it asks for anything.
   */
  lemma RunStopsEarly(repo: Repo)
    ensures RunSpec(repo).failure == Some(NoReleaseBranches) <==>
      forall i :: 0 <= i < |repo.branches| ==> !IsReleaseBranch(repo.branches[i])
    ensures RunSpec(repo).failure == Some(NoVersionTags) <==>
      && (exists i :: 0 <= i < |repo.branches| && IsReleaseBranch(repo.branches[i]))
      && (forall j :: 0 <= j < |repo.tags| ==> !IsVersionTag(repo.tags[j].name))
    ensures RunSpec(repo).failure == Some(NoReleaseBranches) || RunSpec(repo).failure == Some(NoVersionTags) ==>
      RunSpec(repo).intents == []
  {
    FilterEmpty(repo.branches, IsReleaseBranch);
    FilterEmpty(repo.tags, IsVersionTagged);
  }

  /** The loop over release branches only creates tags. */
  lemma {:induction false} ReleasePhaseCreatesOnly(versionTags: seq<Tag>, branches: seq<Branch>)
    requires |versionTags| > 0 && AllVersionTags(versionTags)
    requires forall i :: 0 <= i < |branches| ==> IsReleaseBranch(branches[i])
    ensures CreatesOnly(ReleasePhase(versionTags, branches).intents)
    decreases |branches|
  {
    if |branches| > 0 {
      var init, b := branches[..|branches| - 1], branches[|branches| - 1];
      ReleasePhaseCreatesOnly(versionTags, init);
      var p := ReleasePhase(versionTags, init);
      if p.failure.None? {
        var job := FindBoundary(versionTags, MatchReleaseBranch(b.name).value);
        if job.Some? && CommitsAfter(b.history, job.value.boundary.sha).Some? {
          var commits := CommitsAfter(b.history, job.value.boundary.sha).value;
          FixFoldNumbering(job.value.line, job.value.patch, commits);
          CreatesOnlyAppend(p.intents, FixFold(job.value.line, job.value.patch, commits).intents);
        }
      }
    }
  }

  /** Before the flush, a run only creates refs. */
  lemma PhasesCreateOnly(repo: Repo)
    ensures CreatesOnly(Phases(repo).intents)
  {
    var releaseBranches, versionTags := ReleaseBranches(repo.branches), VersionTagsOf(repo.tags);
    if |releaseBranches| > 0 && |versionTags| > 0 {
      ReleasePhaseCreatesOnly(versionTags, releaseBranches);
      var released := ReleasePhase(versionTags, releaseBranches);
      var job := FindTrunkJob(versionTags, repo.trunk);
      if released.failure.None? && job.Success? {
        var st0 := TrunkState(job.value.start, [], []);
        TrunkFoldCreatesOnly(st0, job.value.commits);
        CreatesOnlyAppend(released.intents, TrunkFold(st0, job.value.commits).intents);
      }
    }
  }

  /**
   * The creations followed by the flush of the map built from `writes`:
   * each alias written is updated once, after every creation, to the commit
   * of its last write.
   */
  lemma FlushAfter(creates: seq<Intent>, writes: seq<Write>)
    ensures forall i :: |creates| <= i < |creates + FlushIntents(ApplyAll(Empty, writes))| ==>
      && (creates + FlushIntents(ApplyAll(Empty, writes)))[i].UpdateOrCreateTag?
      && LastWrite(writes, (creates + FlushIntents(ApplyAll(Empty, writes)))[i].name) ==
           Some((creates + FlushIntents(ApplyAll(Empty, writes)))[i].at)
    ensures forall i, j :: |creates| <= i < j < |creates + FlushIntents(ApplyAll(Empty, writes))| ==>
      (creates + FlushIntents(ApplyAll(Empty, writes)))[i].name != (creates + FlushIntents(ApplyAll(Empty, writes)))[j].name
    ensures forall key :: LastWrite(writes, key).Some? ==>
      exists i :: |creates| <= i < |creates + FlushIntents(ApplyAll(Empty, writes))| &&
                  (creates + FlushIntents(ApplyAll(Empty, writes)))[i].name == key
  {
    var flushed := FlushIntents(ApplyAll(Empty, writes));
    var out := creates + flushed;
    FlushIsLastWriter(writes);
    forall i | |creates| <= i < |out|
      ensures out[i].UpdateOrCreateTag? && LastWrite(writes, out[i].name) == Some(out[i].at)
    {
      assert out[i] == flushed[i - |creates|];
    }
    forall i, j | |creates| <= i < j < |out|
      ensures out[i].name != out[j].name
    {
      assert out[i] == flushed[i - |creates|] && out[j] == flushed[j - |creates|];
    }
    forall key | LastWrite(writes, key).Some?
      ensures exists i :: |creates| <= i < |out| && out[i].name == key
    {
      var k :| 0 <= k < |flushed| && flushed[k].name == key;
      assert out[|creates| + k] == flushed[k];
    }
  }

  /** An alias with a last write is updated, by the flush, to the commit of that write. */
  lemma FlushHasAlias(creates: seq<Intent>, writes: seq<Write>, key: string)
    requires LastWrite(writes, key).Some?
    ensures UpdateOrCreateTag(key, LastWrite(writes, key).value) in creates + FlushIntents(ApplyAll(Empty, writes))
  {
    var out := creates + FlushIntents(ApplyAll(Empty, writes));
    FlushAfter(creates, writes);
    var i :| |creates| <= i < |out| && out[i].name == key;
    assert out[i] == UpdateOrCreateTag(out[i].name, out[i].at);
  }

  /**
   * A run that is not stopped asks first for every creation and then, once
   * per alias either loop wrote, for an update of that alias to the commit
   * of its last write, release branches first and trunk last.
   */
  lemma RunFlushesLast(repo: Repo)
    requires RunSpec(repo).failure.None?
    ensures |Phases(repo).intents| <= |RunSpec(repo).intents|
    ensures RunSpec(repo).intents[..|Phases(repo).intents|] == Phases(repo).intents
    ensures CreatesOnly(Phases(repo).intents)
    ensures forall i :: |Phases(repo).intents| <= i < |RunSpec(repo).intents| ==>
      && RunSpec(repo).intents[i].UpdateOrCreateTag?
      && LastWrite(Phases(repo).writes, RunSpec(repo).intents[i].name) == Some(RunSpec(repo).intents[i].at)
    ensures forall i, j :: |Phases(repo).intents| <= i < j < |RunSpec(repo).intents| ==>
      RunSpec(repo).intents[i].name != RunSpec(repo).intents[j].name
    ensures forall key :: LastWrite(Phases(repo).writes, key).Some? ==>
      exists i :: |Phases(repo).intents| <= i < |RunSpec(repo).intents| && RunSpec(repo).intents[i].name == key
  {
    var p := Phases(repo);
    assert RunSpec(repo).intents == p.intents + FlushIntents(ApplyAll(Empty, p.writes));
    PhasesCreateOnly(repo);
    FlushAfter(p.intents, p.writes);
  }

  /** A run that is not stopped found trunk's boundary, and its writes are the release branches' then trunk's. */
  lemma PhasesComplete(repo: Repo)
    requires RunSpec(repo).failure.None?
    ensures FindTrunkJob(VersionTagsOf(repo.tags), repo.trunk).Success?
    ensures var job := FindTrunkJob(VersionTagsOf(repo.tags), repo.trunk).value;
      Phases(repo).writes ==
        ReleasePhase(VersionTagsOf(repo.tags), ReleaseBranches(repo.branches)).writes +
        TrunkFold(TrunkState(job.start, [], []), job.commits).writes
  {
  }

  /**
   * Trunk has the last word on `latest`: when trunk has a new feature or
   * breaking change, `latest` is moved to the last of them, whatever the
   * release branches wrote.
   */
  lemma RunLatestFollowsTrunk(repo: Repo)
    requires RunSpec(repo).failure.None?
    ensures FindTrunkJob(VersionTagsOf(repo.tags), repo.trunk).Success?
    ensures var job := FindTrunkJob(VersionTagsOf(repo.tags), repo.trunk).value;
      LastRelease(job.commits).Some? ==> UpdateOrCreateTag(Latest, LastRelease(job.commits).value) in RunSpec(repo).intents
  {
    PhasesComplete(repo);
    var versionTags := VersionTagsOf(repo.tags);
    var released := ReleasePhase(versionTags, ReleaseBranches(repo.branches));
    var job := FindTrunkJob(versionTags, repo.trunk).value;
    var st0 := TrunkState(job.start, [], []);
    var trunkWrites := TrunkFold(st0, job.commits).writes;
    if LastRelease(job.commits).Some? {
      assert LastWrite(Phases(repo).writes, Latest) == LastRelease(job.commits) by {
        TrunkFoldLatest(st0, job.commits);
        LastWriteAppend(released.writes, trunkWrites, Latest);
      }
      var p := Phases(repo);
      assert RunSpec(repo).intents == p.intents + FlushIntents(ApplyAll(Empty, p.writes));
      FlushHasAlias(p.intents, p.writes, Latest);
    }
  }
}
