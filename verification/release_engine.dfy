/**
 * The two loops that decide what to tag: the loop over a release branch's
 * new commits, which turns every fix into the next patch tag, and the loop
 * over trunk's new commits, which turns features into minor releases and
 * breaking changes into major releases. Each is a method with the source's
 * loop, specified by a fold over the commits that the lemmas below are
 * about.
 */
module ReleaseEngine {
  import opened Wrappers
  import opened Text
  import opened Refs
  import opened VersionTags
  import opened Classifier
  import opened Aliases

  // ---------------------------------------------------------------------
  // Release branches
  // ---------------------------------------------------------------------

  /**
   * What stays fixed while one release branch is processed: the captured
   * major and minor text of its boundary tag, the name of the first listed
   * version tag starting with `v<major>` and the name of the first listed
   * version tag, against which new tag names are compared as strings.
   */
  datatype ReleaseLine = ReleaseLine(major: string, minor: string, majorFloor: string, latestFloor: string)

  /** The release loop's state: the patch counter, the tags created and the alias writes, in order. */
  datatype PatchState = PatchState(patch: nat, intents: seq<Intent>, writes: seq<Write>)

  /** The tag name for patch number `patch` of the line. */
  function PatchTagName(line: ReleaseLine, patch: nat): string
  {
    VersionName(line.major, line.minor, NatToString(patch))
  }

  /**
   * The alias writes for a fix commit `c` tagged `tag`: `v<major>` when
   * `tag` compares greater than the major floor, always `v<major>.<minor>`,
   * and `latest` when `tag` compares greater than the latest floor.
   */
  function FixWrites(line: ReleaseLine, tag: string, c: Commit): (ws: seq<Write>)
    ensures forall i :: 0 <= i < |ws| ==>
      && ws[i].commit == c
      && ws[i].key in {MajorAlias(line.major), MinorAlias(line.major, line.minor), Latest}
      && (ws[i].key == MajorAlias(line.major) ==> LexLess(line.majorFloor, tag))
      && (ws[i].key == Latest ==> LexLess(line.latestFloor, tag))
    ensures LexLess(line.majorFloor, tag) ==> Write(MajorAlias(line.major), c) in ws
    ensures LexLess(line.latestFloor, tag) ==> Write(Latest, c) in ws
  {
    AliasNamesDiffer(line.major, line.minor);
    (if LexLess(line.majorFloor, tag) then [Write(MajorAlias(line.major), c)] else [])
      + [Write(MinorAlias(line.major, line.minor), c)]
      + (if LexLess(line.latestFloor, tag) then [Write(Latest, c)] else [])
  }

  /** One commit of the release loop. */
  function FixStep(line: ReleaseLine, st: PatchState, c: Commit): (r: PatchState)
    ensures !IsFix(c.message) ==> r == st
  {
    if !IsFix(c.message) then st
    else
      var tag := PatchTagName(line, st.patch + 1);
      PatchState(st.patch + 1, st.intents + [CreateTag(tag, c)], st.writes + FixWrites(line, tag, c))
  }

  /**
   * Every patch tag of the line is a version tag with the line's major and
   * minor and the patch number in decimal, and it starts with
   * `v<major>.<minor>` and with `v<major>`: a later run takes it for the
   * branch's boundary and counts it among the major's tags.
   */
  lemma PatchTagParses(line: ReleaseLine, patch: nat)
    requires IsDigits(line.major) && IsDigits(line.minor)
    ensures IsVersionTag(PatchTagName(line, patch))
    ensures ParseVersionTag(PatchTagName(line, patch)) == Captures(line.major, line.minor, NatToString(patch))
    ensures Separator(PatchTagName(line, patch)) == '.'
    ensures StartsWith(PatchTagName(line, patch), "v" + (line.major + "." + line.minor))
    ensures StartsWith(PatchTagName(line, patch), MajorAlias(line.major))
  {
    VersionNameParses(line.major, line.minor, NatToString(patch));
    VersionNamePrefixes(line.major, line.minor, NatToString(patch));
  }

  /** The release loop over `commits`, oldest first, starting from patch number `patch0`. */
  function FixFold(line: ReleaseLine, patch0: nat, commits: seq<Commit>): PatchState
    decreases |commits|
  {
    if |commits| == 0 then PatchState(patch0, [], [])
    else FixStep(line, FixFold(line, patch0, commits[..|commits| - 1]), commits[|commits| - 1])
  }

  /** The fix commits, in history order. */
  function Fixes(commits: seq<Commit>): seq<Commit>
    decreases |commits|
  {
    if |commits| == 0 then []
    else Fixes(commits[..|commits| - 1]) + if IsFix(commits[|commits| - 1].message) then [commits[|commits| - 1]] else []
  }

  /**
   * The k-th fix commit (from 0) gets tag `v<major>.<minor>.<patch0 + k + 1>`
   * and nothing else creates a tag: patch numbers rise by one per fix in
   * history order, major and minor never change.
   */
  lemma {:induction false} FixFoldNumbering(line: ReleaseLine, patch0: nat, commits: seq<Commit>)
    ensures var st, fixes := FixFold(line, patch0, commits), Fixes(commits);
      && st.patch == patch0 + |fixes|
      && |st.intents| == |fixes|
      && forall k :: 0 <= k < |fixes| ==> st.intents[k] == CreateTag(PatchTagName(line, patch0 + k + 1), fixes[k])
    decreases |commits|
  {
    if |commits| > 0 {
      FixFoldNumbering(line, patch0, commits[..|commits| - 1]);
    }
  }

  /** Every alias write of the loop is to `v<major>`, `v<major>.<minor>` or `latest`, at a fix commit. */
  lemma {:induction false} FixFoldWriteKeys(line: ReleaseLine, patch0: nat, commits: seq<Commit>)
    ensures forall i :: 0 <= i < |FixFold(line, patch0, commits).writes| ==>
      && FixFold(line, patch0, commits).writes[i].key in {MajorAlias(line.major), MinorAlias(line.major, line.minor), Latest}
      && FixFold(line, patch0, commits).writes[i].commit in Fixes(commits)
    decreases |commits|
  {
    if |commits| > 0 {
      var init, c := commits[..|commits| - 1], commits[|commits| - 1];
      FixFoldWriteKeys(line, patch0, init);
      var prev, st := FixFold(line, patch0, init), FixFold(line, patch0, commits);
      if IsFix(c.message) {
        assert Fixes(commits) == Fixes(init) + [c];
        var ws := FixWrites(line, PatchTagName(line, prev.patch + 1), c);
        assert st.writes == prev.writes + ws;
        forall i | 0 <= i < |st.writes|
          ensures st.writes[i].key in {MajorAlias(line.major), MinorAlias(line.major, line.minor), Latest}
          ensures st.writes[i].commit in Fixes(commits)
        {
          if i < |prev.writes| {
            assert st.writes[i] == prev.writes[i];
          } else {
            assert st.writes[i] == ws[i - |prev.writes|];
          }
        }
      } else {
        assert Fixes(commits) == Fixes(init);
      }
    }
  }

  /**
   * The writes for one fix end with that fix for `v<major>.<minor>` always,
   * and for `v<major>` and `latest` exactly when the tag compares greater
   * than the respective floor.
   */
  lemma FixWritesLast(line: ReleaseLine, tag: string, c: Commit)
    ensures LastWrite(FixWrites(line, tag, c), MinorAlias(line.major, line.minor)) == Some(c)
    ensures LastWrite(FixWrites(line, tag, c), MajorAlias(line.major)) ==
      if LexLess(line.majorFloor, tag) then Some(c) else None
    ensures LastWrite(FixWrites(line, tag, c), Latest) ==
      if LexLess(line.latestFloor, tag) then Some(c) else None
  {
    var major, minor := MajorAlias(line.major), MinorAlias(line.major, line.minor);
    var pre := if LexLess(line.majorFloor, tag) then [Write(major, c)] else [];
    var post := if LexLess(line.latestFloor, tag) then [Write(Latest, c)] else [];
    AliasNamesDiffer(line.major, line.minor);
    assert FixWrites(line, tag, c) == (pre + [Write(minor, c)]) + post;
    assert (pre + [Write(minor, c)])[..|pre|] == pre;
    forall key | key in {major, minor, Latest}
      ensures LastWrite(FixWrites(line, tag, c), key) ==
        if LastWrite(post, key).Some? then LastWrite(post, key)
        else if key == minor then Some(c) else LastWrite(pre, key)
    {
      LastWriteAppend(pre + [Write(minor, c)], post, key);
      if |pre| > 0 {
        LastWriteSingle(pre[0], key);
      }
      if |post| > 0 {
        LastWriteSingle(post[0], key);
      }
    }
    if |pre| > 0 {
      LastWriteSingle(pre[0], Latest);
      LastWriteSingle(pre[0], major);
    }
    if |post| > 0 {
      LastWriteSingle(post[0], major);
      LastWriteSingle(post[0], minor);
      LastWriteSingle(post[0], Latest);
    }
  }

  /** The loop over `commits` then `c` is one more step after the loop over `commits`. */
  lemma FixFoldSnoc(line: ReleaseLine, patch0: nat, commits: seq<Commit>, c: Commit)
    ensures FixFold(line, patch0, commits + [c]) == FixStep(line, FixFold(line, patch0, commits), c)
  {
    assert (commits + [c])[..|commits|] == commits;
  }

  /**
   * One fix `c` takes the next patch tag and becomes the last writer of
   * `v<major>.<minor>`, and of `v<major>` and `latest` exactly when that tag
   * compares greater than their floors; otherwise those keep their last writer.
   */
  lemma FixStepAliases(line: ReleaseLine, st: PatchState, c: Commit)
    requires IsFix(c.message)
    ensures var r, tag := FixStep(line, st, c), PatchTagName(line, st.patch + 1);
      && r.patch == st.patch + 1
      && r.intents == st.intents + [CreateTag(tag, c)]
      && LastWrite(r.writes, MinorAlias(line.major, line.minor)) == Some(c)
      && LastWrite(r.writes, MajorAlias(line.major)) ==
        (if LexLess(line.majorFloor, tag) then Some(c) else LastWrite(st.writes, MajorAlias(line.major)))
      && LastWrite(r.writes, Latest) ==
        (if LexLess(line.latestFloor, tag) then Some(c) else LastWrite(st.writes, Latest))
  {
    var tag := PatchTagName(line, st.patch + 1);
    var ws := FixWrites(line, tag, c);
    FixWritesLast(line, tag, c);
    LastWriteAppend(st.writes, ws, MinorAlias(line.major, line.minor));
    LastWriteAppend(st.writes, ws, MajorAlias(line.major));
    LastWriteAppend(st.writes, ws, Latest);
  }

  /** After the loop, `v<major>.<minor>` was last written with the last fix commit, if there was one. */
  lemma {:induction false} FixFoldMinorAlias(line: ReleaseLine, patch0: nat, commits: seq<Commit>)
    ensures var fixes := Fixes(commits);
      LastWrite(FixFold(line, patch0, commits).writes, MinorAlias(line.major, line.minor)) ==
        if |fixes| == 0 then None else Some(fixes[|fixes| - 1])
    decreases |commits|
  {
    if |commits| > 0 {
      var init := commits[..|commits| - 1];
      FixFoldMinorAlias(line, patch0, init);
      var c := commits[|commits| - 1];
      var st := FixFold(line, patch0, init);
      if IsFix(c.message) {
        var tag := PatchTagName(line, st.patch + 1);
        assert Fixes(commits) == Fixes(init) + [c];
        assert FixFold(line, patch0, commits).writes == st.writes + FixWrites(line, tag, c);
        FixWritesLast(line, tag, c);
        LastWriteAppend(st.writes, FixWrites(line, tag, c), MinorAlias(line.major, line.minor));
      } else {
        assert Fixes(commits) == Fixes(init);
        assert FixFold(line, patch0, commits) == st;
      }
    }
  }

  /**
   * Every write in `writes` to the guarded alias `key` is made with some
   * fix commit `fixes[k]` whose tag, patch number `patch0 + k + 1`, compares
   * greater than `floor` as a string.
   */
  ghost predicate WritesGuarded(line: ReleaseLine, patch0: nat, writes: seq<Write>, fixes: seq<Commit>, key: string, floor: string)
  {
    forall i :: 0 <= i < |writes| && writes[i].key == key ==>
      exists k :: 0 <= k < |fixes| && writes[i].commit == fixes[k] && LexLess(floor, PatchTagName(line, patch0 + k + 1))
  }

  /** Appending the writes of one more fix, guarded by that fix's tag, keeps `WritesGuarded`. */
  lemma WritesGuardedExtend(line: ReleaseLine, patch0: nat, writes: seq<Write>, fixes: seq<Commit>, key: string, floor: string,
                            ws: seq<Write>, c: Commit)
    requires WritesGuarded(line, patch0, writes, fixes, key, floor)
    requires forall j :: 0 <= j < |ws| ==> ws[j].commit == c
    requires forall j :: 0 <= j < |ws| && ws[j].key == key ==> LexLess(floor, PatchTagName(line, patch0 + |fixes| + 1))
    ensures WritesGuarded(line, patch0, writes + ws, fixes + [c], key, floor)
  {
    var all, fixes' := writes + ws, fixes + [c];
    forall i | 0 <= i < |all| && all[i].key == key
      ensures exists k :: 0 <= k < |fixes'| && all[i].commit == fixes'[k] && LexLess(floor, PatchTagName(line, patch0 + k + 1))
    {
      if i < |writes| {
        assert all[i] == writes[i];
        var k :| 0 <= k < |fixes| && writes[i].commit == fixes[k] && LexLess(floor, PatchTagName(line, patch0 + k + 1));
        assert fixes'[k] == fixes[k];
      } else {
        assert all[i] == ws[i - |writes|];
        assert fixes'[|fixes|] == c;
      }
    }
  }

  /**
   * A write to the guarded alias `key` (`v<major>` with the major floor, or
   * `latest` with the latest floor) is made with the k-th fix commit only
   * when that fix's tag name compares greater than the floor, as a string.
   */
  lemma {:induction false} FixFoldGuardSound(line: ReleaseLine, patch0: nat, commits: seq<Commit>, key: string, floor: string)
    requires (key == MajorAlias(line.major) && floor == line.majorFloor) || (key == Latest && floor == line.latestFloor)
    ensures WritesGuarded(line, patch0, FixFold(line, patch0, commits).writes, Fixes(commits), key, floor)
    decreases |commits|
  {
    if |commits| > 0 {
      var init, c := commits[..|commits| - 1], commits[|commits| - 1];
      FixFoldGuardSound(line, patch0, init, key, floor);
      if IsFix(c.message) {
        FixFoldNumbering(line, patch0, init);
        AliasNamesDiffer(line.major, line.minor);
        var prev := FixFold(line, patch0, init);
        var tag := PatchTagName(line, prev.patch + 1);
        WritesGuardedExtend(line, patch0, prev.writes, Fixes(init), key, floor, FixWrites(line, tag, c), c);
        assert Fixes(commits) == Fixes(init) + [c];
      } else {
        assert Fixes(commits) == Fixes(init);
      }
    }
  }

  /**
   * Conversely, the k-th fix commit is written to the guarded alias `key`
   * whenever its tag name compares greater than the floor.
   */
  lemma {:induction false} FixFoldGuardComplete(line: ReleaseLine, patch0: nat, commits: seq<Commit>, key: string, floor: string)
    requires (key == MajorAlias(line.major) && floor == line.majorFloor) || (key == Latest && floor == line.latestFloor)
    ensures forall k :: 0 <= k < |Fixes(commits)| && LexLess(floor, PatchTagName(line, patch0 + k + 1)) ==>
      Write(key, Fixes(commits)[k]) in FixFold(line, patch0, commits).writes
    decreases |commits|
  {
    if |commits| > 0 {
      var init, c := commits[..|commits| - 1], commits[|commits| - 1];
      FixFoldGuardComplete(line, patch0, init, key, floor);
      FixFoldNumbering(line, patch0, init);
      var prev, st := FixFold(line, patch0, init), FixFold(line, patch0, commits);
      if IsFix(c.message) {
        var fixes := Fixes(commits);
        var ws := FixWrites(line, PatchTagName(line, prev.patch + 1), c);
        assert fixes == Fixes(init) + [c];
        assert st.writes == prev.writes + ws;
        assert forall w :: w in prev.writes ==> w in st.writes;
        forall k | 0 <= k < |fixes| && LexLess(floor, PatchTagName(line, patch0 + k + 1))
          ensures Write(key, fixes[k]) in st.writes
        {
          if k < |Fixes(init)| {
            assert fixes[k] == Fixes(init)[k];
          } else {
            assert k == |Fixes(init)| && prev.patch + 1 == patch0 + k + 1;
            assert Write(key, c) in ws;
          }
        }
      } else {
        assert Fixes(commits) == Fixes(init) && st == prev;
      }
    }
  }

  /**
   * The release loop (the `for` over a release branch's new commits), with
   * `shortTagToCommit` as an accumulator: it issues the tags the fold
   * describes and leaves the map as the fold's writes leave it.
   */
  method ReleaseCommits(line: ReleaseLine, patch0: nat, commits: seq<Commit>, aliases: AliasMap)
    returns (intents: seq<Intent>, shortTagToCommit: AliasMap)
    requires Valid(aliases)
    ensures intents == FixFold(line, patch0, commits).intents
    ensures Valid(shortTagToCommit)
    ensures shortTagToCommit == ApplyAll(aliases, FixFold(line, patch0, commits).writes)
  {
    var patch := patch0;
    intents := [];
    shortTagToCommit := aliases;
    ghost var writes: seq<Write> := [];
    for i := 0 to |commits|
      invariant FixFold(line, patch0, commits[..i]) == PatchState(patch, intents, writes)
      invariant Valid(shortTagToCommit)
      invariant shortTagToCommit == ApplyAll(aliases, writes)
    {
      var commit := commits[i];
      assert commits[..i + 1][..i] == commits[..i];
      ghost var prev := FixFold(line, patch0, commits[..i]);
      assert FixFold(line, patch0, commits[..i + 1]) == FixStep(line, prev, commit);
      if IsFix(commit.message) {
        ghost var base, ws: seq<Write> := shortTagToCommit, [];
        patch := patch + 1;
        var tag := PatchTagName(line, patch);
        intents := intents + [CreateTag(tag, commit)];
        if LexLess(line.majorFloor, tag) {
          ApplyAllStep(base, ws, Write(MajorAlias(line.major), commit));
          shortTagToCommit := Set(shortTagToCommit, MajorAlias(line.major), commit);
          ws := ws + [Write(MajorAlias(line.major), commit)];
        }
        ApplyAllStep(base, ws, Write(MinorAlias(line.major, line.minor), commit));
        shortTagToCommit := Set(shortTagToCommit, MinorAlias(line.major, line.minor), commit);
        ws := ws + [Write(MinorAlias(line.major, line.minor), commit)];
        if LexLess(line.latestFloor, tag) {
          ApplyAllStep(base, ws, Write(Latest, commit));
          shortTagToCommit := Set(shortTagToCommit, Latest, commit);
          ws := ws + [Write(Latest, commit)];
        }
        assert ws == FixWrites(line, tag, commit);
        ApplyAllAppend(aliases, writes, ws);
        writes := writes + ws;
      }
    }
    assert commits[..|commits|] == commits;
  }
}
