/**
 * `getBranchCommitsAfterTag`: page through a branch's history, newest
 * commit first, until the tagged commit shows up, and return the commits
 * listed before it, oldest first.
 */
module HistoryWalker {
  import opened Wrappers
  import opened Refs

  /** The pages one after another, as one newest-first listing. */
  function Flatten(pages: seq<seq<Commit>>): seq<Commit>
  {
    if |pages| == 0 then [] else pages[0] + Flatten(pages[1..])
  }

  lemma {:induction false} FlattenAppend(a: seq<seq<Commit>>, b: seq<seq<Commit>>)
    ensures Flatten(a + b) == Flatten(a) + Flatten(b)
  {
    if |a| == 0 {
      assert a + b == b;
    } else {
      assert (a + b)[1..] == a[1..] + b;
      FlattenAppend(a[1..], b);
    }
  }

  /** `Array.prototype.reverse`. */
  function Reverse<T>(s: seq<T>): (r: seq<T>)
    ensures |r| == |s|
    ensures forall i :: 0 <= i < |s| ==> r[i] == s[|s| - 1 - i]
  {
    if |s| == 0 then [] else Reverse(s[1..]) + [s[0]]
  }

  /** Index of the first commit with the given sha. */
  function FirstIndexOf(s: seq<Commit>, sha: string): (r: Option<nat>)
    ensures r.Some? ==> r.value < |s| && s[r.value].sha == sha
    ensures r.Some? ==> forall j :: 0 <= j < r.value ==> s[j].sha != sha
    ensures r.None? ==> forall j :: 0 <= j < |s| ==> s[j].sha != sha
  {
    if |s| == 0 then None
    else if s[0].sha == sha then Some(0)
    else match FirstIndexOf(s[1..], sha)
      case None => None
      case Some(k) => Some(k + 1)
  }

  /**
   * What the walk returns: the commits listed before the first one whose
   * sha is the tag's, reversed into oldest-first order; None when no listed
   * commit has that sha.
   */
  function CommitsAfter(history: seq<seq<Commit>>, sha: string): (r: Option<seq<Commit>>)
    ensures r.None? <==> forall j :: 0 <= j < |Flatten(history)| ==> Flatten(history)[j].sha != sha
    ensures r.Some? ==>
      var all, k := Flatten(history), |r.value|;
      && k < |all| && all[k].sha == sha
      && (forall i :: 0 <= i < k ==> r.value[i] == all[k - 1 - i])
      && (forall i :: 0 <= i < k ==> r.value[i].sha != sha)
  {
    var all := Flatten(history);
    match FirstIndexOf(all, sha)
    case None => None
    case Some(k) => Some(Reverse(all[..k]))
  }

  /**
   * The loop of `getBranchCommitsAfterTag`: `history[page]` stands for
   * `listCommits` page `page + 1`. Where the listing runs out without the
   * tagged commit, the source keeps requesting empty pages forever; here the
   * walk stops with None.
   */
  method GetBranchCommitsAfterTag(history: seq<seq<Commit>>, sha: string) returns (r: Option<seq<Commit>>)
    ensures r == CommitsAfter(history, sha)
  {
    var commitsAfterTag: seq<Commit> := [];
    var page := 0;
    while page < |history|
      invariant 0 <= page <= |history|
      invariant commitsAfterTag == Flatten(history[..page])
      invariant forall j :: 0 <= j < |commitsAfterTag| ==> commitsAfterTag[j].sha != sha
    {
      var commits := history[page];
      var latestTagCommitIndex := -1;
      var i := 0;
      while i < |commits|
        invariant 0 <= i <= |commits|
        invariant latestTagCommitIndex == -1
        invariant forall j :: 0 <= j < i ==> commits[j].sha != sha
      {
        if commits[i].sha == sha {
          latestTagCommitIndex := i;
          break;
        }
        i := i + 1;
      }
      FlattenAppend(history[..page], [commits]);
      assert history[..page] + [commits] == history[..page + 1];
      assert Flatten([commits]) == commits by {
        assert [commits][1..] == [];
      }
      if latestTagCommitIndex == -1 {
        commitsAfterTag := commitsAfterTag + commits;
        page := page + 1;
      } else {
        var k := latestTagCommitIndex;
        r := Some(Reverse(commitsAfterTag + commits[..k]));
        FoundOnPage(history, page, k, sha);
        return;
      }
    }
    assert history[..page] == history;
    r := None;
  }

  /** Finding the tagged commit at position `k` of page `page` fixes the result. */
  lemma FoundOnPage(history: seq<seq<Commit>>, page: nat, k: nat, sha: string)
    requires page < |history| && k < |history[page]| && history[page][k].sha == sha
    requires forall j :: 0 <= j < |Flatten(history[..page])| ==> Flatten(history[..page])[j].sha != sha
    requires forall j :: 0 <= j < k ==> history[page][j].sha != sha
    ensures CommitsAfter(history, sha) == Some(Reverse(Flatten(history[..page]) + history[page][..k]))
  {
    var before := Flatten(history[..page]);
    var rest := Flatten(history[page..]);
    FlattenAppend(history[..page], history[page..]);
    assert history[..page] + history[page..] == history;
    assert rest == history[page] + Flatten(history[page + 1..]) by {
      assert history[page..][1..] == history[page + 1..];
    }
    var all := Flatten(history);
    assert all == before + rest;
    var idx := FirstIndexOf(all, sha);
    var n := |before| + k;
    assert all[n] == history[page][k];
    assert forall j :: 0 <= j < n ==> all[j].sha != sha by {
      forall j | 0 <= j < n ensures all[j].sha != sha {
        if j < |before| {
          assert all[j] == before[j];
        } else {
          assert all[j] == history[page][j - |before|];
        }
      }
    }
    assert idx == Some(n);
    assert all[..n] == before + history[page][..k];
  }
}
