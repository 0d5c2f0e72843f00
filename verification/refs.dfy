/**
 * What the action reads from and asks of the repository host, as plain values:
 * commits, tags and branches as listed, and the ref mutations it issues.
 */
module Refs {

  /** A listed commit: its sha and its full message (`commit.commit.message`). */
  datatype Commit = Commit(sha: string, message: string)

  /** A listed tag: its name and the sha of the commit it points at (`tag.commit.sha`). */
  datatype Tag = Tag(name: string, sha: string)

  /**
   * A listed branch with the history the host would page out for it:
   * `history[p]` is page `p + 1` of `listCommits`, newest commit first.
   */
  datatype Branch = Branch(name: string, history: seq<seq<Commit>>)

  /** A ref mutation the action issues. */
  datatype Intent =
    | CreateTag(name: string, at: Commit)          // `createTag`: a new immutable tag
    | CreateBranch(name: string, at: Commit)       // `createBranch`
    | UpdateOrCreateTag(name: string, at: Commit)  // `updateOrCreateTag`: move an alias tag, or create it

  /** Only creations: no alias update among the intents. */
  predicate CreatesOnly(intents: seq<Intent>)
  {
    forall i :: 0 <= i < |intents| ==> !intents[i].UpdateOrCreateTag?
  }

  lemma CreatesOnlyAppend(a: seq<Intent>, b: seq<Intent>)
    requires CreatesOnly(a) && CreatesOnly(b)
    ensures CreatesOnly(a + b)
  {
    forall i | 0 <= i < |a + b| ensures !(a + b)[i].UpdateOrCreateTag? {
      if i < |a| { assert (a + b)[i] == a[i]; } else { assert (a + b)[i] == b[i - |a|]; }
    }
  }

  /**
   * The elements of `s` that satisfy `p`, in order: `Array.prototype.filter`.
   */
  function Filter<T>(s: seq<T>, p: T -> bool): (r: seq<T>)
    ensures |r| <= |s|
    ensures forall i :: 0 <= i < |r| ==> r[i] in s && p(r[i])
    ensures forall i :: 0 <= i < |s| && p(s[i]) ==> s[i] in r
    ensures |r| > 0 ==> exists i :: 0 <= i < |s| && s[i] == r[0] && forall j :: 0 <= j < i ==> !p(s[j])
    decreases |s|
  {
    if |s| == 0 then []
    else
      var init, last := s[..|s| - 1], s[|s| - 1];
      var q := Filter(init, p);
      assert forall j :: 0 <= j < |init| ==> init[j] == s[j];
      assert |q| == 0 ==> forall j :: 0 <= j < |init| ==> !p(s[j]) by {
        if |q| == 0 {
          forall j | 0 <= j < |init| ensures !p(s[j]) {
            assert init[j] !in q;
          }
        }
      }
      q + if p(last) then [last] else []
  }

  /** The filter comes back empty exactly when no element satisfies `p`. */
  lemma FilterEmpty<T>(s: seq<T>, p: T -> bool)
    ensures |Filter(s, p)| == 0 <==> forall i :: 0 <= i < |s| ==> !p(s[i])
  {
    var r := Filter(s, p);
    if |r| > 0 {
      var i :| 0 <= i < |s| && s[i] == r[0] && forall j :: 0 <= j < i ==> !p(s[j]);
      assert p(s[i]);
    }
  }

  /** Filtering a concatenation filters each part and keeps them in order. */
  lemma {:induction false} FilterAppend<T>(a: seq<T>, b: seq<T>, p: T -> bool)
    ensures Filter(a + b, p) == Filter(a, p) + Filter(b, p)
    decreases |b|
  {
    if |b| == 0 {
      assert a + b == a;
    } else {
      var init := b[..|b| - 1];
      assert (a + b)[..|a + b| - 1] == a + init;
      FilterAppend(a, init, p);
    }
  }

  /** A one-element list keeps its element exactly when the test holds. */
  lemma FilterSingle<T>(x: T, p: T -> bool)
    ensures Filter([x], p) == if p(x) then [x] else []
  {
    assert [x][..0] == [];
  }
}
