/**
 * The alias map `shortTagToCommit` (a JavaScript `Map` from alias tag name
 * to commit) and its flush through `updateOrCreateTag`.
 */
module Aliases {
  import opened Wrappers
  import opened Refs

  /** The alias `v<major>`. */
  function MajorAlias(major: string): string
  {
    "v" + major
  }

  /** The alias `v<major>.<minor>`. */
  function MinorAlias(major: string, minor: string): string
  {
    "v" + major + "." + minor
  }

  /** The alias `latest`. */
  const Latest: string := "latest"

  lemma AliasNamesDiffer(major: string, minor: string)
    ensures MajorAlias(major) != MinorAlias(major, minor)
    ensures MajorAlias(major) != Latest && MinorAlias(major, minor) != Latest
  {
    assert |MajorAlias(major)| < |MinorAlias(major, minor)|;
    assert MajorAlias(major)[0] != Latest[0] && MinorAlias(major, minor)[0] != Latest[0];
  }

  /** One `shortTagToCommit.set(key, commit)`. */
  datatype Write = Write(key: string, commit: Commit)

  /**
   * A `Map`: its keys in iteration (first insertion) order and what each
   * key maps to.
   */
  datatype AliasMap = AliasMap(keys: seq<string>, target: map<string, Commit>)

  /** The keys are listed once each, and they are the keys of the mapping. */
  ghost predicate Valid(m: AliasMap)
  {
    && (forall i, j :: 0 <= i < j < |m.keys| ==> m.keys[i] != m.keys[j])
    && (forall k :: k in m.target <==> k in m.keys)
  }

  /** `new Map()`. */
  const Empty: AliasMap := AliasMap([], map[])

  /** `Map.prototype.set`: a new key goes last in iteration order, an existing one keeps its place. */
  function Set(m: AliasMap, key: string, commit: Commit): (r: AliasMap)
    requires Valid(m)
    ensures Valid(r)
  {
    AliasMap(if key in m.target then m.keys else m.keys + [key], m.target[key := commit])
  }

  /** The map after the given writes, in order. */
  function ApplyAll(m: AliasMap, writes: seq<Write>): (r: AliasMap)
    requires Valid(m)
    ensures Valid(r)
    decreases |writes|
  {
    if |writes| == 0 then m
    else
      var w := writes[|writes| - 1];
      Set(ApplyAll(m, writes[..|writes| - 1]), w.key, w.commit)
  }

  /** One more write on top of a batch is one more `set`. */
  lemma ApplyAllStep(m: AliasMap, writes: seq<Write>, w: Write)
    requires Valid(m)
    ensures ApplyAll(m, writes + [w]) == Set(ApplyAll(m, writes), w.key, w.commit)
  {
    assert (writes + [w])[..|writes|] == writes;
  }

  /** The commit of the last write to `key`, if any: an independent reading of "last writer wins". */
  function LastWrite(writes: seq<Write>, key: string): Option<Commit>
    decreases |writes|
  {
    if |writes| == 0 then None
    else if writes[|writes| - 1].key == key then Some(writes[|writes| - 1].commit)
    else LastWrite(writes[..|writes| - 1], key)
  }

  /**
   * Last writer wins: after the writes, a key written at least once maps to
   * the commit of its last write, any other key keeps what it had.
   */
  lemma {:induction false} LastWriterWins(m: AliasMap, writes: seq<Write>)
    requires Valid(m)
    ensures var r := ApplyAll(m, writes);
      && (forall key :: key in r.target <==> key in m.target || LastWrite(writes, key).Some?)
      && (forall key :: LastWrite(writes, key).Some? ==> r.target[key] == LastWrite(writes, key).value)
      && (forall key :: LastWrite(writes, key).None? && key in m.target ==> r.target[key] == m.target[key])
    decreases |writes|
  {
    if |writes| > 0 {
      var init, w := writes[..|writes| - 1], writes[|writes| - 1];
      LastWriterWins(m, init);
      assert ApplyAll(m, writes) == Set(ApplyAll(m, init), w.key, w.commit);
      assert forall key :: LastWrite(writes, key) == if w.key == key then Some(w.commit) else LastWrite(init, key);
    }
  }

  /** The keys already in the map keep their place, first and in their old order; new keys go after them. */
  lemma {:induction false} ApplyAllKeepsOrder(m: AliasMap, writes: seq<Write>)
    requires Valid(m)
    ensures |m.keys| <= |ApplyAll(m, writes).keys| && ApplyAll(m, writes).keys[..|m.keys|] == m.keys
    decreases |writes|
  {
    if |writes| > 0 {
      var init, w := writes[..|writes| - 1], writes[|writes| - 1];
      ApplyAllKeepsOrder(m, init);
      var prev := ApplyAll(m, init);
      assert ApplyAll(m, writes) == Set(prev, w.key, w.commit);
      if w.key !in prev.target {
        assert (prev.keys + [w.key])[..|m.keys|] == prev.keys[..|m.keys|];
      }
    }
  }

  /** The keys written, each once, in the order of their first write. */
  function FirstWriteOrder(writes: seq<Write>): seq<string>
    decreases |writes|
  {
    if |writes| == 0 then []
    else
      var seen := FirstWriteOrder(writes[..|writes| - 1]);
      var key := writes[|writes| - 1].key;
      if key in seen then seen else seen + [key]
  }

  /** Starting from an empty map, the keys iterate in the order of their first write. */
  lemma {:induction false} ApplyAllFirstWriteOrder(writes: seq<Write>)
    ensures ApplyAll(Empty, writes).keys == FirstWriteOrder(writes)
    decreases |writes|
  {
    if |writes| > 0 {
      var init, w := writes[..|writes| - 1], writes[|writes| - 1];
      ApplyAllFirstWriteOrder(init);
      var prev := ApplyAll(Empty, init);
      assert ApplyAll(Empty, writes) == Set(prev, w.key, w.commit);
      assert w.key in prev.target <==> w.key in prev.keys;
    }
  }

  /** A single write is the last write to its own key and to no other. */
  lemma LastWriteSingle(w: Write, key: string)
    ensures LastWrite([w], key) == if w.key == key then Some(w.commit) else None
  {
    assert [w][..0] == [];
  }

  /** Writes that come later override earlier ones, key by key. */
  lemma {:induction false} LastWriteAppend(first: seq<Write>, later: seq<Write>, key: string)
    ensures LastWrite(first + later, key) ==
      if LastWrite(later, key).Some? then LastWrite(later, key) else LastWrite(first, key)
    decreases |later|
  {
    if |later| == 0 {
      assert first + later == first;
    } else {
      assert (first + later)[..|first + later| - 1] == first + later[..|later| - 1];
      LastWriteAppend(first, later[..|later| - 1], key);
    }
  }

  /** Applying two batches of writes one after the other is applying them together. */
  lemma {:induction false} ApplyAllAppend(m: AliasMap, first: seq<Write>, later: seq<Write>)
    requires Valid(m)
    ensures ApplyAll(m, first + later) == ApplyAll(ApplyAll(m, first), later)
    decreases |later|
  {
    if |later| == 0 {
      assert first + later == first;
    } else {
      assert (first + later)[..|first + later| - 1] == first + later[..|later| - 1];
      ApplyAllAppend(m, first, later[..|later| - 1]);
    }
  }

  /**
   * `shortTagToCommit.forEach((commit, tag) => updateOrCreateTag(tag, commit))`:
   * one update-or-create per key, in the map's iteration order.
   */
  function FlushIntents(m: AliasMap): (r: seq<Intent>)
    requires Valid(m)
    ensures |r| == |m.keys|
    ensures forall i :: 0 <= i < |r| ==> r[i].name == m.keys[i]
    ensures forall i :: 0 <= i < |r| ==> r[i].UpdateOrCreateTag? && r[i].name in m.target && r[i].at == m.target[r[i].name]
    ensures forall i, j :: 0 <= i < j < |r| ==> r[i].name != r[j].name
    ensures forall key :: key in m.target ==> exists i :: 0 <= i < |r| && r[i].name == key
  {
    var r := seq(|m.keys|, i requires 0 <= i < |m.keys| => UpdateOrCreateTag(m.keys[i], m.target[m.keys[i]]));
    assert forall key :: key in m.keys ==> exists i :: 0 <= i < |r| && r[i].name == key by {
      forall key | key in m.keys ensures exists i :: 0 <= i < |r| && r[i].name == key {
        var i :| 0 <= i < |m.keys| && m.keys[i] == key;
        assert r[i].name == key;
      }
    }
    r
  }

  /**
   * Flushing the map built from nothing by `writes` moves each written alias
   * exactly once, to the commit of its last write, and moves nothing else.
   */
  lemma FlushIsLastWriter(writes: seq<Write>)
    ensures forall i :: 0 <= i < |FlushIntents(ApplyAll(Empty, writes))| ==>
      && FlushIntents(ApplyAll(Empty, writes))[i].UpdateOrCreateTag?
      && LastWrite(writes, FlushIntents(ApplyAll(Empty, writes))[i].name) == Some(FlushIntents(ApplyAll(Empty, writes))[i].at)
    ensures forall key :: LastWrite(writes, key).Some? ==>
      exists i :: 0 <= i < |FlushIntents(ApplyAll(Empty, writes))| && FlushIntents(ApplyAll(Empty, writes))[i].name == key
  {
    LastWriterWins(Empty, writes);
    var m := ApplyAll(Empty, writes);
    forall key | LastWrite(writes, key).Some?
      ensures exists i :: 0 <= i < |FlushIntents(m)| && FlushIntents(m)[i].name == key
    {
      assert key in m.keys;
      var i :| 0 <= i < |m.keys| && m.keys[i] == key;
      assert FlushIntents(m)[i].name == key;
    }
  }

  /** The flush loop. */
  method Flush(m: AliasMap) returns (intents: seq<Intent>)
    requires Valid(m)
    ensures intents == FlushIntents(m)
  {
    intents := [];
    for i := 0 to |m.keys|
      invariant intents == FlushIntents(m)[..i]
    {
      var tag := m.keys[i];
      intents := intents + [UpdateOrCreateTag(tag, m.target[tag])];
    }
  }
}
