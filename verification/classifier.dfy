/**
 * How the action reads a commit message: `fix` commits on release branches,
 * `feat` commits on trunk, and the two breaking-change markers
 * `SHORT_BREAKING_CHANGE_REGEXP` and `LONG_BERAKING_CHANGE_REGEXP`.
 */
module Classifier {
  import opened Text

  /** `message.toLowerCase().startsWith('fix')`: a fix on a release branch. */
  predicate IsFix(message: string)
  {
    StartsWith(ToLower(message), "fix")
  }

  /** `message.toLowerCase().startsWith('feat')`: a feature on trunk. */
  predicate IsFeature(message: string)
  {
    StartsWith(ToLower(message), "feat")
  }

  /** `\w`. */
  predicate IsWordChar(c: char)
  {
    'a' <= c <= 'z' || 'A' <= c <= 'Z' || '0' <= c <= '9' || c == '_'
  }

  /** `\w+`. */
  predicate IsWord(s: string)
  {
    |s| > 0 && forall i :: 0 <= i < |s| ==> IsWordChar(s[i])
  }

  /** Length of the longest run of word characters starting at `from`. */
  function WordRun(s: string, from: nat): (n: nat)
    requires from <= |s|
    ensures from + n <= |s|
    ensures forall i :: from <= i < from + n ==> IsWordChar(s[i])
    ensures from + n < |s| ==> !IsWordChar(s[from + n])
    decreases |s| - from
  {
    if from < |s| && IsWordChar(s[from]) then 1 + WordRun(s, from + 1) else 0
  }

  lemma WordRunIsUnique(s: string, from: nat, k: nat)
    requires from + k <= |s|
    requires forall i :: from <= i < from + k ==> IsWordChar(s[i])
    requires from + k < |s| ==> !IsWordChar(s[from + k])
    ensures WordRun(s, from) == k
  {
  }

  /**
   * `SHORT_BREAKING_CHANGE_REGEXP.test(message)`, `/^\w+(?:\(\w+\))?!/`: the
   * type is the whole leading word run (neither `(` nor `!` is a word
   * character), then either `!` or a parenthesised word and `)!`.
   */
  predicate IsShortBreaking(message: string)
  {
    var w := WordRun(message, 0);
    && 0 < w < |message|
    && (|| message[w] == '!'
        || (&& message[w] == '('
            && var v := WordRun(message, w + 1);
            && 0 < v && w + v + 2 < |message|
            && message[w + v + 1] == ')' && message[w + v + 2] == '!'))
  }

  /** The marker `type!` or `type(scope)!` of a conventional commit subject. */
  function ShortMarker(kind: string, scope: string): string
  {
    if scope == "" then kind + "!" else kind + "(" + scope + ")!"
  }

  /** Whatever the short marker accepts begins with `type!` or `type(scope)!`. */
  lemma ShortBreakingSound(message: string) returns (kind: string, scope: string)
    requires IsShortBreaking(message)
    ensures IsWord(kind) && (scope == "" || IsWord(scope))
    ensures StartsWith(message, ShortMarker(kind, scope))
  {
    var w := WordRun(message, 0);
    kind := message[..w];
    if message[w] == '!' {
      scope := "";
      assert message[..w + 1] == kind + "!";
    } else {
      var v := WordRun(message, w + 1);
      scope := message[w + 1..w + 1 + v];
      assert message[..w + v + 3] == kind + "(" + scope + ")!";
    }
  }

  /** Every message that begins with `type!` or `type(scope)!` carries the short marker. */
  lemma ShortBreakingComplete(message: string, kind: string, scope: string)
    requires IsWord(kind) && (scope == "" || IsWord(scope))
    requires StartsWith(message, ShortMarker(kind, scope))
    ensures IsShortBreaking(message)
  {
    var k := |kind|;
    var p := ShortMarker(kind, scope);
    assert forall i :: 0 <= i < |p| ==> message[i] == message[..|p|][i] == p[i];
    assert forall i :: 0 <= i < k ==> p[i] == kind[i];
    WordRunIsUnique(message, 0, k);
    if scope != "" {
      var n := |scope|;
      assert p == kind + "(" + scope + ")!";
      assert forall i :: 0 <= i < n ==> p[k + 1 + i] == scope[i];
      assert p[k] == '(' && p[k + n + 1] == ')' && p[k + n + 2] == '!';
      WordRunIsUnique(message, k + 1, n);
    } else {
      assert p[k] == '!';
    }
  }

  /** `message.split('\n').at(-1)`: the text after the last line feed. */
  function LastLine(message: string): (line: string)
    ensures '\n' !in line
    ensures |line| <= |message| && line == message[|message| - |line|..]
    ensures |line| < |message| ==> message[|message| - |line| - 1] == '\n'
    decreases |message|
  {
    if |message| == 0 || message[|message| - 1] == '\n' then ""
    else
      var init := message[..|message| - 1];
      assert init + [message[|message| - 1]] == message;
      LastLine(init) + [message[|message| - 1]]
  }

  /** The footer after the last line feed is that last line. */
  lemma {:induction false} LastLineAfterNewline(body: string, footer: string)
    requires '\n' !in footer
    ensures LastLine(body + "\n" + footer) == footer
    decreases |footer|
  {
    var m := body + "\n" + footer;
    if footer == [] {
      assert m[|m| - 1] == '\n';
    } else {
      var init := footer[..|footer| - 1];
      LastLineAfterNewline(body, init);
      assert m[..|m| - 1] == body + "\n" + init;
      assert footer == init + [footer[|footer| - 1]];
    }
  }

  /**
   * `LONG_BERAKING_CHANGE_REGEXP.test(lastLine)`, `/^breaking[ -]change/i`:
   * the last line starts with `breaking change` or `breaking-change` in any
   * ASCII case.
   */
  predicate IsLongBreaking(message: string)
  {
    HasLongMarker(LastLine(message))
  }

  /**
   * `/^breaking[ -]change/i` on one line. Without the `u` flag the `i` flag
   * never maps a character beyond ASCII onto an ASCII letter, so only ASCII
   * case variants of the two words match.
   */
  predicate HasLongMarker(line: string)
  {
    && |line| >= 15
    && ToLower(line[..8]) == "breaking"
    && (line[8] == ' ' || line[8] == '-')
    && ToLower(line[9..15]) == "change"
  }

  /** `line` reads `breaking`, a space or a hyphen, `change`, then anything: the two words in any ASCII case. */
  predicate BreakingMarkerParts(line: string, first: string, sep: char, second: string, rest: string)
  {
    && line == first + [sep] + second + rest
    && ToLower(first) == "breaking" && (sep == ' ' || sep == '-') && ToLower(second) == "change"
  }

  /** A line of at least 15 characters, cut where the marker's parts would end. */
  lemma MarkerCuts(line: string)
    requires |line| >= 15
    ensures line == line[..8] + [line[8]] + line[9..15] + line[15..]
  {
    assert line[..8] + [line[8]] + line[9..15] == line[..15];
  }

  /** Parts of the marker's lengths sit at the marker's positions. */
  lemma MarkerPositions(line: string, first: string, sep: char, second: string, rest: string)
    requires line == first + [sep] + second + rest && |first| == 8 && |second| == 6
    ensures |line| >= 15 && line[..8] == first && line[8] == sep && line[9..15] == second
  {
    assert line == first + ([sep] + second + rest);
    assert line[9..] == second + rest;
    assert line[9..15] == line[9..][..6];
  }

  /** A line made of the marker's parts carries the long marker. */
  lemma LongMarkerOfParts(line: string, first: string, sep: char, second: string, rest: string)
    requires BreakingMarkerParts(line, first, sep, second, rest)
    ensures HasLongMarker(line)
  {
    assert |first| == |ToLower(first)| && |second| == |ToLower(second)|;
    MarkerPositions(line, first, sep, second, rest);
  }

  /** The long marker is found exactly when the last line splits into the marker's parts. */
  lemma LongBreakingExact(message: string)
    ensures IsLongBreaking(message) ==>
      exists first, sep, second, rest :: BreakingMarkerParts(LastLine(message), first, sep, second, rest)
    ensures (exists first, sep, second, rest :: BreakingMarkerParts(LastLine(message), first, sep, second, rest)) ==>
      IsLongBreaking(message)
  {
    var line := LastLine(message);
    if HasLongMarker(line) {
      MarkerCuts(line);
      assert BreakingMarkerParts(line, line[..8], line[8], line[9..15], line[15..]);
    }
    forall first, sep, second, rest | BreakingMarkerParts(line, first, sep, second, rest)
      ensures HasLongMarker(line)
    {
      LongMarkerOfParts(line, first, sep, second, rest);
    }
  }

  /** What a commit on trunk does to the version. */
  datatype TrunkKind = Feature | Breaking | Other

  /** The trunk loop's `if`/`else if`: the `feat` test comes first. */
  function ClassifyTrunk(message: string): TrunkKind
  {
    if IsFeature(message) then Feature
    else if IsShortBreaking(message) || IsLongBreaking(message) then Breaking
    else Other
  }

  /** A line that starts with `BREAKING CHANGE` passes the long-marker test on its own. */
  lemma BreakingChangeFooter(footer: string)
    requires StartsWith(footer, "BREAKING CHANGE")
    ensures HasLongMarker(footer)
  {
    var marker := "BREAKING CHANGE";
    assert footer[..8] == marker[..8] == "BREAKING";
    assert footer[9..15] == marker[9..15] == "CHANGE";
    assert footer[8] == marker[8];
  }

  /**
   * A trunk commit that is not a feature and whose last line is a
   * `BREAKING CHANGE` footer is a breaking change, whatever its subject says.
   */
  lemma FooterMarksBreaking(body: string, rest: string)
    requires '\n' !in rest && !IsFeature(body + "\n" + "BREAKING CHANGE" + rest)
    ensures ClassifyTrunk(body + "\n" + "BREAKING CHANGE" + rest) == Breaking
  {
    var footer := "BREAKING CHANGE" + rest;
    assert body + "\n" + "BREAKING CHANGE" + rest == body + "\n" + footer;
    LastLineAfterNewline(body, footer);
    StartsWithConcat("BREAKING CHANGE", rest);
    BreakingChangeFooter(footer);
    assert IsLongBreaking(body + "\n" + footer);
  }
}
