/** The email check of registration: `test` of the unanchored regular expression
    `\S+@\S+\.\S+` (controllers/authController.js:110). */
module EmailPattern {
  import opened Text

  ghost predicate NonSpaceRun(s: string, lo: int, hi: int)
    requires 0 <= lo <= hi <= |s|
  {
    forall k :: lo <= k < hi ==> !IsSpace(s[k])
  }

  /** A `.` at `dot`, reached from `lo` through non-whitespace characters only, and
      followed by a non-whitespace character. */
  ghost predicate DotEnd(s: string, lo: int, dot: int) {
    0 <= lo <= dot && dot + 1 < |s| && NonSpaceRun(s, lo, dot) && s[dot] == '.' && !IsSpace(s[dot + 1])
  }

  /** A match with its `@` at `at` and its `.` at `dot`: a non-whitespace character, the
      `@`, one or more non-whitespace characters, the `.`, a non-whitespace character. */
  ghost predicate MatchAt(s: string, at: int, dot: int) {
    1 <= at && at + 2 <= dot && dot < |s| &&
    !IsSpace(s[at - 1]) && s[at] == '@' && DotEnd(s, at + 1, dot)
  }

  /** What the regular expression matches: a match anywhere in `s`, since the pattern has
      no anchors. */
  ghost predicate MatchesPattern(s: string) {
    exists at, dot :: MatchAt(s, at, dot)
  }

  /** Whether a `.` followed by a non-whitespace character is reachable from `i` through
      non-whitespace characters only. */
  function DotAhead(s: string, i: nat): bool
    requires i <= |s|
    decreases |s| - i
  {
    if i + 1 >= |s| || IsSpace(s[i]) then false
    else if s[i] == '.' && !IsSpace(s[i + 1]) then true
    else DotAhead(s, i + 1)
  }

  /** Whether a match has its `@` at position `at` or later. */
  function AtFrom(s: string, at: nat): bool
    requires 1 <= at <= |s|
    decreases |s| - at
  {
    if at + 2 >= |s| then false
    else if s[at] == '@' && !IsSpace(s[at - 1]) && !IsSpace(s[at + 1]) && DotAhead(s, at + 2) then true
    else AtFrom(s, at + 1)
  }

  /** The scan that decides the regular expression, left to right. */
  function LooksLikeEmail(s: string): (ok: bool)
    ensures ok <==> MatchesPattern(s)
  {
    if |s| == 0 then false
    else
      AtFromIff(s, 1);
      AtFrom(s, 1)
  }

  /** A run that starts before `dot` is its first character followed by a shorter run. */
  lemma DotEndStep(s: string, lo: int, dot: int)
    requires 0 <= lo < dot
    ensures DotEnd(s, lo, dot) <==> lo < |s| && !IsSpace(s[lo]) && DotEnd(s, lo + 1, dot)
  {
    if dot + 1 < |s| {
      assert NonSpaceRun(s, lo, dot) <==> !IsSpace(s[lo]) && NonSpaceRun(s, lo + 1, dot);
    }
  }

  lemma {:induction false} DotAheadIff(s: string, i: nat)
    requires i <= |s|
    ensures DotAhead(s, i) <==> exists dot :: DotEnd(s, i, dot)
    decreases |s| - i
  {
    if i + 1 >= |s| {
    } else if IsSpace(s[i]) {
      forall dot | DotEnd(s, i, dot) ensures false {
        if dot > i { DotEndStep(s, i, dot); }
      }
    } else if s[i] == '.' && !IsSpace(s[i + 1]) {
      assert DotEnd(s, i, i);
    } else {
      DotAheadIff(s, i + 1);
      if DotAhead(s, i + 1) {
        var dot :| DotEnd(s, i + 1, dot);
        DotEndStep(s, i, dot);
      }
      if exists dot :: DotEnd(s, i, dot) {
        var dot :| DotEnd(s, i, dot);
        DotEndStep(s, i, dot);
      }
    }
  }

  /** One `@` position: the run between `@` and `.` is non-empty, so it starts with a
      non-whitespace `s[at + 1]` and the rest is what `DotAhead(s, at + 2)` looks for. */
  lemma MatchAtIff(s: string, at: nat)
    requires 1 <= at && at + 2 < |s|
    ensures (s[at] == '@' && !IsSpace(s[at - 1]) && !IsSpace(s[at + 1]) && DotAhead(s, at + 2)) <==>
      exists dot :: MatchAt(s, at, dot)
  {
    DotAheadIff(s, at + 2);
    if exists dot :: MatchAt(s, at, dot) {
      var dot :| MatchAt(s, at, dot);
      DotEndStep(s, at + 1, dot);
    }
    if DotAhead(s, at + 2) && s[at] == '@' && !IsSpace(s[at - 1]) && !IsSpace(s[at + 1]) {
      var dot :| DotEnd(s, at + 2, dot);
      DotEndStep(s, at + 1, dot);
      assert MatchAt(s, at, dot);
    }
  }

  lemma {:induction false} AtFromIff(s: string, from: nat)
    requires 1 <= from <= |s|
    ensures AtFrom(s, from) <==> exists at, dot :: from <= at && MatchAt(s, at, dot)
    decreases |s| - from
  {
    if from + 2 >= |s| {
    } else {
      MatchAtIff(s, from);
      AtFromIff(s, from + 1);
      if exists at, dot :: from <= at && MatchAt(s, at, dot) {
        var at, dot :| from <= at && MatchAt(s, at, dot);
        if at == from {
          assert exists dot :: MatchAt(s, from, dot);
        } else {
          assert from + 1 <= at && MatchAt(s, at, dot);
        }
      }
    }
  }

  /** Because the pattern is unanchored, text around an address does not stop the match:
      `"see ann@x.com here"` is accepted just as `"ann@x.com"` is. */
  lemma UnanchoredMatch(pre: string, addr: string, post: string)
    requires MatchesPattern(addr)
    ensures MatchesPattern(pre + addr + post)
  {
    var s := pre + addr + post;
    var at, dot :| MatchAt(addr, at, dot);
    var o := |pre|;
    assert forall k :: 0 <= k < |addr| ==> s[o + k] == addr[k];
    assert NonSpaceRun(s, o + at + 1, o + dot);
    assert MatchAt(s, o + at, o + dot);
  }
}
