/** Literal, case-sensitive search in the text of a transcript. */
module Search {
  import opened Bytes
  import Utf8
  import AnsiStripper
  import Pager

  datatype Match = Match(offset: nat, lineNumber: nat, preview: seq<byte>)

  datatype Results = Results(matches: seq<Match>, total: nat, truncated: bool)

  predicate OccursAt(text: seq<byte>, pat: seq<byte>, i: nat) {
    i + |pat| <= |text| && forall j :: 0 <= j < |pat| ==> text[i + j] == pat[j]
  }

  /** `str::find` from a position on. */
  function FindFrom(text: seq<byte>, pat: seq<byte>, from: nat): (r: Option<nat>)
    requires from <= |text|
    ensures r.Some? ==> from <= r.value && OccursAt(text, pat, r.value)
    decreases |text| - from
  {
    if OccursAt(text, pat, from) then Some(from)
    else if from == |text| then None
    else FindFrom(text, pat, from + 1)
  }

  lemma {:induction false} FindsFirst(text: seq<byte>, pat: seq<byte>, from: nat, i: nat)
    requires from <= i <= |text| && OccursAt(text, pat, i)
    ensures FindFrom(text, pat, from).Some? && FindFrom(text, pat, from).value <= i
    decreases |text| - from
  {
    if !OccursAt(text, pat, from) {
      FindsFirst(text, pat, from + 1, i);
    }
  }

  /** The occurrences that repeated leftmost searching finds. */
  function Greedy(text: seq<byte>, pat: seq<byte>, from: nat): seq<nat>
    requires pat != [] && from <= |text|
    decreases |text| - from
  {
    match FindFrom(text, pat, from)
    case None => []
    case Some(i) => [i] + Greedy(text, pat, i + |pat|)
  }

  // ---------------------------------------------------------------- what the occurrences are

  /** Disjoint occurrences, left to right, such that every occurrence at or behind `from` starts
      inside one of them. */
  ghost predicate Covers(text: seq<byte>, pat: seq<byte>, from: nat, occ: seq<nat>) {
    && Occurrences(text, pat, from, occ)
    && Disjoint(pat, occ)
    && (forall i {:trigger Inside(i, pat, occ)} ::
          from <= i <= |text| && OccursAt(text, pat, i) ==> Inside(i, pat, occ))
  }

  ghost predicate Occurrences(text: seq<byte>, pat: seq<byte>, from: nat, occ: seq<nat>) {
    forall k :: 0 <= k < |occ| ==> from <= occ[k] && OccursAt(text, pat, occ[k])
  }

  ghost predicate Disjoint(pat: seq<byte>, occ: seq<nat>) {
    forall j, k :: 0 <= j < k < |occ| ==> occ[j] + |pat| <= occ[k]
  }

  ghost predicate Inside(i: nat, pat: seq<byte>, occ: seq<nat>) {
    exists k :: 0 <= k < |occ| && occ[k] <= i < occ[k] + |pat|
  }

  lemma InsideLater(i: nat, pat: seq<byte>, first: nat, occ: seq<nat>)
    ensures Inside(i, pat, [first] + occ) <==> first <= i < first + |pat| || Inside(i, pat, occ)
  {
    var all := [first] + occ;
    if Inside(i, pat, occ) {
      var k :| 0 <= k < |occ| && occ[k] <= i < occ[k] + |pat|;
      assert all[k + 1] == occ[k];
    }
    if first <= i < first + |pat| {
      assert all[0] == first;
    }
  }

  lemma {:induction false} GreedyOccurs(text: seq<byte>, pat: seq<byte>, from: nat)
    requires pat != [] && from <= |text|
    ensures Occurrences(text, pat, from, Greedy(text, pat, from))
    decreases |text| - from
  {
    var found := FindFrom(text, pat, from);
    if found.Some? {
      GreedyOccurs(text, pat, found.value + |pat|);
    }
  }

  lemma {:induction false} GreedyDisjoint(text: seq<byte>, pat: seq<byte>, from: nat)
    requires pat != [] && from <= |text|
    ensures Disjoint(pat, Greedy(text, pat, from))
    decreases |text| - from
  {
    var found := FindFrom(text, pat, from);
    if found.Some? {
      var next := found.value + |pat|;
      GreedyDisjoint(text, pat, next);
      GreedyOccurs(text, pat, next);
    }
  }

  lemma {:induction false} GreedyInside(text: seq<byte>, pat: seq<byte>, from: nat, i: nat)
    requires pat != [] && from <= i <= |text| && OccursAt(text, pat, i)
    ensures Inside(i, pat, Greedy(text, pat, from))
    decreases |text| - from
  {
    FindsFirst(text, pat, from, i);
    var f := FindFrom(text, pat, from).value;
    var next := f + |pat|;
    InsideLater(i, pat, f, Greedy(text, pat, next));
    if next <= i {
      GreedyInside(text, pat, next, i);
    }
  }

  lemma GreedyCovers(text: seq<byte>, pat: seq<byte>, from: nat)
    requires pat != [] && from <= |text|
    ensures Covers(text, pat, from, Greedy(text, pat, from))
  {
    GreedyOccurs(text, pat, from);
    GreedyDisjoint(text, pat, from);
    forall i | from <= i <= |text| && OccursAt(text, pat, i) ensures Inside(i, pat, Greedy(text, pat, from)) {
      GreedyInside(text, pat, from, i);
    }
  }

  lemma CoverStartsAtFirst(text: seq<byte>, pat: seq<byte>, from: nat, occ: seq<nat>, f: nat)
    requires pat != [] && from <= |text| && Covers(text, pat, from, occ)
    requires FindFrom(text, pat, from) == Some(f)
    ensures occ != [] && occ[0] == f
  {
    assert Inside(f, pat, occ);
    var k :| 0 <= k < |occ| && occ[k] <= f < occ[k] + |pat|;
    assert occ[0] <= occ[k];
    FindsFirst(text, pat, from, occ[0]);
  }

  lemma NothingToCover(text: seq<byte>, pat: seq<byte>, from: nat, occ: seq<nat>)
    requires from <= |text| && Covers(text, pat, from, occ)
    requires FindFrom(text, pat, from).None?
    ensures occ == []
  {
    if occ != [] {
      FindsFirst(text, pat, from, occ[0]);
    }
  }

  lemma CoverOfRest(text: seq<byte>, pat: seq<byte>, from: nat, occ: seq<nat>)
    requires pat != [] && from <= |text| && Covers(text, pat, from, occ) && occ != []
    ensures Covers(text, pat, occ[0] + |pat|, occ[1..])
  {
    var f, later := occ[0], occ[1..];
    assert occ == [f] + later;
    assert forall k :: 0 <= k < |later| ==> later[k] == occ[k + 1];
    forall i | f + |pat| <= i <= |text| && OccursAt(text, pat, i) ensures Inside(i, pat, later) {
      assert Inside(i, pat, occ);
      InsideLater(i, pat, f, later);
    }
  }

  /** Nothing else does: the greedy occurrences are the only ones with that property. */
  lemma {:induction false} CoverIsGreedy(text: seq<byte>, pat: seq<byte>, from: nat, occ: seq<nat>)
    requires pat != [] && from <= |text|
    requires Covers(text, pat, from, occ)
    ensures occ == Greedy(text, pat, from)
    decreases |text| - from
  {
    var found := FindFrom(text, pat, from);
    if found.None? {
      NothingToCover(text, pat, from, occ);
    } else {
      CoverStartsAtFirst(text, pat, from, occ, found.value);
      CoverOfRest(text, pat, from, occ);
      CoverIsGreedy(text, pat, occ[0] + |pat|, occ[1..]);
      HeadTail(occ);
    }
  }

  // ---------------------------------------------------------------- the line around a match

  function CountNewlines(s: seq<byte>): nat {
    if s == [] then 0
    else CountNewlines(s[..|s| - 1]) + if s[|s| - 1] == NEWLINE then 1 else 0
  }

  /** Where the line that contains position `i` starts: behind the last newline before `i`. */
  function LineStart(text: seq<byte>, i: nat): (start: nat)
    requires i <= |text|
    ensures start <= i
    ensures start > 0 ==> text[start - 1] == 10
    ensures forall j :: start <= j < i ==> text[j] != 10
    ensures CountNewlines(text[..start]) == CountNewlines(text[..i])
  {
    if i == 0 || text[i - 1] == NEWLINE then i
    else
      assert text[..i][..i - 1] == text[..i - 1];
      LineStart(text, i - 1)
  }

  /** The next newline at or behind `i`, or the end of the text. */
  function LineEnd(text: seq<byte>, i: nat): (end: nat)
    requires i <= |text|
    ensures i <= end <= |text|
    ensures end < |text| ==> text[end] == 10
    ensures forall j :: i <= j < end ==> text[j] != 10
  {
    assert forall j :: i <= j < |text| ==> text[i..][j - i] == text[j];
    i + Pager.IndexOf(text[i..], NEWLINE)
  }

  /** The lines that an occurrence at `i` touches. */
  function Line(text: seq<byte>, pat: seq<byte>, i: nat): seq<byte> {
    if i + |pat| <= |text| then text[LineStart(text, i)..LineEnd(text, i + |pat|)] else []
  }

  /** UTF-8 synchronises: an occurrence starts and ends between code points, so every slice that the
      search takes is legal. */
  lemma OccurrenceOnBoundaries(text: seq<byte>, pat: seq<byte>, i: nat)
    requires Utf8.Valid(text) && Utf8.Valid(pat) && pat != []
    requires OccursAt(text, pat, i)
    ensures Utf8.IsBoundary(text, i) && Utf8.IsBoundary(text, i + |pat|)
  {
    Utf8.HeadContinues(pat);
    assert text[i] == pat[0];
    Utf8.ValidSplit(text, i);
    var rest := text[i + |pat|..];
    assert text[i..] == pat + rest;
    Utf8.ValidCancel(pat, rest);
    if rest != [] {
      Utf8.HeadContinues(rest);
    }
  }

  lemma LineIsText(text: seq<byte>, pat: seq<byte>, i: nat)
    requires Utf8.Valid(text) && i + |pat| <= |text|
    ensures Utf8.Valid(Line(text, pat, i))
  {
    var a, b := LineStart(text, i), LineEnd(text, i + |pat|);
    Utf8.ValidSplit(text, b);
    if a > 0 {
      Utf8.AfterAscii(text, a);
    }
    if a < b {
      assert text[..b][a] == text[a];
    }
    Utf8.ValidSplit(text[..b], a);
  }

  /** What the search reports about an occurrence, or `None` when its preview panics. */
  function MatchAt(text: seq<byte>, pat: seq<byte>, i: nat): (m: Option<Match>) {
    if i + |pat| > |text| then None
    else
      var preview := AnsiStripper.Strip(Line(text, pat, i));
      if preview.None? then None
      else Some(Match(i, 1 + CountNewlines(text[..LineStart(text, i)]), preview.value))
  }

  /** The line around the bytes from `from` to `to`: back to behind the last newline before them, and
      on to the first newline at or behind their end. */
  ghost predicate IsLineAround(text: seq<byte>, from: nat, to: nat, start: nat, end: nat) {
    && start <= from <= to <= end <= |text|
    && (start > 0 ==> text[start - 1] == 10) && (forall j :: start <= j < from ==> text[j] != 10)
    && (end < |text| ==> text[end] == 10) && (forall j :: to <= j < end ==> text[j] != 10)
  }

  /** What is reported about an occurrence at `i`: its offset, one more than the newlines before it, and
      its line without escape sequences. `None` is a panic on that line, which is UTF-8. */
  ghost predicate Describes(text: seq<byte>, pat: seq<byte>, i: nat, m: Option<Match>) {
    exists start: nat, end: nat :: IsLineAround(text, i, i + |pat|, start, end) && Utf8.Valid(text[start..end])
      && match m
         case None => AnsiStripper.Strip(text[start..end]) == None
         case Some(m) =>
           && m.offset == i && m.lineNumber == 1 + multiset(text[..i])[10]
           && AnsiStripper.Strip(text[start..end]) == Some(m.preview)
  }

  lemma {:induction false} NewlinesCounted(s: seq<byte>)
    ensures CountNewlines(s) == multiset(s)[10]
  {
    if s != [] {
      var n := |s| - 1;
      NewlinesCounted(s[..n]);
      assert s == s[..n] + [s[n]];
    }
  }

  lemma MatchMeaning(text: seq<byte>, pat: seq<byte>, i: nat)
    requires Utf8.Valid(text) && Utf8.Valid(pat) && pat != [] && OccursAt(text, pat, i)
    ensures Describes(text, pat, i, MatchAt(text, pat, i))
  {
    var start, end := LineStart(text, i), LineEnd(text, i + |pat|);
    LineIsText(text, pat, i);
    NewlinesCounted(text[..i]);
    assert IsLineAround(text, i, i + |pat|, start, end);
  }

  // ---------------------------------------------------------------- the search

  /** After `total` turns: the first occurrences, up to `limit`, are recorded. */
  ghost predicate Recorded(occ: seq<nat>, describe: nat -> Option<Match>, limit: nat,
                           total: nat, matches: seq<Match>)
  {
    && total <= |occ|
    && |matches| == Min(total, limit)
    && forall k :: 0 <= k < |matches| ==> describe(occ[k]) == Some(matches[k])
  }

  lemma RecordOne(occ: seq<nat>, describe: nat -> Option<Match>, limit: nat, total: nat, matches: seq<Match>, m: Match)
    requires Recorded(occ, describe, limit, total, matches)
    requires total < |occ| && |matches| < limit && describe(occ[total]) == Some(m)
    ensures Recorded(occ, describe, limit, total + 1, matches + [m])
  {
  }

  lemma CountOne(occ: seq<nat>, describe: nat -> Option<Match>, limit: nat, total: nat, matches: seq<Match>)
    requires Recorded(occ, describe, limit, total, matches)
    requires total < |occ| && |matches| >= limit
    ensures Recorded(occ, describe, limit, total + 1, matches)
  {
  }

  /** The loop of a literal search; `describe` is the closure that builds a match. It stops early on
      a panic, and when it has counted more than four times the limit. */
  method Scan(text: seq<byte>, pat: seq<byte>, limit: nat, describe: nat -> Option<Match>)
    returns (ok: bool, total: nat, matches: seq<Match>)
    requires pat != []
    ensures ok ==> Recorded(Greedy(text, pat, 0), describe, limit, total, matches)
    ensures ok ==> total == Min(|Greedy(text, pat, 0)|, 4 * limit + 1)
    ensures !ok ==> total < |Greedy(text, pat, 0)| && total < limit && describe(Greedy(text, pat, 0)[total]) == None
  {
    ok, total, matches := true, 0, [];
    var start := 0;
    while true
      invariant ok && start <= |text|
      invariant Recorded(Greedy(text, pat, 0), describe, limit, total, matches) && total <= 4 * limit
      invariant After(text, pat, total) == Some(start)
      decreases |text| - start
    {
      var found := FindFrom(text, pat, start);
      if found.None? {
        NoMoreGreedy(text, pat, total, start);
        break;
      }
      var abs := found.value;
      NextGreedy(text, pat, total, start);
      if |matches| < limit {
        var m := describe(abs);
        if m.None? {
          return false, total, matches;
        }
        RecordOne(Greedy(text, pat, 0), describe, limit, total, matches, m.value);
        matches := matches + [m.value];
      } else {
        CountOne(Greedy(text, pat, 0), describe, limit, total, matches);
      }
      total := total + 1;
      start := abs + |pat|;
      if total > limit * 4 && |matches| >= limit {
        break;
      }
    }
  }

  /** What a caller may rely on. `None` is a panic in the preview of a reported occurrence. */
  ghost predicate Answers(text: seq<byte>, pat: seq<byte>, limit: nat, r: Option<Results>) {
    if pat == [] then r == Some(Results([], 0, false))
    else
      var occ := Greedy(text, pat, 0);
      var shown := Min(|occ|, limit);
      match r
      case None => exists k :: 0 <= k < shown && Describes(text, pat, occ[k], None)
      case Some(res) =>
        && |res.matches| == shown
        && res.total == Min(|occ|, 4 * limit + 1)
        && (res.truncated <==> |occ| > limit)
        && forall k :: 0 <= k < shown ==> Describes(text, pat, occ[k], Some(res.matches[k]))
  }

  method SearchLiteral(text: seq<byte>, pat: seq<byte>, limit: nat) returns (r: Option<Results>)
    requires Utf8.Valid(text) && Utf8.Valid(pat)
    ensures Answers(text, pat, limit, r)
  {
    if pat == [] {
      return Some(Results([], 0, false));
    }
    var ok, total, matches := Scan(text, pat, limit, (i: nat) => MatchAt(text, pat, i));
    GreedyOccurs(text, pat, 0);
    if ok {
      ghost var occ := Greedy(text, pat, 0);
      forall k | 0 <= k < |matches| ensures Describes(text, pat, occ[k], Some(matches[k])) {
        MatchMeaning(text, pat, occ[k]);
      }
      r := Some(Results(matches, total, total > |matches|));
    } else {
      MatchMeaning(text, pat, Greedy(text, pat, 0)[total]);
      r := None;
    }
  }

  /** Where the search goes on after `n` successful turns. */
  ghost function After(text: seq<byte>, pat: seq<byte>, n: nat): (from: Option<nat>)
    requires pat != []
    ensures from.Some? ==> from.value <= |text|
  {
    if n == 0 then Some(0)
    else
      var from := After(text, pat, n - 1);
      if from.None? || FindFrom(text, pat, from.value).None? then None
      else Some(FindFrom(text, pat, from.value).value + |pat|)
  }

  lemma {:induction false} GreedyAfter(text: seq<byte>, pat: seq<byte>, n: nat)
    requires pat != [] && After(text, pat, n).Some?
    ensures n <= |Greedy(text, pat, 0)|
    ensures Greedy(text, pat, 0)[n..] == Greedy(text, pat, After(text, pat, n).value)
  {
    if n > 0 {
      GreedyAfter(text, pat, n - 1);
      assert Greedy(text, pat, 0)[n..] == Greedy(text, pat, 0)[n - 1..][1..];
    }
  }

  lemma NextGreedy(text: seq<byte>, pat: seq<byte>, n: nat, from: nat)
    requires pat != [] && After(text, pat, n) == Some(from)
    requires FindFrom(text, pat, from).Some?
    ensures n < |Greedy(text, pat, 0)|
    ensures Greedy(text, pat, 0)[n] == FindFrom(text, pat, from).value
    ensures After(text, pat, n + 1) == Some(FindFrom(text, pat, from).value + |pat|)
  {
    GreedyAfter(text, pat, n);
    assert Greedy(text, pat, 0)[n] == Greedy(text, pat, 0)[n..][0];
  }

  lemma NoMoreGreedy(text: seq<byte>, pat: seq<byte>, n: nat, from: nat)
    requires pat != [] && After(text, pat, n) == Some(from)
    requires FindFrom(text, pat, from).None?
    ensures n == |Greedy(text, pat, 0)|
  {
    GreedyAfter(text, pat, n);
  }

  lemma MatchOffset(text: seq<byte>, pat: seq<byte>, i: nat, m: Match)
    requires Describes(text, pat, i, Some(m))
    ensures m.offset == i
  {
  }

  /** An answer that is not marked as truncated is complete: every occurrence in the text starts
      inside a reported match. */
  lemma UntruncatedIsComplete(text: seq<byte>, pat: seq<byte>, limit: nat, r: Results, i: nat)
    requires pat != [] && Answers(text, pat, limit, Some(r)) && !r.truncated
    requires OccursAt(text, pat, i)
    ensures exists k :: 0 <= k < |r.matches| && r.matches[k].offset <= i < r.matches[k].offset + |pat|
  {
    var occ := Greedy(text, pat, 0);
    GreedyInside(text, pat, 0, i);
    var k :| 0 <= k < |occ| && occ[k] <= i < occ[k] + |pat|;
    MatchOffset(text, pat, occ[k], r.matches[k]);
  }
}
