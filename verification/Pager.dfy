/** Backward paging over a log: the page that `read_tail_before` cuts out of a plaintext, and the
    walk of a client that feeds each page's start back as the next end. */
module Pager {
  import opened Bytes

  /** The position of the first `b`, or the length when there is none. */
  function IndexOf(s: seq<byte>, b: byte): (k: nat)
    ensures k <= |s|
    ensures k < |s| ==> s[k] == b
    ensures forall i :: 0 <= i < k ==> s[i] != b
  {
    if s == [] || s[0] == b then 0 else 1 + IndexOf(s[1..], b)
  }

  datatype Page = Page(data: seq<byte>, start: nat, total: nat)

  function PageEnd(total: nat, before: Option<nat>): (end: nat)
    ensures end <= total
  {
    match before
    case None => total
    case Some(b) => Min(b, total)
  }

  /** The window of `max` bytes before `end`, or what remains of it behind its first newline when
      the window does not start at 0. */
  function PageStart(all: seq<byte>, end: nat, max: nat): (start: nat)
    requires end <= |all|
    ensures start <= end <= start + max
    ensures end <= max ==> start == 0
    ensures end > max > 0 ==> start > end - max
    ensures 0 < start < end ==> all[start - 1] == 10
    ensures start > 0 ==> forall p :: end - max <= p < start - 1 ==> all[p] != 10
  {
    var start := if end <= max then 0 else end - max;
    if 0 < start < end then Min(start + IndexOf(all[start..end], NEWLINE) + 1, end) else start
  }

  function TailPage(all: seq<byte>, before: Option<nat>, max: nat): Page {
    var end := PageEnd(|all|, before);
    var start := PageStart(all, end, max);
    Page(all[start..end], start, |all|)
  }

  /** A page in plain words: the window of `max` bytes that ends at `before`, or at the end of the text;
      all of it when it reaches back to the start of the text, and otherwise what lies behind the
      first newline in it, which is nothing when there is none. */
  ghost predicate IsPage(all: seq<byte>, before: Option<nat>, max: nat, data: seq<byte>, start: nat, total: nat) {
    var end := if before.Some? && before.value < |all| then before.value else |all|;
    && total == |all| && start <= end && data == all[start..end]
    && (end <= max ==> start == 0)
    && (end > max ==>
          && start >= end - max && (max > 0 ==> start > end - max)
          && (start < end ==> all[start - 1] == 10)
          && forall p :: end - max <= p < start - 1 ==> all[p] != 10)
  }

  lemma TailPageIsPage(all: seq<byte>, before: Option<nat>, max: nat)
    ensures var page := TailPage(all, before, max); IsPage(all, before, max, page.data, page.start, page.total)
  {
  }

  /** There is only one such page. */
  lemma PageUnique(all: seq<byte>, before: Option<nat>, max: nat, data: seq<byte>, start: nat, total: nat)
    requires IsPage(all, before, max, data, start, total)
    ensures Page(data, start, total) == TailPage(all, before, max)
  {
  }

  // ---------------------------------------------------------------- walking back

  datatype Walk = Walk(pages: seq<seq<byte>>, stop: nat)

  /** A client that pages back from `end` until a page comes back empty. */
  function PageBack(all: seq<byte>, end: nat, max: nat): (w: Walk)
    requires end <= |all|
    ensures w.stop <= end
    decreases end
  {
    var page := TailPage(all, Some(end), max);
    if page.data == [] then Walk([], end)
    else
      var w := PageBack(all, page.start, max);
      Walk([page.data] + w.pages, w.stop)
  }

  lemma ReverseCons(page: seq<byte>, older: seq<seq<byte>>)
    ensures Flatten(Reverse([page] + older)) == Flatten(Reverse(older)) + page
  {
    assert ([page] + older)[1..] == older;
    FlattenSnoc(Reverse(older), page);
  }

  lemma SliceJoin(s: seq<byte>, a: nat, b: nat, c: nat)
    requires a <= b <= c <= |s|
    ensures s[a..b] + s[b..c] == s[a..c]
  {
  }

  /** Whatever the log contains, the pages are not empty and, read oldest first, are the log from
      where the walk stopped: no gap, no overlap. */
  lemma {:induction false} PagesTile(all: seq<byte>, end: nat, max: nat)
    requires end <= |all|
    ensures forall p :: p in PageBack(all, end, max).pages ==> 0 < |p| <= max
    ensures Flatten(Reverse(PageBack(all, end, max).pages)) == all[PageBack(all, end, max).stop..end]
    decreases end
  {
    var start := PageStart(all, end, max);
    if start < end {
      var w := PageBack(all, start, max);
      PagesTile(all, start, max);
      ReverseCons(all[start..end], w.pages);
      SliceJoin(all, w.stop, start, end);
    }
  }

  /** One line: it ends in its only newline. */
  predicate IsRecord(r: seq<byte>) {
    r != [] && r[|r| - 1] == NEWLINE && forall i :: 0 <= i < |r| - 1 ==> r[i] != NEWLINE
  }

  ghost predicate AllRecords(records: seq<seq<byte>>) {
    forall r :: r in records ==> IsRecord(r)
  }

  /** Where record `j` starts in the log. */
  ghost function Offset(records: seq<seq<byte>>, j: nat): nat
    requires j <= |records|
  {
    |Flatten(records[..j])|
  }

  lemma OffsetStep(records: seq<seq<byte>>, j: nat)
    requires j < |records|
    ensures Offset(records, j + 1) == Offset(records, j) + |records[j]|
    ensures Offset(records, j + 1) <= |Flatten(records)|
    ensures Flatten(records)[Offset(records, j)..Offset(records, j + 1)] == records[j]
  {
    TakeSnoc(records, j);
    FlattenSnoc(records[..j], records[j]);
    FlattenSplit(records, j + 1);
  }

  lemma {:induction false} OffsetMonotone(records: seq<seq<byte>>, i: nat, j: nat)
    requires AllRecords(records)
    requires i <= j <= |records|
    ensures Offset(records, i) + (j - i) <= Offset(records, j) <= |Flatten(records)|
    decreases j - i
  {
    if i < j {
      OffsetStep(records, j - 1);
      assert IsRecord(records[j - 1]);
      OffsetMonotone(records, i, j - 1);
    } else {
      FlattenSplit(records, j);
    }
  }

  /** Record `j - 1` ends in a newline at its last byte and has no other. */
  lemma LastNewline(records: seq<seq<byte>>, j: nat)
    requires AllRecords(records)
    requires 0 < j <= |records|
    ensures Offset(records, j - 1) < Offset(records, j) <= |Flatten(records)|
    ensures Flatten(records)[Offset(records, j) - 1] == NEWLINE
    ensures forall p :: Offset(records, j - 1) <= p < Offset(records, j) - 1 ==> Flatten(records)[p] != NEWLINE
  {
    OffsetStep(records, j - 1);
    var all, o, r := Flatten(records), Offset(records, j - 1), records[j - 1];
    assert IsRecord(r);
    forall p | o <= p < o + |r| ensures all[p] == r[p - o] {
      assert all[o..o + |r|][p - o] == r[p - o];
    }
  }

  /** A newline at `p`, at or before the end of record `j - 1`, ends some record. */
  lemma {:induction false} NewlineEndsRecord(records: seq<seq<byte>>, j: nat, p: nat) returns (i: nat)
    requires AllRecords(records)
    requires j <= |records| && p < Offset(records, j) <= |Flatten(records)|
    requires Flatten(records)[p] == NEWLINE
    ensures 0 < i <= j && Offset(records, i) == p + 1
  {
    LastNewline(records, j);
    if p == Offset(records, j) - 1 {
      i := j;
    } else {
      i := NewlineEndsRecord(records, j - 1, p);
    }
  }

  /** A page that ends on a record boundary and does not reach back to the start of the log. */
  lemma PageInside(records: seq<seq<byte>>, j: nat, max: nat) returns (i: nat)
    requires AllRecords(records)
    requires 0 < j <= |records| && 0 < max < Offset(records, j) <= |Flatten(records)|
    ensures i <= j && PageStart(Flatten(records), Offset(records, j), max) == Offset(records, i)
    ensures i == j <==> |records[j - 1]| >= max
  {
    var all, end := Flatten(records), Offset(records, j);
    LastNewline(records, j);
    OffsetStep(records, j - 1);
    if j > 1 {
      LastNewline(records, j - 1);
    }
    NewlineInWindow(all, end, max, Offset(records, j - 1));
    i := NewlineEndsRecord(records, j, PageStart(all, end, max) - 1);
    OffsetMonotone(records, i, j);
  }

  /** A page that ends on a record boundary starts on one; it is empty exactly when the record before
      that boundary does not leave room for the newline in front of it. */
  lemma PageAtBoundary(records: seq<seq<byte>>, j: nat, max: nat) returns (i: nat)
    requires AllRecords(records)
    requires j <= |records| && Offset(records, j) <= |Flatten(records)|
    ensures i <= j && PageStart(Flatten(records), Offset(records, j), max) == Offset(records, i)
    ensures i == j <==> j == 0 || (Offset(records, j) > max && |records[j - 1]| >= max)
    ensures Offset(records, j) <= max ==> i == 0
  {
    if j == 0 || Offset(records, j) <= max {
      i := 0;
      OffsetMonotone(records, 0, j);
    } else if max == 0 {
      i := j;
    } else {
      i := PageInside(records, j, max);
    }
  }

  /** Such a page holds as many whole records as leave room for the newline in front of them. */
  lemma PageHoldsMost(records: seq<seq<byte>>, j: nat, max: nat) returns (i: nat)
    requires AllRecords(records)
    requires 0 < j <= |records| && 0 < max < Offset(records, j) <= |Flatten(records)|
    ensures 0 < i <= j && PageStart(Flatten(records), Offset(records, j), max) == Offset(records, i)
    ensures Offset(records, j) - Offset(records, i) < max <= Offset(records, j) - Offset(records, i - 1)
  {
    var all, end := Flatten(records), Offset(records, j);
    i := PageInside(records, j, max);
    OffsetMonotone(records, 0, i);
    if i > 1 && Offset(records, i - 1) > end - max {
      LastNewline(records, i - 1);
      LastNewline(records, i);
      assert false;
    }
  }

  /** `lastRecord` is where the record before `end` starts. */
  lemma NewlineInWindow(all: seq<byte>, end: nat, max: nat, lastRecord: nat)
    requires 0 < max < end <= |all|
    requires all[end - 1] == NEWLINE
    requires lastRecord < end
    requires forall p :: lastRecord <= p < end - 1 ==> all[p] != NEWLINE
    requires lastRecord > 0 ==> all[lastRecord - 1] == NEWLINE
    ensures all[PageStart(all, end, max) - 1] == NEWLINE
    ensures PageStart(all, end, max) == end <==> lastRecord <= end - max
  {
    var w := end - max;
    var k := IndexOf(all[w..end], NEWLINE);
    assert all[w..end][max - 1] == NEWLINE;
    if lastRecord > w {
      assert all[w..end][lastRecord - 1 - w] == NEWLINE;
    }
  }

  /** Every record leaves room for the newline before it; the first one has none before it. */
  predicate Pageable(records: seq<seq<byte>>, max: nat) {
    forall i :: 0 <= i < |records| ==> |records[i]| < max || (i == 0 && |records[0]| <= max)
  }

  /** Where a walk gets stuck. */
  lemma StuckPage(records: seq<seq<byte>>, j: nat, max: nat)
    requires AllRecords(records)
    requires 0 < j <= |records| && Offset(records, j) > max && |records[j - 1]| >= max
    ensures !Pageable(records[..j], max)
  {
    assert records[..j][j - 1] == records[j - 1];
    if j == 1 {
      OffsetStep(records, 0);
      assert records[..0] == [];
    }
  }

  lemma {:induction false} WalkReaches(records: seq<seq<byte>>, j: nat, max: nat)
    requires AllRecords(records)
    requires j <= |records| && Offset(records, j) <= |Flatten(records)|
    ensures PageBack(Flatten(records), Offset(records, j), max).stop == 0 <==> Pageable(records[..j], max)
    decreases j
  {
    var i := PageAtBoundary(records, j, max);
    OffsetMonotone(records, i, j);
    if i < j {
      WalkReaches(records, i, max);
      PageFitsRecords(records, i, j, max);
    } else if j > 0 {
      OffsetMonotone(records, 0, j);
      StuckPage(records, j, max);
    }
  }

  /** Every page is some of the records. */
  ghost predicate WholeRecords(records: seq<seq<byte>>, pages: seq<seq<byte>>) {
    forall p :: p in pages ==> exists a, b :: 0 <= a < b <= |records| && p == Flatten(records[a..b])
  }

  lemma {:induction false} PagesAreRecords(records: seq<seq<byte>>, j: nat, max: nat)
    requires AllRecords(records)
    requires j <= |records| && Offset(records, j) <= |Flatten(records)|
    ensures WholeRecords(records, PageBack(Flatten(records), Offset(records, j), max).pages)
    decreases j
  {
    var i := PageAtBoundary(records, j, max);
    OffsetMonotone(records, i, j);
    if i < j {
      PagesAreRecords(records, i, max);
      SliceOfRecords(records, i, j);
    }
  }

  /** Paging back from a record boundary yields whole records, and reaches the start of the log if
      and only if the pages are longer than every record but the first, and as long as that. */
  lemma WalkFromBoundary(records: seq<seq<byte>>, j: nat, max: nat)
    requires AllRecords(records)
    requires j <= |records| && Offset(records, j) <= |Flatten(records)|
    ensures PageBack(Flatten(records), Offset(records, j), max).stop == 0 <==> Pageable(records[..j], max)
    ensures WholeRecords(records, PageBack(Flatten(records), Offset(records, j), max).pages)
  {
    WalkReaches(records, j, max);
    PagesAreRecords(records, j, max);
  }

  lemma SliceOfRecords(records: seq<seq<byte>>, i: nat, j: nat)
    requires i <= j <= |records|
    requires Offset(records, i) <= Offset(records, j) <= |Flatten(records)|
    ensures Flatten(records)[Offset(records, i)..Offset(records, j)] == Flatten(records[i..j])
  {
    FlattenSplit(records, j);
    FlattenSplit(records[..j], i);
    assert records[..j][..i] == records[..i];
    assert records[..j][i..] == records[i..j];
  }

  lemma PageFitsRecords(records: seq<seq<byte>>, i: nat, j: nat, max: nat)
    requires AllRecords(records)
    requires i < j <= |records|
    requires Offset(records, j) - Offset(records, i) < max || (i == 0 && Offset(records, j) <= max)
    ensures Pageable(records[..j], max) <==> Pageable(records[..i], max)
  {
    forall k | i <= k < j ensures |records[k]| < max || (k == 0 && |records[0]| <= max) {
      OffsetMonotone(records, i, k);
      OffsetStep(records, k);
      OffsetMonotone(records, k + 1, j);
    }
    assert forall k :: 0 <= k < i ==> records[..i][k] == records[..j][k];
  }

  /** The walk of a client that starts at the tail of a log of whole records. */
  lemma WholeLogPaged(records: seq<seq<byte>>, max: nat)
    requires AllRecords(records)
    ensures var all := Flatten(records);
      var w := PageBack(all, |all|, max);
      && (w.stop == 0 <==> Pageable(records, max))
      && (Pageable(records, max) ==> Flatten(Reverse(w.pages)) == all)
  {
    TakeAll(records);
    WalkFromBoundary(records, |records|, max);
    PagesTile(Flatten(records), |Flatten(records)|, max);
    TakeAll(Flatten(records));
  }

  // ---------------------------------------------------------------- a log that grows meanwhile

  /** Every log that the client will see contains `all` as its start. */
  ghost predicate Extends(logs: nat -> seq<byte>, all: seq<byte>) {
    forall n: nat :: all <= logs(n)
  }

  ghost predicate TallEnough(logs: nat -> seq<byte>, end: nat) {
    forall n: nat :: end <= |logs(n)|
  }

  /** The same client when request `k` finds the log to be `logs(k)`. */
  ghost function PageBackLive(logs: nat -> seq<byte>, k: nat, end: nat, max: nat): Walk
    requires TallEnough(logs, end)
    decreases end
  {
    var page := TailPage(logs(k), Some(end), max);
    if page.data == [] then Walk([], end)
    else
      var w := PageBackLive(logs, k + 1, page.start, max);
      Walk([page.data] + w.pages, w.stop)
  }

  lemma GrowthInvisible(all: seq<byte>, grown: seq<byte>, end: nat, max: nat)
    requires end <= |all| && all <= grown
    ensures PageStart(grown, end, max) == PageStart(all, end, max)
    ensures TailPage(grown, Some(end), max) == TailPage(all, Some(end), max).(total := |grown|)
  {
    var w := if end <= max then 0 else end - max;
    assert all[w..end] == grown[w..end];
    var start := PageStart(all, end, max);
    assert all[start..end] == grown[start..end];
  }

  lemma LogsAreTall(logs: nat -> seq<byte>, all: seq<byte>, end: nat)
    requires Extends(logs, all) && end <= |all|
    ensures TallEnough(logs, end)
  {
  }

  /** Appends between requests do not disturb a walk: it yields the pages of the log as it was at
      the first request. */
  lemma {:induction false} LiveWalkIsSnapshot(logs: nat -> seq<byte>, k: nat, all: seq<byte>, end: nat, max: nat)
    requires Extends(logs, all) && end <= |all| && TallEnough(logs, end)
    ensures PageBackLive(logs, k, end, max) == PageBack(all, end, max)
    decreases end
  {
    GrowthInvisible(all, logs(k), end, max);
    var page := TailPage(all, Some(end), max);
    if page.data != [] {
      LogsAreTall(logs, all, page.start);
      LiveWalkIsSnapshot(logs, k + 1, all, page.start, max);
    }
  }
}
