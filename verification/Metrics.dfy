// Metric pages merged into fixed buckets (src/aws/metrics.rs). Times are whole
// nanoseconds since the epoch; the service answers as it pleases.

module Metrics {
  import opened Wrappers

  const MAX_METRIC_PAGES: nat := 1000

  const NANOS: int := 1_000_000_000

  datatype Range = FifteenMinutes | OneHour | SixHours | TwentyFourHours

  function DurationSeconds(range: Range): int {
    match range
    case FifteenMinutes => 15 * 60
    case OneHour => 60 * 60
    case SixHours => 6 * 60 * 60
    case TwentyFourHours => 24 * 60 * 60
  }

  function PeriodSeconds(range: Range): int {
    match range
    case FifteenMinutes => 60
    case OneHour => 60
    case SixHours => 5 * 60
    case TwentyFourHours => 15 * 60
  }

  function SampleCount(range: Range): nat {
    match range
    case FifteenMinutes => 15
    case OneHour => 60
    case SixHours => 72
    case TwentyFourHours => 96
  }

  /** The half-open window of a request, ending at the last whole period before now. */
  datatype Window = Window(range: Range, start: int) {
    function End(): int {
      start + DurationSeconds(range) * NANOS
    }

    predicate Holds(time: int) {
      start <= time < End()
    }

    /** Where bucket `i` starts. */
    function BucketStart(i: int): int {
      start + i * PeriodSeconds(range) * NANOS
    }

    /** The bucket start a time is aligned to; None for a time before the window. */
    function AlignFromStart(time: int): Option<int> {
      if time < start then None
      else
        var elapsed := (time - start) / NANOS;
        Some(start + (elapsed / PeriodSeconds(range)) * PeriodSeconds(range) * NANOS)
    }

    function Bucket(time: int): int {
      ((time - start) / NANOS) / PeriodSeconds(range)
    }
  }

  /** None for a time before the epoch. */
  function AlignToPeriod(now: int, range: Range): Option<int> {
    if now < 0 then None
    else
      var seconds := now / NANOS;
      Some((seconds - seconds % PeriodSeconds(range)) * NANOS)
  }

  /** The buckets tile the window: every time in it belongs to exactly one, and that one is a sample. */
  lemma BucketIsSample(w: Window, time: int)
    requires w.Holds(time)
    ensures 0 <= w.Bucket(time) < SampleCount(w.range)
    ensures w.AlignFromStart(time) == Some(w.BucketStart(w.Bucket(time)))
    ensures w.BucketStart(w.Bucket(time)) <= time < w.BucketStart(w.Bucket(time) + 1)
    ensures w.BucketStart(SampleCount(w.range)) == w.End()
  {
    match w.range
    case FifteenMinutes =>
    case OneHour =>
    case SixHours =>
    case TwentyFourHours =>
  }

  lemma BucketStartsDiffer(w: Window, i: int, j: int)
    requires w.BucketStart(i) == w.BucketStart(j)
    ensures i == j
  {
    match w.range
    case FifteenMinutes =>
    case OneHour =>
    case SixHours =>
    case TwentyFourHours =>
  }

  // ---- What the service delivers. ----

  datatype Value = Finite(value: real) | NotFinite

  datatype Point = Point(time: int, value: Value)

  datatype Status = Complete | PartialData | InternalError | Forbidden | Unknown

  datatype Result = Result(id: string, points: seq<Point>, status: Status)

  datatype Page = Page(results: seq<Result>, nextToken: Option<string>, incomplete: bool)

  /** How a request itself can fail. */
  datatype ApiFailure = Denied | StillThrottled | Unavailable

  datatype Response = Delivered(page: Page) | ApiError(failure: ApiFailure)

  datatype FetchError = AccessDenied | Throttled | InvalidTime | PaginationDidNotAdvance | TooManyPages | OtherError

  function ErrorOf(failure: ApiFailure): FetchError {
    match failure
    case Denied => AccessDenied
    case StillThrottled => Throttled
    case Unavailable => OtherError
  }

  /** Every point delivered for a metric, in order, over the results of a page. */
  function PointsOf(results: seq<Result>, id: string): seq<Point> {
    if results == [] then []
    else
      var last := results[|results| - 1];
      PointsOf(results[..|results| - 1], id) + (if last.id == id then last.points else [])
  }

  function AllPoints(pages: seq<Page>, id: string): seq<Point> {
    if pages == [] then []
    else AllPoints(pages[..|pages| - 1], id) + PointsOf(pages[|pages| - 1].results, id)
  }

  predicate Counts(w: Window, point: Point) {
    point.value.Finite? && w.Holds(point.time)
  }

  /** The value of the last finite point in the window that falls into bucket `i`. */
  function LastValue(points: seq<Point>, w: Window, i: int): Option<real> {
    if points == [] then None
    else
      var last := points[|points| - 1];
      if Counts(w, last) && w.Bucket(last.time) == i then Some(last.value.value)
      else LastValue(points[..|points| - 1], w, i)
  }

  function Later(a: Option<int>, time: int): Option<int> {
    if a.None? || a.value < time then Some(time) else a
  }

  /** The latest time of any counting point, continuing from `before`. */
  function LatestPoint(points: seq<Point>, w: Window, before: Option<int>): Option<int> {
    if points == [] then before
    else
      var last := points[|points| - 1];
      var earlier := LatestPoint(points[..|points| - 1], w, before);
      if Counts(w, last) then Later(earlier, last.time) else earlier
  }

  // ---- The buckets of one metric. ----

  type Buckets = map<int, real>

  /** The map holds, at each bucket start, the last value of that bucket, and nothing else. */
  ghost predicate Merged(buckets: Buckets, points: seq<Point>, w: Window) {
    forall i: int ::
      && (w.BucketStart(i) in buckets <==> LastValue(points, w, i).Some?)
      && (w.BucketStart(i) in buckets ==> LastValue(points, w, i) == Some(buckets[w.BucketStart(i)]))
  }

  lemma LastValueAppend(points: seq<Point>, point: Point, w: Window, i: int)
    ensures LastValue(points + [point], w, i)
         == if Counts(w, point) && w.Bucket(point.time) == i then Some(point.value.value)
            else LastValue(points, w, i)
  {
    assert (points + [point])[..|points|] == points;
  }

  lemma MergePoint(buckets: Buckets, points: seq<Point>, point: Point, w: Window)
    requires Merged(buckets, points, w)
    ensures !Counts(w, point) ==> Merged(buckets, points + [point], w)
    ensures Counts(w, point) ==>
              && w.AlignFromStart(point.time).Some?
              && Merged(buckets[w.AlignFromStart(point.time).value := point.value.value], points + [point], w)
  {
    if Counts(w, point) {
      BucketIsSample(w, point.time);
      var k := w.Bucket(point.time);
      var grown := buckets[w.BucketStart(k) := point.value.value];
      forall i: int
        ensures w.BucketStart(i) in grown <==> LastValue(points + [point], w, i).Some?
        ensures w.BucketStart(i) in grown ==>
                  LastValue(points + [point], w, i) == Some(grown[w.BucketStart(i)])
      {
        LastValueAppend(points, point, w, i);
        if w.BucketStart(i) == w.BucketStart(k) {
          BucketStartsDiffer(w, i, k);
        }
      }
    } else {
      forall i: int
        ensures LastValue(points + [point], w, i) == LastValue(points, w, i)
      {
        LastValueAppend(points, point, w, i);
      }
    }
  }

  method MergePoints(before: Buckets, ghost seen: seq<Point>, points: seq<Point>, w: Window)
    returns (buckets: Buckets)
    requires Merged(before, seen, w)
    ensures Merged(buckets, seen + points, w)
  {
    buckets := before;
    var k := 0;
    assert seen + points[..0] == seen;
    while k < |points|
      invariant k <= |points| && Merged(buckets, seen + points[..k], w)
    {
      var point := points[k];
      MergePoint(buckets, seen + points[..k], point, w);
      assert seen + points[..k + 1] == (seen + points[..k]) + [point];
      if Counts(w, point) {
        var bucket := w.AlignFromStart(point.time);
        buckets := buckets[bucket.value := point.value.value];
      }
      k := k + 1;
    }
    assert points[..k] == points;
  }

  // ---- All metrics of a page. ----

  /** What the page loop carries: the buckets, the metrics with incomplete data, the latest sample. */
  datatype Carried = Carried(values: seq<Buckets>, incomplete: set<string>, latest: Option<int>)

  ghost predicate Distinct(ids: seq<string>) {
    forall i, j :: 0 <= i < j < |ids| ==> ids[i] != ids[j]
  }

  /** Every metric's buckets hold the last values of all points of whole pages and of part of the next. */
  ghost predicate AllMerged(values: seq<Buckets>, ids: seq<string>, pages: seq<Page>, results: seq<Result>, w: Window) {
    && |values| == |ids|
    && forall q :: 0 <= q < |ids| ==>
         Merged(values[q], AllPoints(pages, ids[q]) + PointsOf(results, ids[q]), w)
  }

  /** The metrics whose most recent result was not complete. */
  function IncompleteAfter(results: seq<Result>, before: set<string>): set<string> {
    if results == [] then before
    else
      var last := results[|results| - 1];
      var earlier := IncompleteAfter(results[..|results| - 1], before);
      if last.status.Complete? then earlier - {last.id} else earlier + {last.id}
  }

  function LatestAfter(results: seq<Result>, ids: seq<string>, w: Window, before: Option<int>): Option<int> {
    if results == [] then before
    else
      var last := results[|results| - 1];
      var earlier := LatestAfter(results[..|results| - 1], ids, w, before);
      if last.id in ids then LatestPoint(last.points, w, earlier) else earlier
  }

  function IncompleteOver(pages: seq<Page>): set<string> {
    if pages == [] then {}
    else IncompleteAfter(pages[|pages| - 1].results, IncompleteOver(pages[..|pages| - 1]))
  }

  function LatestOver(pages: seq<Page>, ids: seq<string>, w: Window): Option<int> {
    if pages == [] then None
    else LatestAfter(pages[|pages| - 1].results, ids, w, LatestOver(pages[..|pages| - 1], ids, w))
  }

  predicate AnyForbidden(results: seq<Result>) {
    exists k :: 0 <= k < |results| && results[k].status.Forbidden?
  }

  method IndexOf(ids: seq<string>, id: string) returns (r: Option<nat>)
    ensures r.None? ==> id !in ids
    ensures r.Some? ==> r.value < |ids| && ids[r.value] == id
  {
    var q := 0;
    while q < |ids|
      invariant q <= |ids| && id !in ids[..q]
    {
      if ids[q] == id {
        return Some(q);
      }
      q := q + 1;
    }
    return None;
  }

  lemma PointsOfAppend(results: seq<Result>, k: nat, id: string)
    requires k < |results|
    ensures PointsOf(results[..k + 1], id)
         == PointsOf(results[..k], id) + (if results[k].id == id then results[k].points else [])
  {
    assert results[..k + 1][..k] == results[..k];
  }

  lemma MergeResult(values: seq<Buckets>, merged: seq<Buckets>, ids: seq<string>, pages: seq<Page>,
                    results: seq<Result>, k: nat, w: Window)
    requires k < |results| && |merged| == |ids| && AllMerged(values, ids, pages, results[..k], w)
    requires forall q :: 0 <= q < |ids| ==>
               if ids[q] == results[k].id
               then Merged(merged[q], AllPoints(pages, ids[q]) + PointsOf(results[..k], ids[q]) + results[k].points, w)
               else merged[q] == values[q]
    ensures AllMerged(merged, ids, pages, results[..k + 1], w)
  {
    hide Merged;
    forall q | 0 <= q < |ids|
      ensures Merged(merged[q], AllPoints(pages, ids[q]) + PointsOf(results[..k + 1], ids[q]), w)
    {
      PointsOfAppend(results, k, ids[q]);
      var all, part, points := AllPoints(pages, ids[q]), PointsOf(results[..k], ids[q]), results[k].points;
      assert all + (part + points) == all + part + points;
      assert all + (part + []) == all + part;
    }
  }

  method LatestOf(points: seq<Point>, w: Window, before: Option<int>) returns (latest: Option<int>)
    ensures latest == LatestPoint(points, w, before)
  {
    latest := before;
    var k := 0;
    while k < |points|
      invariant k <= |points| && latest == LatestPoint(points[..k], w, before)
    {
      assert points[..k + 1][..k] == points[..k];
      if Counts(w, points[k]) {
        latest := Later(latest, points[k].time);
      }
      k := k + 1;
    }
    assert points[..k] == points;
  }

  /** The loop over the results of one page; None when one of them is forbidden. */
  method MergePage(before: Carried, ids: seq<string>, ghost pages: seq<Page>, results: seq<Result>, w: Window)
    returns (r: Option<Carried>)
    requires Distinct(ids) && AllMerged(before.values, ids, pages, [], w)
    ensures r.None? <==> AnyForbidden(results)
    ensures r.None? <==> exists k :: 0 <= k < |results| && results[k].status == Forbidden
    ensures r.Some? ==>
              && AllMerged(r.value.values, ids, pages, results, w)
              && r.value.incomplete == IncompleteAfter(results, before.incomplete)
              && r.value.latest == LatestAfter(results, ids, w, before.latest)
  {
    hide Merged;
    hide AllPoints;
    hide LatestPoint;
    var values, incomplete, latest := before.values, before.incomplete, before.latest;
    var k := 0;
    assert results[..0] == [];
    while k < |results|
      invariant k <= |results| && !AnyForbidden(results[..k])
      invariant AllMerged(values, ids, pages, results[..k], w)
      invariant incomplete == IncompleteAfter(results[..k], before.incomplete)
      invariant latest == LatestAfter(results[..k], ids, w, before.latest)
    {
      var result := results[k];
      assert results[..k + 1][..k] == results[..k];
      if result.status.Forbidden? {
        return None;
      }
      incomplete := if result.status.Complete? then incomplete - {result.id} else incomplete + {result.id};
      var index := IndexOf(ids, result.id);
      ghost var was := values;
      if index.Some? {
        var q := index.value;
        var buckets := MergePoints(values[q], AllPoints(pages, ids[q]) + PointsOf(results[..k], ids[q]),
                                   result.points, w);
        values := values[q := buckets];
        latest := LatestOf(result.points, w, latest);
      }
      MergeResult(was, values, ids, pages, results, k, w);
      k := k + 1;
    }
    assert results[..k] == results;
    return Some(Carried(values, incomplete, latest));
  }

  // ---- The page loop. ----

  datatype Outcome = Snapshot(samples: seq<seq<Option<real>>>, stale: bool) | Failed(error: FetchError)

  /** The pages are the first answers of the service, each asked for with the token of the one before. */
  ghost predicate Asked(requests: seq<Option<string>>, pages: seq<Page>, api: nat -> Response) {
    && |pages| <= |requests| <= MAX_METRIC_PAGES
    && (forall k :: 0 <= k < |pages| ==> api(k) == Delivered(pages[k]))
    && (requests != [] ==> requests[0] == None)
    && (forall k :: 0 < k < |requests| ==> k <= |pages| && requests[k] == pages[k - 1].nextToken && requests[k].Some?)
    && (forall j, k :: 0 <= j < k < |requests| ==> requests[j] != requests[k])
  }

  lemma AskNext(requests: seq<Option<string>>, pages: seq<Page>, api: nat -> Response, token: Option<string>)
    requires Asked(requests, pages, api) && |pages| == |requests| < MAX_METRIC_PAGES
    requires token == if pages == [] then None else pages[|pages| - 1].nextToken
    requires pages != [] ==> token.Some? && token !in requests
    ensures Asked(requests + [token], pages, api)
  {
  }

  lemma Answered(requests: seq<Option<string>>, pages: seq<Page>, api: nat -> Response, page: Page)
    requires Asked(requests, pages, api) && |requests| == |pages| + 1 && api(|pages|) == Delivered(page)
    ensures Asked(requests, pages + [page], api)
  {
  }

  // ---- When a fetch succeeds, and why it fails. ----

  /** The answer to request `k` is a page without a forbidden result. */
  ghost predicate IsUsable(api: nat -> Response, k: nat) {
    api(k).Delivered? && !AnyForbidden(api(k).page.results)
  }

  /** The first `n` pages are usable, and each has a token that none of the others has. */
  ghost predicate GoesOn(api: nat -> Response, n: nat) {
    && (forall k: nat :: k < n ==> IsUsable(api, k) && api(k).page.nextToken.Some?)
    && (forall j: nat, k: nat :: j < k < n ==> api(j).page.nextToken != api(k).page.nextToken)
  }

  /** The page numbered `n` is the last one. */
  ghost predicate EndsAt(api: nat -> Response, n: nat) {
    n < MAX_METRIC_PAGES && GoesOn(api, n) && IsUsable(api, n) && api(n).page.nextToken.None?
  }

  /** The token of page `n` is that of a page before it. */
  ghost predicate RepeatsAt(api: nat -> Response, n: nat) {
    IsUsable(api, n) && exists j: nat :: j < n && IsUsable(api, j) && api(j).page.nextToken == api(n).page.nextToken
  }

  /** Why paging that went on for `n` pages stops there without a snapshot. */
  ghost predicate FailsAt(api: nat -> Response, n: nat, error: FetchError) {
    GoesOn(api, n)
    && if n == MAX_METRIC_PAGES then error == TooManyPages
       else n < MAX_METRIC_PAGES
            && match api(n)
               case ApiError(failure) => error == ErrorOf(failure)
               case Delivered(page) =>
                 if AnyForbidden(page.results) then error == AccessDenied
                 else page.nextToken.Some? && RepeatsAt(api, n) && error == PaginationDidNotAdvance
  }

  /** Paging that fails somewhere has no last page, and it fails in one way only. */
  lemma FailureIsTheOnlyOne(api: nat -> Response, n: nat, error: FetchError, m: nat, other: FetchError)
    requires FailsAt(api, n, error)
    ensures !EndsAt(api, m)
    ensures FailsAt(api, m, other) ==> m == n && other == error
  {
    hide AnyForbidden;
    if n < m <= MAX_METRIC_PAGES {
      FailsNoFurther(api, n, error, m);
    } else if m < n {
      if FailsAt(api, m, other) {
        FailsNoFurther(api, m, other, n);
      }
      assert IsUsable(api, m) && api(m).page.nextToken.Some?;
    }
  }

  lemma FailsNoFurther(api: nat -> Response, n: nat, error: FetchError, m: nat)
    requires FailsAt(api, n, error) && n < m <= MAX_METRIC_PAGES
    ensures !GoesOn(api, m)
  {
    hide AnyForbidden;
  }

  lemma FailureExcludesEnd(api: nat -> Response, n: nat, error: FetchError)
    requires FailsAt(api, n, error)
    ensures !exists m: nat :: EndsAt(api, m)
  {
    hide FailsAt;
    hide EndsAt;
    forall m: nat
      ensures !EndsAt(api, m)
    {
      FailureIsTheOnlyOne(api, n, error, m, error);
    }
  }

  lemma RequestFails(api: nat -> Response, n: nat, failure: ApiFailure)
    requires GoesOn(api, n) && n < MAX_METRIC_PAGES && api(n) == ApiError(failure)
    ensures FailsAt(api, n, ErrorOf(failure)) && !exists m: nat :: EndsAt(api, m)
  {
    FailureExcludesEnd(api, n, ErrorOf(failure));
  }

  lemma ForbiddenFails(api: nat -> Response, n: nat)
    requires GoesOn(api, n) && n < MAX_METRIC_PAGES && api(n).Delivered? && AnyForbidden(api(n).page.results)
    ensures FailsAt(api, n, AccessDenied) && !exists m: nat :: EndsAt(api, m)
  {
    FailureExcludesEnd(api, n, AccessDenied);
  }

  lemma BoundFails(api: nat -> Response)
    requires GoesOn(api, MAX_METRIC_PAGES)
    ensures FailsAt(api, MAX_METRIC_PAGES, TooManyPages) && !exists m: nat :: EndsAt(api, m)
  {
    FailureExcludesEnd(api, MAX_METRIC_PAGES, TooManyPages);
  }

  lemma GoesOnByOne(api: nat -> Response, pages: seq<Page>, requests: seq<Option<string>>)
    requires Asked(requests, pages, api) && |pages| == |requests| > 0 && GoesOn(api, |pages| - 1)
    requires !AnyForbidden(pages[|pages| - 1].results) && pages[|pages| - 1].nextToken.Some?
    requires pages[|pages| - 1].nextToken !in requests
    ensures GoesOn(api, |pages|)
  {
    hide AnyForbidden;
    var n := |pages| - 1;
    assert api(n) == Delivered(pages[n]);
    forall j: nat | j < n
      ensures api(j).page.nextToken != api(n).page.nextToken
    {
      assert requests[j + 1] == pages[j].nextToken && api(j) == Delivered(pages[j]);
    }
  }

  lemma RepeatFound(api: nat -> Response, pages: seq<Page>, requests: seq<Option<string>>)
    requires Asked(requests, pages, api) && |pages| == |requests| > 0 && GoesOn(api, |pages| - 1)
    requires !AnyForbidden(pages[|pages| - 1].results) && pages[|pages| - 1].nextToken.Some?
    requires pages[|pages| - 1].nextToken in requests
    ensures FailsAt(api, |pages| - 1, PaginationDidNotAdvance)
  {
    hide AnyForbidden;
    var n := |pages| - 1;
    assert api(n) == Delivered(pages[n]);
    var k: nat :| k < |requests| && requests[k] == pages[n].nextToken;
    assert api(k - 1) == Delivered(pages[k - 1]) && IsUsable(api, k - 1);
  }

  /** What a successful fetch shows. */
  ghost predicate Shows(samples: seq<seq<Option<real>>>, ids: seq<string>, pages: seq<Page>, w: Window) {
    && |samples| == |ids|
    && forall q :: 0 <= q < |ids| ==>
         && |samples[q]| == SampleCount(w.range)
         && forall i :: 0 <= i < SampleCount(w.range) ==> samples[q][i] == LastValue(AllPoints(pages, ids[q]), w, i)
  }

  function StaleBefore(w: Window): int {
    w.End() - 2 * PeriodSeconds(w.range) * NANOS
  }

  predicate IsStale(pages: seq<Page>, ids: seq<string>, w: Window) {
    || (pages != [] && pages[|pages| - 1].incomplete)
    || IncompleteOver(pages) != {}
    || (LatestOver(pages, ids, w).Some? && LatestOver(pages, ids, w).value < StaleBefore(w))
  }

  method ReadSamples(values: seq<Buckets>, ghost ids: seq<string>, ghost pages: seq<Page>, w: Window)
    returns (samples: seq<seq<Option<real>>>)
    requires AllMerged(values, ids, pages, [], w)
    ensures Shows(samples, ids, pages, w)
  {
    samples := [];
    while |samples| < |values|
      invariant |samples| <= |values|
      invariant forall q :: 0 <= q < |samples| ==>
                  && |samples[q]| == SampleCount(w.range)
                  && forall i :: 0 <= i < SampleCount(w.range) ==>
                       samples[q][i] == LastValue(AllPoints(pages, ids[q]), w, i)
    {
      var q := |samples|;
      assert AllPoints(pages, ids[q]) + PointsOf([], ids[q]) == AllPoints(pages, ids[q]);
      var row := ReadRow(values[q], AllPoints(pages, ids[q]), w);
      samples := samples + [row];
    }
  }

  method ReadRow(buckets: Buckets, ghost points: seq<Point>, w: Window) returns (row: seq<Option<real>>)
    requires Merged(buckets, points, w)
    ensures |row| == SampleCount(w.range)
    ensures forall i :: 0 <= i < |row| ==> row[i] == LastValue(points, w, i)
  {
    row := [];
    while |row| < SampleCount(w.range)
      invariant |row| <= SampleCount(w.range)
      invariant forall i :: 0 <= i < |row| ==> row[i] == LastValue(points, w, i)
    {
      var start := w.BucketStart(|row|);
      row := row + [if start in buckets then Some(buckets[start]) else None];
    }
  }

  lemma PageMerged(values: seq<Buckets>, ids: seq<string>, pages: seq<Page>, page: Page, w: Window)
    requires AllMerged(values, ids, pages, page.results, w)
    ensures AllMerged(values, ids, pages + [page], [], w)
  {
    hide Merged;
    assert (pages + [page])[..|pages|] == pages;
    forall q | 0 <= q < |ids|
      ensures Merged(values[q], AllPoints(pages + [page], ids[q]) + PointsOf([], ids[q]), w)
    {
      var all := AllPoints(pages, ids[q]) + PointsOf(page.results, ids[q]);
      assert all + [] == all;
    }
  }

  /** The loop's state after some whole pages. */
  ghost predicate Folded(c: Carried, ids: seq<string>, pages: seq<Page>, w: Window) {
    && AllMerged(c.values, ids, pages, [], w)
    && c.incomplete == IncompleteOver(pages)
    && c.latest == LatestOver(pages, ids, w)
  }

  lemma FoldPage(before: Carried, after: Carried, ids: seq<string>, pages: seq<Page>, page: Page, w: Window)
    requires Folded(before, ids, pages, w)
    requires AllMerged(after.values, ids, pages, page.results, w)
    requires after.incomplete == IncompleteAfter(page.results, before.incomplete)
    requires after.latest == LatestAfter(page.results, ids, w, before.latest)
    ensures Folded(after, ids, pages + [page], w)
  {
    PageMerged(after.values, ids, pages, page, w);
    assert (pages + [page])[..|pages|] == pages;
  }

  /** One page on top of the pages so far; None when it holds a forbidden result. */
  method TakePage(before: Carried, ids: seq<string>, ghost pages: seq<Page>, page: Page, w: Window)
    returns (r: Option<Carried>)
    requires Distinct(ids) && Folded(before, ids, pages, w)
    ensures r.None? <==> AnyForbidden(page.results)
    ensures r.Some? ==> Folded(r.value, ids, pages + [page], w)
  {
    hide Folded;
    hide AnyForbidden;
    hide IncompleteAfter;
    hide LatestAfter;
    FoldedMerged(before, ids, pages, w);
    r := MergePage(before, ids, pages, page.results, w);
    if r.Some? {
      FoldPage(before, r.value, ids, pages, page, w);
    }
  }

  /** What the page loop knows before each request. */
  ghost predicate Paging(requests: seq<Option<string>>, pages: seq<Page>, nextToken: Option<string>,
                         seenTokens: set<string>, api: nat -> Response)
  {
    && |pages| == |requests| && Asked(requests, pages, api) && GoesOn(api, |pages|)
    && nextToken == (if pages == [] then None else pages[|pages| - 1].nextToken)
    && (pages != [] ==> nextToken.Some? && nextToken !in requests)
    && forall token :: token in seenTokens <==> Some(token) in requests || Some(token) == nextToken
  }

  lemma PagingStarts(api: nat -> Response)
    ensures Paging([], [], None, {}, api)
  {
  }

  lemma PagingAsks(requests: seq<Option<string>>, pages: seq<Page>, nextToken: Option<string>,
                   seenTokens: set<string>, api: nat -> Response)
    requires Paging(requests, pages, nextToken, seenTokens, api) && |requests| < MAX_METRIC_PAGES
    ensures Asked(requests + [nextToken], pages, api) && GoesOn(api, |pages|)
  {
    hide GoesOn;
    AskNext(requests, pages, api, nextToken);
  }

  /** A usable page is the last one, repeats a token, or lets the loop go on. */
  lemma PagingTurns(requests: seq<Option<string>>, pages: seq<Page>, nextToken: Option<string>,
                    seenTokens: set<string>, api: nat -> Response, page: Page)
    requires Paging(requests, pages, nextToken, seenTokens, api) && |requests| < MAX_METRIC_PAGES
    requires api(|pages|) == Delivered(page) && !AnyForbidden(page.results)
    ensures Asked(requests + [nextToken], pages + [page], api)
    ensures match page.nextToken
            case None => EndsAt(api, |pages|)
            case Some(token) =>
              if token in seenTokens then FailsAt(api, |pages|, PaginationDidNotAdvance)
              else Paging(requests + [nextToken], pages + [page], page.nextToken, seenTokens + {token}, api)
  {
    hide AnyForbidden;
    hide Asked;
    hide FailsAt;
    hide GoesOn;
    AskNext(requests, pages, api, nextToken);
    Answered(requests + [nextToken], pages, api, page);
    if page.nextToken.Some? {
      if page.nextToken.value in seenTokens {
        RepeatFound(api, pages + [page], requests + [nextToken]);
      } else {
        GoesOnByOne(api, pages + [page], requests + [nextToken]);
      }
    }
  }

  /** The loop over the pages of one window. */
  method ReadPages(ids: seq<string>, window: Window, api: nat -> Response)
    returns (outcome: Outcome, requests: seq<Option<string>>, ghost pages: seq<Page>)
    requires Distinct(ids)
    ensures Asked(requests, pages, api) && outcome != Failed(InvalidTime)
    ensures outcome.Snapshot? <==> exists n: nat :: EndsAt(api, n)
    ensures outcome.Snapshot? ==>
              && pages != [] && |pages| == |requests| && EndsAt(api, |pages| - 1)
              && Shows(outcome.samples, ids, pages, window)
              && outcome.stale == IsStale(pages, ids, window)
    ensures outcome.Failed? ==>
              exists n: nat :: |requests| == (if n == MAX_METRIC_PAGES then n else n + 1) && FailsAt(api, n, outcome.error)
  {
    hide Asked;
    hide Shows;
    hide IsStale;
    hide Folded;
    requests, pages := [], [];
    var carried := Carried(seq(|ids|, _ => map[]), {}, None);
    StartFolded(carried.values, ids, window);
    var nextToken: Option<string> := None;
    var seenTokens: set<string> := {};
    PagingStarts(api);
    while |requests| < MAX_METRIC_PAGES
      invariant |requests| == |pages| <= MAX_METRIC_PAGES
      invariant Paging(requests, pages, nextToken, seenTokens, api)
      invariant Folded(carried, ids, pages, window)
    {
      hide Paging;
      hide GoesOn;
      hide FailsAt;
      hide EndsAt;
      hide AnyForbidden;
      PagingAsks(requests, pages, nextToken, seenTokens, api);
      var response := api(|requests|);
      ghost var asked := requests;
      requests := requests + [nextToken];
      if response.ApiError? {
        RequestFails(api, |pages|, response.failure);
        return Failed(ErrorOf(response.failure)), requests, pages;
      }
      var page := response.page;
      var merged := TakePage(carried, ids, pages, page, window);
      if merged.None? {
        ForbiddenFails(api, |pages|);
        return Failed(AccessDenied), requests, pages;
      }
      carried := merged.value;
      PagingTurns(asked, pages, nextToken, seenTokens, api, page);
      pages := pages + [page];
      if page.nextToken.None? {
        var samples := FinishSamples(carried, ids, pages, window);
        var stale := page.incomplete || carried.incomplete != {}
                     || (carried.latest.Some? && carried.latest.value < StaleBefore(window));
        FoldedStale(carried, ids, pages, window);
        return Snapshot(samples, stale), requests, pages;
      }
      var token := page.nextToken.value;
      if token in seenTokens {
        FailureExcludesEnd(api, |pages| - 1, PaginationDidNotAdvance);
        return Failed(PaginationDidNotAdvance), requests, pages;
      }
      seenTokens := seenTokens + {token};
      nextToken := Some(token);
    }
    BoundFails(api);
    return Failed(TooManyPages), requests, pages;
  }

  /**
   * Page after page until one has no token. There is a snapshot exactly when the
   * service comes to a last page within the bound, with no page before it failing,
   * forbidden or repeating a token; it then shows, for each metric and bucket, the
   * last finite value in the window over all pages. Every failure has its one reason.
   */
  method Fetch(ids: seq<string>, range: Range, now: int, api: nat -> Response)
    returns (outcome: Outcome, requests: seq<Option<string>>, ghost pages: seq<Page>, ghost w: Window)
    requires Distinct(ids)
    ensures now < 0 <==> outcome == Failed(InvalidTime)
    ensures now < 0 ==> requests == []
    ensures now >= 0 ==>
              && w.range == range && w.End() % NANOS == 0 && (w.End() / NANOS) % PeriodSeconds(range) == 0
              && w.End() <= now < w.End() + PeriodSeconds(range) * NANOS
              && Asked(requests, pages, api)
    ensures outcome.Snapshot? <==> now >= 0 && exists n: nat :: EndsAt(api, n)
    ensures outcome.Snapshot? ==>
              && pages != [] && |pages| == |requests| && EndsAt(api, |pages| - 1)
              && Shows(outcome.samples, ids, pages, w)
              && outcome.stale == IsStale(pages, ids, w)
    ensures outcome.Failed? && now >= 0 ==>
              exists n: nat :: |requests| == (if n == MAX_METRIC_PAGES then n else n + 1) && FailsAt(api, n, outcome.error)
  {
    requests, pages, w := [], [], Window(range, 0);
    var end := AlignToPeriod(now, range);
    if end.None? {
      return Failed(InvalidTime), requests, pages, w;
    }
    AlignedEnd(now, range);
    var window := Window(range, end.value - DurationSeconds(range) * NANOS);
    w := window;
    outcome, requests, pages := ReadPages(ids, window, api);
  }

  lemma WholeNanos(seconds: int)
    ensures (seconds * NANOS) % NANOS == 0 && (seconds * NANOS) / NANOS == seconds
  {
  }

  lemma WholeMinutes(seconds: int)
    ensures (seconds - seconds % 60) % 60 == 0
  {
  }

  lemma WholeFiveMinutes(seconds: int)
    ensures (seconds - seconds % 300) % 300 == 0
  {
  }

  lemma WholeQuarters(seconds: int)
    ensures (seconds - seconds % 900) % 900 == 0
  {
  }

  lemma WholePeriods(seconds: int, range: Range)
    ensures (seconds - seconds % PeriodSeconds(range)) % PeriodSeconds(range) == 0
  {
    match range
    case FifteenMinutes => WholeMinutes(seconds);
    case OneHour => WholeMinutes(seconds);
    case SixHours => WholeFiveMinutes(seconds);
    case TwentyFourHours => WholeQuarters(seconds);
  }

  lemma AlignedEnd(now: int, range: Range)
    requires now >= 0
    ensures var end := AlignToPeriod(now, range).value;
            && end % NANOS == 0 && (end / NANOS) % PeriodSeconds(range) == 0
            && end <= now < end + PeriodSeconds(range) * NANOS
  {
    var seconds := now / NANOS;
    WholePeriods(seconds, range);
    WholeNanos(seconds - seconds % PeriodSeconds(range));
    match range
    case FifteenMinutes =>
    case OneHour =>
    case SixHours =>
    case TwentyFourHours =>
  }

  lemma StartFolded(values: seq<Buckets>, ids: seq<string>, w: Window)
    requires |values| == |ids| && forall q :: 0 <= q < |ids| ==> values[q] == map[]
    ensures Folded(Carried(values, {}, None), ids, [], w)
  {
  }

  lemma FoldedMerged(c: Carried, ids: seq<string>, pages: seq<Page>, w: Window)
    requires Folded(c, ids, pages, w)
    ensures AllMerged(c.values, ids, pages, [], w)
    ensures c.incomplete == IncompleteOver(pages) && c.latest == LatestOver(pages, ids, w)
  {
  }

  lemma FoldedStale(c: Carried, ids: seq<string>, pages: seq<Page>, w: Window)
    requires Folded(c, ids, pages, w) && pages != []
    ensures IsStale(pages, ids, w) <==>
              || pages[|pages| - 1].incomplete || c.incomplete != {}
              || (c.latest.Some? && c.latest.value < StaleBefore(w))
  {
  }

  method FinishSamples(c: Carried, ids: seq<string>, ghost pages: seq<Page>, w: Window)
    returns (samples: seq<seq<Option<real>>>)
    requires Folded(c, ids, pages, w)
    ensures Shows(samples, ids, pages, w)
  {
    samples := ReadSamples(c.values, ids, pages, w);
  }
}
