// What the merged metrics mean, point by point and result by result, without the
// recursions that compute them (src/aws/metrics.rs).

module MetricsLaws {
  import opened Wrappers
  import opened Metrics

  // ---- Samples. ----

  /** A finite point in the window that falls into bucket `i`. */
  predicate FallsInto(point: Point, w: Window, i: int) {
    && point.value.Finite?
    && w.start <= point.time < w.start + DurationSeconds(w.range) * NANOS
    && w.BucketStart(i) <= point.time < w.BucketStart(i + 1)
  }

  lemma BucketByBounds(w: Window, time: int, i: int)
    requires w.Holds(time)
    ensures w.Bucket(time) == i <==> w.BucketStart(i) <= time < w.BucketStart(i + 1)
  {
    BucketIsSample(w, time);
    match w.range
    case FifteenMinutes =>
    case OneHour =>
    case SixHours =>
    case TwentyFourHours =>
  }

  lemma FallsIntoMeans(point: Point, w: Window, i: int)
    ensures FallsInto(point, w, i) <==> Counts(w, point) && w.Bucket(point.time) == i
  {
    if Counts(w, point) {
      BucketByBounds(w, point.time, i);
    }
  }

  /** Point `k` is the last one that falls into the bucket. */
  predicate IsLastIn(points: seq<Point>, w: Window, i: int, k: nat) {
    k < |points| && FallsInto(points[k], w, i)
    && forall l :: k < l < |points| ==> !FallsInto(points[l], w, i)
  }

  /** A sample is the value of the last point that falls into its bucket, and is missing if none does. */
  lemma {:induction false} LastValueMeans(points: seq<Point>, w: Window, i: int) returns (k: nat)
    ensures match LastValue(points, w, i)
            case Some(v) => IsLastIn(points, w, i, k) && points[k].value == Finite(v)
            case None => forall l :: 0 <= l < |points| ==> !FallsInto(points[l], w, i)
  {
    hide FallsInto;
    k := 0;
    if points != [] {
      var n := |points| - 1;
      FallsIntoMeans(points[n], w, i);
      if FallsInto(points[n], w, i) {
        k := n;
      } else {
        var before := points[..n];
        k := LastValueMeans(before, w, i);
        assert forall l :: 0 <= l < n ==> before[l] == points[l];
      }
    }
  }

  // ---- All results of all pages, in order. ----

  function AllResults(pages: seq<Page>): seq<Result> {
    if pages == [] then [] else AllResults(pages[..|pages| - 1]) + pages[|pages| - 1].results
  }

  lemma {:induction false} IncompleteConcat(a: seq<Result>, b: seq<Result>, before: set<string>)
    ensures IncompleteAfter(a + b, before) == IncompleteAfter(b, IncompleteAfter(a, before))
    decreases |b|
  {
    if b == [] {
      assert a + b == a;
    } else {
      var n := |b| - 1;
      assert (a + b)[..|a + b| - 1] == a + b[..n] && (a + b)[|a + b| - 1] == b[n];
      IncompleteConcat(a, b[..n], before);
    }
  }

  lemma {:induction false} LatestConcat(a: seq<Result>, b: seq<Result>, ids: seq<string>, w: Window, before: Option<int>)
    ensures LatestAfter(a + b, ids, w, before) == LatestAfter(b, ids, w, LatestAfter(a, ids, w, before))
    decreases |b|
  {
    if b == [] {
      assert a + b == a;
    } else {
      var n := |b| - 1;
      assert (a + b)[..|a + b| - 1] == a + b[..n] && (a + b)[|a + b| - 1] == b[n];
      LatestConcat(a, b[..n], ids, w, before);
    }
  }

  lemma {:induction false} OverAllResults(pages: seq<Page>, ids: seq<string>, w: Window)
    ensures IncompleteOver(pages) == IncompleteAfter(AllResults(pages), {})
    ensures LatestOver(pages, ids, w) == LatestAfter(AllResults(pages), ids, w, None)
  {
    if pages != [] {
      var n := |pages| - 1;
      OverAllResults(pages[..n], ids, w);
      IncompleteConcat(AllResults(pages[..n]), pages[n].results, {});
      LatestConcat(AllResults(pages[..n]), pages[n].results, ids, w, None);
    }
  }

  /** The last result for a metric is not complete. */
  predicate EndsIncomplete(results: seq<Result>, id: string) {
    exists k :: 0 <= k < |results| && results[k].id == id && !results[k].status.Complete?
                && forall l :: k < l < |results| ==> results[l].id != id
  }

  lemma {:induction false} IncompleteMeans(results: seq<Result>, id: string)
    ensures id in IncompleteAfter(results, {}) <==> EndsIncomplete(results, id)
  {
    if results != [] {
      var n := |results| - 1;
      var before := results[..n];
      IncompleteMeans(before, id);
      if results[n].id == id {
        if !results[n].status.Complete? {
          assert EndsIncomplete(results, id);
        }
      } else {
        if EndsIncomplete(before, id) {
          var k :| 0 <= k < n && before[k].id == id && !before[k].status.Complete?
                   && forall l :: k < l < n ==> before[l].id != id;
          assert results[k] == before[k];
          assert forall l :: k < l < n ==> results[l] == before[l];
          assert EndsIncomplete(results, id);
        }
        if EndsIncomplete(results, id) {
          var k :| 0 <= k < |results| && results[k].id == id && !results[k].status.Complete?
                   && forall l :: k < l < |results| ==> results[l].id != id;
          assert before[k] == results[k];
          assert forall l :: k < l < n ==> before[l] == results[l];
          assert EndsIncomplete(before, id);
        }
      }
    }
  }

  // ---- The latest sample. ----

  /** A finite point in the window was delivered at this time, for one of the metrics. */
  predicate IsSampled(results: seq<Result>, ids: seq<string>, w: Window, time: int) {
    exists r, k :: 0 <= r < |results| && results[r].id in ids && 0 <= k < |results[r].points|
                   && Counts(w, results[r].points[k]) && results[r].points[k].time == time
  }

  lemma {:induction false} LatestPointMeans(points: seq<Point>, w: Window, before: Option<int>)
    ensures match LatestPoint(points, w, before)
            case None => before == None && forall k :: 0 <= k < |points| ==> !Counts(w, points[k])
            case Some(t) =>
              && (before == Some(t) || exists k :: 0 <= k < |points| && Counts(w, points[k]) && points[k].time == t)
              && (before.Some? ==> before.value <= t)
              && forall k :: 0 <= k < |points| && Counts(w, points[k]) ==> points[k].time <= t
  {
    hide Counts;
    if points != [] {
      var n := |points| - 1;
      var earlier := points[..n];
      LatestPointMeans(earlier, w, before);
      assert forall k :: 0 <= k < n ==> earlier[k] == points[k];
    }
  }

  lemma SampledByOne(results: seq<Result>, ids: seq<string>, w: Window, time: int)
    requires results != []
    ensures var n := |results| - 1;
            IsSampled(results, ids, w, time)
            <==> || IsSampled(results[..n], ids, w, time)
                 || (results[n].id in ids
                     && exists k :: 0 <= k < |results[n].points| && Counts(w, results[n].points[k])
                                    && results[n].points[k].time == time)
  {
    hide Counts;
    var n := |results| - 1;
    var before := results[..n];
    if IsSampled(before, ids, w, time) {
      var r, k :| 0 <= r < |before| && before[r].id in ids && 0 <= k < |before[r].points|
                  && Counts(w, before[r].points[k]) && before[r].points[k].time == time;
      assert results[r] == before[r];
    }
    if IsSampled(results, ids, w, time) {
      var r, k :| 0 <= r < |results| && results[r].id in ids && 0 <= k < |results[r].points|
                  && Counts(w, results[r].points[k]) && results[r].points[k].time == time;
      if r < n {
        assert before[r] == results[r];
      }
    }
  }

  /** The latest sample is the greatest time of any sampled point. */
  lemma {:induction false} LatestMeans(results: seq<Result>, ids: seq<string>, w: Window)
    ensures match LatestAfter(results, ids, w, None)
            case None => forall t :: !IsSampled(results, ids, w, t)
            case Some(latest) =>
              && IsSampled(results, ids, w, latest)
              && forall t :: IsSampled(results, ids, w, t) ==> t <= latest
  {
    hide Counts;
    if results != [] {
      var n := |results| - 1;
      var before := results[..n];
      LatestMeans(before, ids, w);
      LatestPointMeans(results[n].points, w, LatestAfter(before, ids, w, None));
      forall t: int
        ensures IsSampled(results, ids, w, t)
           <==> || IsSampled(before, ids, w, t)
                || (results[n].id in ids
                    && exists k :: 0 <= k < |results[n].points| && Counts(w, results[n].points[k])
                                   && results[n].points[k].time == t)
      {
        SampledByOne(results, ids, w, t);
      }
    }
  }

  /**
   * A snapshot is stale exactly when the last page was incomplete, the last result for
   * some metric was not complete, or something was sampled, but nothing in the last two
   * periods of the window.
   */
  lemma StaleMeans(pages: seq<Page>, ids: seq<string>, w: Window)
    ensures IsStale(pages, ids, w)
       <==> || (pages != [] && pages[|pages| - 1].incomplete)
            || (exists id :: EndsIncomplete(AllResults(pages), id))
            || (&& (exists t :: IsSampled(AllResults(pages), ids, w, t))
                && forall t :: IsSampled(AllResults(pages), ids, w, t) ==>
                     t < w.End() - 2 * PeriodSeconds(w.range) * 1_000_000_000)
  {
    hide EndsIncomplete;
    hide IsSampled;
    var results := AllResults(pages);
    OverAllResults(pages, ids, w);
    LatestMeans(results, ids, w);
    if IncompleteOver(pages) != {} {
      var id :| id in IncompleteOver(pages);
      IncompleteMeans(results, id);
    }
    if id :| EndsIncomplete(results, id) {
      IncompleteMeans(results, id);
    }
  }

  // ---- Failures. ----

  /** What each error of a fetch says about the page it stopped at. */
  lemma FailureMeans(api: nat -> Response, n: nat)
    requires GoesOn(api, n)
    ensures FailsAt(api, n, TooManyPages) <==> n == 1000
    ensures FailsAt(api, n, Throttled) <==> n < 1000 && api(n) == ApiError(StillThrottled)
    ensures FailsAt(api, n, OtherError) <==> n < 1000 && api(n) == ApiError(Unavailable)
    ensures FailsAt(api, n, AccessDenied)
       <==> && n < 1000
            && match api(n)
               case ApiError(failure) => failure == Denied
               case Delivered(page) => exists k :: 0 <= k < |page.results| && page.results[k].status == Forbidden
    ensures FailsAt(api, n, PaginationDidNotAdvance)
       <==> && n < 1000 && api(n).Delivered?
            && (forall k :: 0 <= k < |api(n).page.results| ==> api(n).page.results[k].status != Forbidden)
            && api(n).page.nextToken.Some?
            && exists j: nat :: j < n && api(j).Delivered? && api(j).page.nextToken == api(n).page.nextToken
  {
    hide AnyForbidden;
    if n < 1000 && api(n).Delivered? {
      ForbiddenMeans(api(n).page.results);
    }
  }

  lemma ForbiddenMeans(results: seq<Result>)
    ensures AnyForbidden(results) <==> exists k :: 0 <= k < |results| && results[k].status == Forbidden
  {
  }
}
