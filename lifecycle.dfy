/**
 Value-level definitions of the track lifecycle: a track's sample history, the
 filter that turns the active id list into the survivors of one frame, what one
 frame does to the histories and render trails, seeding, the consistency of the
 whole state, the last positions of the active tracks, and the exported row
 table.
 */
module Lifecycle {
  import opened Flow
  import opened Trail

  /** One accepted observation of a track: frame index and position. */
  datatype Sample = Sample(frame: nat, x: real, y: real)

  /** One exported row: track id, frame index, position. */
  datatype Row = Row(trackId: nat, frame: nat, x: real, y: real)

  function Last(h: seq<Sample>): Sample
    requires |h| > 0
  {
    h[|h| - 1]
  }

  function LastPoint(h: seq<Sample>): Point
    requires |h| > 0
  {
    Point(Last(h).x, Last(h).y)
  }

  /** A history starts at its creation frame and then has one sample per
      frame, with no frame skipped. */
  ghost predicate Consecutive(h: seq<Sample>)
  {
    |h| > 0 && forall i | 0 <= i < |h| :: h[i].frame == h[0].frame + i
  }

  ghost predicate FramesIncrease(h: seq<Sample>)
  {
    forall i, j | 0 <= i < j < |h| :: h[i].frame < h[j].frame
  }

  ghost predicate StrictlyIncreasing(s: seq<nat>)
  {
    forall i, j | 0 <= i < j < |s| :: s[i] < s[j]
  }

  /** The ids `start`, `start + 1`, ..., `start + n - 1`, in that order. */
  function IdRange(start: nat, n: nat): seq<nat>
  {
    seq(n, i requires 0 <= i < n => start + i)
  }

  /** A history grown by one sample of the next frame stays consecutive. */
  lemma AppendNextFrame(h: seq<Sample>, s: Sample)
    requires Consecutive(h) && s.frame == Last(h).frame + 1
    ensures Consecutive(h + [s]) && Last(h + [s]) == s
  {
  }

  lemma ConsecutiveFramesIncrease(h: seq<Sample>)
    requires Consecutive(h)
    ensures FramesIncrease(h)
    ensures forall i | 0 <= i < |h| :: h[i].frame <= Last(h).frame
  {
  }

  /** The ids of `ids` whose flow result is accepted, in their original order. */
  function Survivors(ids: seq<nat>, flows: seq<FlowResult>, w: int, h: int): (r: seq<nat>)
    requires |flows| == |ids|
    ensures |r| <= |ids|
    ensures forall k | k in r :: k in ids
  {
    if ids == [] then []
    else
      var n := |ids| - 1;
      Survivors(ids[..n], flows[..n], w, h) + (if Accept(flows[n], w, h) then [ids[n]] else [])
  }

  /** An id survives exactly when one of its positions in the list carries an
      accepted flow result. */
  lemma {:induction false} SurvivorsMembers(ids: seq<nat>, flows: seq<FlowResult>, w: int, h: int, k: nat)
    requires |flows| == |ids|
    ensures k in Survivors(ids, flows, w, h) <==>
            exists i | 0 <= i < |ids| :: ids[i] == k && Accept(flows[i], w, h)
  {
    if ids != [] {
      var n := |ids| - 1;
      SurvivorsMembers(ids[..n], flows[..n], w, h, k);
      if k in Survivors(ids, flows, w, h) {
        if k in Survivors(ids[..n], flows[..n], w, h) {
          var i :| 0 <= i < n && ids[..n][i] == k && Accept(flows[..n][i], w, h);
          assert ids[i] == k && Accept(flows[i], w, h);
        } else {
          assert ids[n] == k && Accept(flows[n], w, h);
        }
      }
      if exists i | 0 <= i < |ids| :: ids[i] == k && Accept(flows[i], w, h) {
        var i :| 0 <= i < |ids| && ids[i] == k && Accept(flows[i], w, h);
        if i < n {
          assert ids[..n][i] == k && Accept(flows[..n][i], w, h);
        }
      }
    }
  }

  /** Filtering keeps the order: a strictly increasing id list stays strictly
      increasing. */
  lemma {:induction false} SurvivorsOrdered(ids: seq<nat>, flows: seq<FlowResult>, w: int, h: int)
    requires |flows| == |ids|
    requires StrictlyIncreasing(ids)
    ensures StrictlyIncreasing(Survivors(ids, flows, w, h))
  {
    if ids != [] {
      var n := |ids| - 1;
      var prefix := Survivors(ids[..n], flows[..n], w, h);
      SurvivorsOrdered(ids[..n], flows[..n], w, h);
      if Accept(flows[n], w, h) {
        forall k | k in prefix
          ensures k < ids[n]
        {
          assert k in ids[..n];
        }
        var r := prefix + [ids[n]];
        forall i, j | 0 <= i < j < |r|
          ensures r[i] < r[j]
        {
          if j == |prefix| {
            assert r[i] in prefix;
          }
        }
      }
    }
  }

  /** The outcome for one track depends only on that track's own flow result:
      changing the results of the other tracks never changes it. */
  lemma SurvivorsIndependent(ids: seq<nat>, flows: seq<FlowResult>, flows': seq<FlowResult>,
                             w: int, h: int, i: nat)
    requires |flows| == |ids| && |flows'| == |ids|
    requires StrictlyIncreasing(ids)
    requires i < |ids| && flows[i] == flows'[i]
    ensures ids[i] in Survivors(ids, flows, w, h) <==> Accept(flows[i], w, h)
    ensures ids[i] in Survivors(ids, flows, w, h) <==> ids[i] in Survivors(ids, flows', w, h)
  {
    SurvivorsMembers(ids, flows, w, h, ids[i]);
    SurvivorsMembers(ids, flows', w, h, ids[i]);
  }

  /** The current position of each listed track, in list order. */
  function LastPoints(tracks: map<nat, seq<Sample>>, ids: seq<nat>): seq<Point>
    requires forall k | k in ids :: k in tracks && |tracks[k]| > 0
  {
    seq(|ids|, i requires 0 <= i < |ids| => LastPoint(tracks[ids[i]]))
  }

  /** Listing more tracks after `ids` leaves the positions of `ids` as they
      were, as long as their histories are unchanged. */
  lemma LastPointsPrefix(tracks: map<nat, seq<Sample>>, tracks': map<nat, seq<Sample>>,
                         ids: seq<nat>, more: seq<nat>)
    requires forall k | k in ids :: k in tracks && |tracks[k]| > 0 && k in tracks' && tracks'[k] == tracks[k]
    requires forall k | k in more :: k in tracks' && |tracks'[k]| > 0
    ensures LastPoints(tracks', ids + more)[..|ids|] == LastPoints(tracks, ids)
  {
    var all := ids + more;
    forall i | 0 <= i < |ids|
      ensures LastPoints(tracks', all)[i] == LastPoints(tracks, ids)[i]
    {
      assert all[i] == ids[i] && ids[i] in ids;
    }
  }

  /** One row per sample of one track, in sample order. */
  function TrackRows(id: nat, h: seq<Sample>): seq<Row>
  {
    seq(|h|, i requires 0 <= i < |h| => Row(id, h[i].frame, h[i].x, h[i].y))
  }

  /** The rows of tracks 0 .. n - 1, grouped by track in id order. */
  function Table(tracks: map<nat, seq<Sample>>, n: nat): (rows: seq<Row>)
    requires forall k: nat | k < n :: k in tracks
    ensures forall r | r in rows :: r.trackId < n
  {
    if n == 0 then [] else Table(tracks, n - 1) + TrackRows(n - 1, tracks[n - 1])
  }

  /** Rows are grouped by track in increasing id, and inside a track frame
      indices increase. */
  ghost predicate Grouped(rows: seq<Row>)
  {
    forall i, j | 0 <= i < j < |rows| ::
      rows[i].trackId < rows[j].trackId ||
      (rows[i].trackId == rows[j].trackId && rows[i].frame < rows[j].frame)
  }

  /** A row is in the table exactly when it is a sample of one of the tracks. */
  lemma {:induction false} TableMembers(tracks: map<nat, seq<Sample>>, n: nat, r: Row)
    requires forall k: nat | k < n :: k in tracks
    ensures r in Table(tracks, n) <==>
            r.trackId < n && Sample(r.frame, r.x, r.y) in tracks[r.trackId]
  {
    if n > 0 {
      TableMembers(tracks, n - 1, r);
      var h := tracks[n - 1];
      var rows := TrackRows(n - 1, h);
      if r in rows {
        var i :| 0 <= i < |rows| && rows[i] == r;
        assert h[i] == Sample(r.frame, r.x, r.y);
      }
      if r.trackId == n - 1 && Sample(r.frame, r.x, r.y) in h {
        var i :| 0 <= i < |h| && h[i] == Sample(r.frame, r.x, r.y);
        assert rows[i] == r;
      }
    }
  }

  lemma {:induction false} TableGrouped(tracks: map<nat, seq<Sample>>, n: nat)
    requires forall k: nat | k < n :: k in tracks && FramesIncrease(tracks[k])
    ensures Grouped(Table(tracks, n))
  {
    if n > 0 {
      TableGrouped(tracks, n - 1);
      var front := Table(tracks, n - 1);
      var back := TrackRows(n - 1, tracks[n - 1]);
      var rows := front + back;
      forall i, j | 0 <= i < j < |rows|
        ensures rows[i].trackId < rows[j].trackId ||
                (rows[i].trackId == rows[j].trackId && rows[i].frame < rows[j].frame)
      {
        if j < |front| {
          assert rows[i] == front[i] && rows[j] == front[j];
        } else if i < |front| {
          assert rows[i] in front;
        } else {
          assert FramesIncrease(tracks[n - 1]);
        }
      }
    }
  }

  /** The table of consecutive histories ending no later than `frame` is
      grouped, holds exactly their samples, and no row is later than `frame`. */
  lemma TableOfHistories(tracks: map<nat, seq<Sample>>, n: nat, frame: int)
    requires forall k: nat :: k in tracks <==> k < n
    requires HistoriesUpTo(tracks, frame)
    ensures Grouped(Table(tracks, n))
    ensures forall r | r in Table(tracks, n) ::
              r.trackId < n && Sample(r.frame, r.x, r.y) in tracks[r.trackId] && r.frame <= frame
    ensures forall k, i | k in tracks && 0 <= i < |tracks[k]| ::
              Row(k, tracks[k][i].frame, tracks[k][i].x, tracks[k][i].y) in Table(tracks, n)
  {
    forall k: nat | k < n
      ensures k in tracks && FramesIncrease(tracks[k])
    {
      ConsecutiveFramesIncrease(tracks[k]);
    }
    TableGrouped(tracks, n);
    forall r | r in Table(tracks, n)
      ensures r.trackId < n && Sample(r.frame, r.x, r.y) in tracks[r.trackId] && r.frame <= frame
    {
      TableMembers(tracks, n, r);
      var h := tracks[r.trackId];
      var i :| 0 <= i < |h| && h[i] == Sample(r.frame, r.x, r.y);
      ConsecutiveFramesIncrease(h);
    }
    forall k, i | k in tracks && 0 <= i < |tracks[k]|
      ensures Row(k, tracks[k][i].frame, tracks[k][i].x, tracks[k][i].y) in Table(tracks, n)
    {
      var s := tracks[k][i];
      TableMembers(tracks, n, Row(k, s.frame, s.x, s.y));
    }
  }

  /** The trail drawn for track `k`; a track with no entry has an empty one. */
  function TrailIn(vis: map<nat, seq<Pixel>>, k: nat): seq<Pixel>
  {
    if k in vis then vis[k] else []
  }

  /** The pixel drawn for an accepted position. */
  function PixelOf(p: Point): Pixel
  {
    Pixel(Trunc(p.x), Trunc(p.y))
  }

  /** The histories after one frame: the tracks of `ids` whose flow result is
      accepted get one sample at `frame` at the proposed position. */
  function AdvanceHistories(tracks: map<nat, seq<Sample>>, ids: seq<nat>, flows: seq<FlowResult>,
                            frame: nat, w: int, h: int): (r: map<nat, seq<Sample>>)
    requires |flows| == |ids|
    requires forall k | k in ids :: k in tracks
    ensures r.Keys == tracks.Keys
  {
    if ids == [] then tracks
    else
      var n := |ids| - 1;
      var m := AdvanceHistories(tracks, ids[..n], flows[..n], frame, w, h);
      if Accept(flows[n], w, h)
      then m[ids[n] := m[ids[n]] + [Sample(frame, flows[n].p1.x, flows[n].p1.y)]]
      else m
  }

  /** A track that is not in the list keeps its history. */
  lemma {:induction false} UntouchedHistory(tracks: map<nat, seq<Sample>>, ids: seq<nat>,
                                            flows: seq<FlowResult>, frame: nat, w: int, h: int, k: nat)
    requires |flows| == |ids|
    requires forall k | k in ids :: k in tracks
    requires k in tracks && k !in ids
    ensures AdvanceHistories(tracks, ids, flows, frame, w, h)[k] == tracks[k]
  {
    if ids != [] {
      var n := |ids| - 1;
      assert ids == ids[..n] + [ids[n]];
      UntouchedHistory(tracks, ids[..n], flows[..n], frame, w, h, k);
    }
  }

  /** In a duplicate-free list, the j-th track gains exactly its own sample
      when its flow result is accepted, and nothing otherwise. */
  lemma {:induction false} AdvancedHistory(tracks: map<nat, seq<Sample>>, ids: seq<nat>,
                                           flows: seq<FlowResult>, frame: nat, w: int, h: int, j: nat)
    requires |flows| == |ids|
    requires forall k | k in ids :: k in tracks
    requires StrictlyIncreasing(ids) && j < |ids|
    ensures AdvanceHistories(tracks, ids, flows, frame, w, h)[ids[j]] ==
              if Accept(flows[j], w, h)
              then tracks[ids[j]] + [Sample(frame, flows[j].p1.x, flows[j].p1.y)]
              else tracks[ids[j]]
  {
    var n := |ids| - 1;
    if j == n {
      assert ids[n] !in ids[..n];
      UntouchedHistory(tracks, ids[..n], flows[..n], frame, w, h, ids[n]);
    } else {
      assert ids[..n][j] == ids[j] && flows[..n][j] == flows[j] && ids[j] != ids[n];
      AdvancedHistory(tracks, ids[..n], flows[..n], frame, w, h, j);
    }
  }

  /** The render trails after one frame: each accepted track's trail gets the
      pixel of its new position pushed on. */
  function AdvanceTrails(vis: map<nat, seq<Pixel>>, ids: seq<nat>, flows: seq<FlowResult>,
                         w: int, h: int): (r: map<nat, seq<Pixel>>)
    requires |flows| == |ids|
    ensures forall k | k in r :: k in vis || k in ids
    ensures vis.Keys <= r.Keys
  {
    if ids == [] then vis
    else
      var n := |ids| - 1;
      var m := AdvanceTrails(vis, ids[..n], flows[..n], w, h);
      if Accept(flows[n], w, h) then m[ids[n] := Push(TrailIn(m, ids[n]), PixelOf(flows[n].p1))] else m
  }

  /** The trail of a track that is not in the list is untouched. */
  lemma {:induction false} UntouchedTrail(vis: map<nat, seq<Pixel>>, ids: seq<nat>,
                                          flows: seq<FlowResult>, w: int, h: int, k: nat)
    requires |flows| == |ids| && k !in ids
    ensures k in AdvanceTrails(vis, ids, flows, w, h) <==> k in vis
    ensures TrailIn(AdvanceTrails(vis, ids, flows, w, h), k) == TrailIn(vis, k)
  {
    if ids != [] {
      var n := |ids| - 1;
      assert ids == ids[..n] + [ids[n]];
      UntouchedTrail(vis, ids[..n], flows[..n], w, h, k);
    }
  }

  /** In a duplicate-free list, the j-th track's trail is its old trail with
      the pixel of its new position pushed on when its flow result is
      accepted, and untouched otherwise. */
  lemma {:induction false} AdvancedTrail(vis: map<nat, seq<Pixel>>, ids: seq<nat>,
                                         flows: seq<FlowResult>, w: int, h: int, j: nat)
    requires |flows| == |ids|
    requires StrictlyIncreasing(ids) && j < |ids|
    ensures Accept(flows[j], w, h) ==>
              ids[j] in AdvanceTrails(vis, ids, flows, w, h) &&
              AdvanceTrails(vis, ids, flows, w, h)[ids[j]] == Push(TrailIn(vis, ids[j]), PixelOf(flows[j].p1))
    ensures !Accept(flows[j], w, h) ==>
              (ids[j] in AdvanceTrails(vis, ids, flows, w, h) <==> ids[j] in vis) &&
              TrailIn(AdvanceTrails(vis, ids, flows, w, h), ids[j]) == TrailIn(vis, ids[j])
  {
    var n := |ids| - 1;
    var m := AdvanceTrails(vis, ids[..n], flows[..n], w, h);
    assert AdvanceTrails(vis, ids, flows, w, h) ==
           if Accept(flows[n], w, h) then m[ids[n] := Push(TrailIn(m, ids[n]), PixelOf(flows[n].p1))] else m;
    if j == n {
      assert ids[n] !in ids[..n];
      UntouchedTrail(vis, ids[..n], flows[..n], w, h, ids[n]);
    } else {
      assert ids[..n][j] == ids[j] && flows[..n][j] == flows[j] && ids[j] != ids[n];
      AdvancedTrail(vis, ids[..n], flows[..n], w, h, j);
    }
  }

  /** One more list entry extends the frame's updates by that entry's own
      update: the three steps the frame loop takes per track. */
  lemma AdvanceSnoc(tracks: map<nat, seq<Sample>>, vis: map<nat, seq<Pixel>>, ids: seq<nat>,
                    flows: seq<FlowResult>, frame: nat, w: int, h: int, i: nat)
    requires |flows| == |ids| && i < |ids|
    requires forall k | k in ids :: k in tracks
    ensures var f := flows[i];
            var m := AdvanceHistories(tracks, ids[..i], flows[..i], frame, w, h);
            var v := AdvanceTrails(vis, ids[..i], flows[..i], w, h);
            var a := Survivors(ids[..i], flows[..i], w, h);
            AdvanceHistories(tracks, ids[..i + 1], flows[..i + 1], frame, w, h) ==
              (if Accept(f, w, h) then m[ids[i] := m[ids[i]] + [Sample(frame, f.p1.x, f.p1.y)]] else m) &&
            AdvanceTrails(vis, ids[..i + 1], flows[..i + 1], w, h) ==
              (if Accept(f, w, h) then v[ids[i] := Push(TrailIn(v, ids[i]), PixelOf(f.p1))] else v) &&
            Survivors(ids[..i + 1], flows[..i + 1], w, h) == a + (if Accept(f, w, h) then [ids[i]] else [])
  {
    assert ids[..i + 1][..i] == ids[..i] && flows[..i + 1][..i] == flows[..i];
  }

  /** The histories after seeding `points` at `frame` with ids from `next` on. */
  function Seeded(tracks: map<nat, seq<Sample>>, next: nat, points: seq<Point>, frame: nat): map<nat, seq<Sample>>
  {
    if points == [] then tracks
    else
      var n := |points| - 1;
      Seeded(tracks, next, points[..n], frame)[next + n := [Sample(frame, points[n].x, points[n].y)]]
  }

  /** Seeding gives the i-th point the id `next + i` and the one-sample history
      (frame, x, y), and leaves every track below `next` as it was. */
  lemma {:induction false} SeededAt(tracks: map<nat, seq<Sample>>, next: nat, points: seq<Point>, frame: nat)
    ensures forall k | k in tracks && k < next ::
              k in Seeded(tracks, next, points, frame) && Seeded(tracks, next, points, frame)[k] == tracks[k]
    ensures forall k: nat | next <= k < next + |points| ::
              k in Seeded(tracks, next, points, frame) &&
              Seeded(tracks, next, points, frame)[k] == [Sample(frame, points[k - next].x, points[k - next].y)]
    ensures forall k | k in Seeded(tracks, next, points, frame) :: k in tracks || next <= k < next + |points|
  {
    if points != [] {
      var n := |points| - 1;
      SeededAt(tracks, next, points[..n], frame);
      forall i | 0 <= i < n
        ensures points[..n][i] == points[i]
      {
      }
    }
  }

  /** Every history of `before` is still there in `after`, extended by at
      most one sample. */
  ghost predicate HistoriesGrow(before: map<nat, seq<Sample>>, after: map<nat, seq<Sample>>)
  {
    forall k | k in before :: k in after && before[k] <= after[k] && |after[k]| <= |before[k]| + 1
  }

  /** Every history of `before` is still there in `after`, possibly extended. */
  ghost predicate HistoriesExtend(before: map<nat, seq<Sample>>, after: map<nat, seq<Sample>>)
  {
    forall k | k in before :: k in after && before[k] <= after[k]
  }

  /** The tracks of `before` outside `active` have the same history in `after`. */
  ghost predicate InactiveKept(before: map<nat, seq<Sample>>, active: seq<nat>, after: map<nat, seq<Sample>>)
  {
    forall k | k in before && k !in active :: k in after && after[k] == before[k]
  }

  /** Over one frame, with or without reseeding, histories only grow, by at
      most one sample, and a track that was not active keeps its history. */
  lemma {:induction false} FrameGrowsHistories(tracks: map<nat, seq<Sample>>, ids: seq<nat>, flows: seq<FlowResult>,
                                               frame: nat, w: int, h: int, next: nat, points: seq<Point>,
                                               reseed: bool)
    requires |flows| == |ids| && StrictlyIncreasing(ids)
    requires forall k | k in ids :: k in tracks
    requires forall k | k in tracks :: k < next
    ensures var advanced := AdvanceHistories(tracks, ids, flows, frame, w, h);
            var r := if reseed then Seeded(advanced, next, points, frame) else advanced;
            HistoriesGrow(tracks, r) && InactiveKept(tracks, ids, r)
  {
    var advanced := AdvanceHistories(tracks, ids, flows, frame, w, h);
    SeededAt(advanced, next, points, frame);
    forall k | k in tracks
      ensures tracks[k] <= advanced[k] && |advanced[k]| <= |tracks[k]| + 1
      ensures k !in ids ==> advanced[k] == tracks[k]
    {
      if k in ids {
        var j :| 0 <= j < |ids| && ids[j] == k;
        AdvancedHistory(tracks, ids, flows, frame, w, h, j);
      } else {
        UntouchedHistory(tracks, ids, flows, frame, w, h, k);
      }
    }
  }

  /** The whole tracker state, as it stands once every active track has been
      advanced to `frame`: the tracks are exactly the ids handed out so far,
      every history is consecutive and ends no later than `frame`, the active
      ids are in creation order and their histories end exactly at `frame`,
      and every render trail belongs to a track and is within its cap. */
  ghost predicate Consistent(tracks: map<nat, seq<Sample>>, active: seq<nat>, next: nat,
                             vis: map<nat, seq<Pixel>>, frame: int)
  {
    (forall k: nat :: k in tracks <==> k < next) &&
    HistoriesUpTo(tracks, frame) &&
    StrictlyIncreasing(active) &&
    ActiveAt(tracks, active, frame) &&
    TrailsCapped(tracks, vis)
  }

  ghost predicate HistoriesUpTo(tracks: map<nat, seq<Sample>>, frame: int)
  {
    forall k | k in tracks :: Consecutive(tracks[k]) && Last(tracks[k]).frame <= frame
  }

  ghost predicate ActiveAt(tracks: map<nat, seq<Sample>>, active: seq<nat>, frame: int)
  {
    forall k | k in active :: k in tracks && |tracks[k]| > 0 && Last(tracks[k]).frame == frame
  }

  ghost predicate TrailsCapped(tracks: map<nat, seq<Sample>>, vis: map<nat, seq<Pixel>>)
  {
    forall k | k in vis :: k in tracks && |vis[k]| <= DRAW_TRAJ_LEN
  }

  lemma AdvanceKeepsHistories(tracks: map<nat, seq<Sample>>, active: seq<nat>,
                              flows: seq<FlowResult>, frame: nat, w: int, h: int)
    requires frame >= 1 && HistoriesUpTo(tracks, frame - 1) && ActiveAt(tracks, active, frame - 1)
    requires StrictlyIncreasing(active) && |flows| == |active|
    ensures HistoriesUpTo(AdvanceHistories(tracks, active, flows, frame, w, h), frame)
  {
    var tracks' := AdvanceHistories(tracks, active, flows, frame, w, h);
    forall k | k in tracks'
      ensures Consecutive(tracks'[k]) && Last(tracks'[k]).frame <= frame
    {
      if k in active {
        var j :| 0 <= j < |active| && active[j] == k;
        AdvancedHistory(tracks, active, flows, frame, w, h, j);
        if Accept(flows[j], w, h) {
          AppendNextFrame(tracks[k], Sample(frame, flows[j].p1.x, flows[j].p1.y));
        }
      } else {
        UntouchedHistory(tracks, active, flows, frame, w, h, k);
      }
    }
  }

  lemma AdvanceKeepsActive(tracks: map<nat, seq<Sample>>, active: seq<nat>,
                           flows: seq<FlowResult>, frame: nat, w: int, h: int)
    requires ActiveAt(tracks, active, frame - 1)
    requires StrictlyIncreasing(active) && |flows| == |active|
    ensures ActiveAt(AdvanceHistories(tracks, active, flows, frame, w, h), Survivors(active, flows, w, h), frame)
  {
    var tracks' := AdvanceHistories(tracks, active, flows, frame, w, h);
    forall k | k in Survivors(active, flows, w, h)
      ensures k in tracks' && |tracks'[k]| > 0 && Last(tracks'[k]).frame == frame
    {
      SurvivorsMembers(active, flows, w, h, k);
      var j :| 0 <= j < |active| && active[j] == k && Accept(flows[j], w, h);
      AdvancedHistory(tracks, active, flows, frame, w, h, j);
    }
  }

  lemma AdvanceKeepsTrails(tracks: map<nat, seq<Sample>>, active: seq<nat>, vis: map<nat, seq<Pixel>>,
                           flows: seq<FlowResult>, frame: nat, w: int, h: int)
    requires TrailsCapped(tracks, vis) && ActiveAt(tracks, active, frame - 1)
    requires StrictlyIncreasing(active) && |flows| == |active|
    ensures TrailsCapped(AdvanceHistories(tracks, active, flows, frame, w, h), AdvanceTrails(vis, active, flows, w, h))
  {
    var vis' := AdvanceTrails(vis, active, flows, w, h);
    forall k | k in vis'
      ensures k in tracks && |vis'[k]| <= DRAW_TRAJ_LEN
    {
      if k in active {
        var j :| 0 <= j < |active| && active[j] == k;
        AdvancedTrail(vis, active, flows, w, h, j);
        assert TrailIn(vis, k) == [] || k in vis;
      } else {
        UntouchedTrail(vis, active, flows, w, h, k);
      }
    }
  }

  /** Advancing every active track to the next frame keeps the state
      consistent, with the survivors as the new active list. */
  lemma AdvanceConsistent(tracks: map<nat, seq<Sample>>, active: seq<nat>, next: nat,
                          vis: map<nat, seq<Pixel>>, flows: seq<FlowResult>, frame: nat, w: int, h: int)
    requires frame >= 1 && Consistent(tracks, active, next, vis, frame - 1)
    requires |flows| == |active|
    ensures Consistent(AdvanceHistories(tracks, active, flows, frame, w, h), Survivors(active, flows, w, h),
                       next, AdvanceTrails(vis, active, flows, w, h), frame)
  {
    AdvanceKeepsHistories(tracks, active, flows, frame, w, h);
    AdvanceKeepsActive(tracks, active, flows, frame, w, h);
    AdvanceKeepsTrails(tracks, active, vis, flows, frame, w, h);
    SurvivorsOrdered(active, flows, w, h);
  }

  /** Seeding fresh ids at the current frame keeps the state consistent. */
  lemma SeedConsistent(tracks: map<nat, seq<Sample>>, active: seq<nat>, next: nat,
                       vis: map<nat, seq<Pixel>>, points: seq<Point>, frame: nat)
    requires Consistent(tracks, active, next, vis, frame)
    ensures Consistent(Seeded(tracks, next, points, frame), active + IdRange(next, |points|),
                       next + |points|, vis, frame)
  {
    var tracks' := Seeded(tracks, next, points, frame);
    var active' := active + IdRange(next, |points|);
    SeededAt(tracks, next, points, frame);
    forall i, j | 0 <= i < j < |active'|
      ensures active'[i] < active'[j]
    {
      if i < |active| && j >= |active| {
        assert active'[i] in active;
      }
    }
    forall k | k in active'
      ensures k in tracks' && |tracks'[k]| > 0 && Last(tracks'[k]).frame == frame
    {
      if k !in active {
        var i :| |active| <= i < |active'| && active'[i] == k;
        assert k == next + (i - |active|);
      }
    }
    assert ActiveAt(tracks', active', frame) && StrictlyIncreasing(active');
    assert HistoriesUpTo(tracks', frame) && TrailsCapped(tracks', vis);
  }

  /** Reseeding happens on every frame whose index is a multiple of this. */
  const REDETECT_INTERVAL: nat := 50

  predicate ShouldRedetect(t: nat)
  {
    t % REDETECT_INTERVAL == 0
  }

  /** What the frame loop receives for one new frame: the flow estimator
      between the previous and this frame (applied per query point) and the
      points the feature detector proposes on this frame. */
  datatype FrameInput = FrameInput(estimate: Point -> FlowResult, proposals: seq<Point>)

  /** The whole tracker state as a value: histories, active ids, the id
      counter, render trails and the frame counter. */
  datatype State = State(tracks: map<nat, seq<Sample>>, active: seq<nat>, next: nat,
                         vis: map<nat, seq<Pixel>>, t: nat)

  ghost predicate StateConsistent(s: State)
  {
    Consistent(s.tracks, s.active, s.next, s.vis, s.t)
  }

  /** Every active track has a current position. */
  ghost predicate ActivePresent(s: State)
  {
    forall k | k in s.active :: k in s.tracks && |s.tracks[k]| > 0
  }

  /** The state after the first frame: its points seeded at frame 0. */
  function Start(points: seq<Point>): (s: State)
    ensures StateConsistent(s)
  {
    SeedConsistent(map[], [], 0, map[], points, 0);
    assert [] + IdRange(0, |points|) == IdRange(0, |points|);
    State(Seeded(map[], 0, points, 0), IdRange(0, |points|), |points|, map[], 0)
  }

  /** One iteration of the frame loop on the state: the frame counter moves
      on, every active track is advanced with the estimator's result for its
      last position, and on a redetection frame the proposals are seeded. */
  function StepState(s: State, f: FrameInput, w: int, h: int): State
    requires ActivePresent(s)
  {
    var t := s.t + 1;
    var flows := FlowsAt(f.estimate, LastPoints(s.tracks, s.active));
    var tracks := AdvanceHistories(s.tracks, s.active, flows, t, w, h);
    var active := Survivors(s.active, flows, w, h);
    var vis := AdvanceTrails(s.vis, s.active, flows, w, h);
    if ShouldRedetect(t) then
      State(Seeded(tracks, s.next, f.proposals, t), active + IdRange(s.next, |f.proposals|),
            s.next + |f.proposals|, vis, t)
    else
      State(tracks, active, s.next, vis, t)
  }

  /** One frame of the loop keeps the whole state consistent. */
  lemma StepStateConsistent(s: State, f: FrameInput, w: int, h: int)
    requires StateConsistent(s)
    ensures StateConsistent(StepState(s, f, w, h))
  {
    var t := s.t + 1;
    var flows := FlowsAt(f.estimate, LastPoints(s.tracks, s.active));
    var tracks := AdvanceHistories(s.tracks, s.active, flows, t, w, h);
    var active := Survivors(s.active, flows, w, h);
    var vis := AdvanceTrails(s.vis, s.active, flows, w, h);
    AdvanceConsistent(s.tracks, s.active, s.next, s.vis, flows, t, w, h);
    if ShouldRedetect(t) {
      SeedConsistent(tracks, active, s.next, vis, f.proposals, t);
    }
  }

  /** The state after running the frame loop over `frames`, in order. */
  function RunState(s: State, frames: seq<FrameInput>, w: int, h: int): (r: State)
    requires StateConsistent(s)
    ensures StateConsistent(r) && r.t == s.t + |frames|
  {
    if frames == [] then s
    else
      var n := |frames| - 1;
      var prev := RunState(s, frames[..n], w, h);
      StepStateConsistent(prev, frames[n], w, h);
      StepState(prev, frames[n], w, h)
  }

  /** Running two stretches of video one after the other is running their
      concatenation. */
  lemma {:induction false} RunStateAppend(s: State, a: seq<FrameInput>, b: seq<FrameInput>, w: int, h: int)
    requires StateConsistent(s)
    ensures RunState(s, a + b, w, h) == RunState(RunState(s, a, w, h), b, w, h)
    decreases |b|
  {
    if b == [] {
      assert a + b == a;
    } else {
      var n := |b| - 1;
      assert (a + b)[..|a + b| - 1] == a + b[..n];
      assert (a + b)[|a + b| - 1] == b[n];
      RunStateAppend(s, a, b[..n], w, h);
    }
  }

  /** Over one frame every history only grows, by at most one sample, and a
      track that is not active keeps its history. */
  lemma StepStateGrows(s: State, f: FrameInput, w: int, h: int)
    requires StateConsistent(s)
    ensures HistoriesGrow(s.tracks, StepState(s, f, w, h).tracks)
    ensures InactiveKept(s.tracks, s.active, StepState(s, f, w, h).tracks)
  {
    var t := s.t + 1;
    var flows := FlowsAt(f.estimate, LastPoints(s.tracks, s.active));
    var advanced := AdvanceHistories(s.tracks, s.active, flows, t, w, h);
    assert StepState(s, f, w, h).tracks ==
           if ShouldRedetect(t) then Seeded(advanced, s.next, f.proposals, t) else advanced;
    FrameGrowsHistories(s.tracks, s.active, flows, t, w, h, s.next, f.proposals, ShouldRedetect(t));
  }

  /** A track that is not active does not become active in the next frame:
      the new active list holds only survivors and fresh ids. */
  lemma StepStateKeepsInactive(s: State, f: FrameInput, w: int, h: int, k: nat)
    requires StateConsistent(s)
    requires k in s.tracks && k !in s.active
    ensures k !in StepState(s, f, w, h).active
  {
    var t := s.t + 1;
    var flows := FlowsAt(f.estimate, LastPoints(s.tracks, s.active));
    var seeded := if ShouldRedetect(t) then IdRange(s.next, |f.proposals|) else [];
    assert StepState(s, f, w, h).active == Survivors(s.active, flows, w, h) + seeded;
    assert k !in seeded;
  }

  /** Over any number of frames every history only grows, and a track that is
      not active never changes again and never becomes active again. */
  lemma {:induction false} RunStateGrows(s: State, frames: seq<FrameInput>, w: int, h: int)
    requires StateConsistent(s)
    ensures HistoriesExtend(s.tracks, RunState(s, frames, w, h).tracks)
    ensures InactiveKept(s.tracks, s.active, RunState(s, frames, w, h).tracks)
    ensures forall k | k in s.tracks && k !in s.active :: k !in RunState(s, frames, w, h).active
  {
    if frames != [] {
      var n := |frames| - 1;
      var mid := RunState(s, frames[..n], w, h);
      var r := RunState(s, frames, w, h);
      assert r == StepState(mid, frames[n], w, h);
      RunStateGrows(s, frames[..n], w, h);
      StepStateGrows(mid, frames[n], w, h);
      forall k | k in s.tracks && k !in s.active
        ensures k in mid.tracks && k !in mid.active && k !in r.active && r.tracks[k] == s.tracks[k]
      {
        StepStateKeepsInactive(mid, frames[n], w, h, k);
      }
      forall k | k in s.tracks
        ensures k in r.tracks && s.tracks[k] <= r.tracks[k]
      {
        assert k in mid.tracks && s.tracks[k] <= mid.tracks[k] && mid.tracks[k] <= r.tracks[k];
      }
    }
  }

  /** Advancing every active track of `s0` (giving `s1`) and then seeding
      the proposals when the new frame is a redetection frame (giving `s2`)
      is one frame step. */
  lemma StepComposes(s0: State, f: FrameInput, w: int, h: int, s1: State, s2: State)
    requires ActivePresent(s0)
    requires var flows := FlowsAt(f.estimate, LastPoints(s0.tracks, s0.active));
             s1.t == s0.t + 1 && s1.next == s0.next &&
             s1.active == Survivors(s0.active, flows, w, h) &&
             s1.tracks == AdvanceHistories(s0.tracks, s0.active, flows, s1.t, w, h) &&
             s1.vis == AdvanceTrails(s0.vis, s0.active, flows, w, h)
    requires s2.t == s1.t && s2.vis == s1.vis
    requires s2.next == s1.next + (if ShouldRedetect(s1.t) then |f.proposals| else 0)
    requires s2.active == s1.active + (if ShouldRedetect(s1.t) then IdRange(s1.next, |f.proposals|) else [])
    requires s2.tracks == if ShouldRedetect(s1.t) then Seeded(s1.tracks, s1.next, f.proposals, s1.t) else s1.tracks
    ensures s2 == StepState(s0, f, w, h)
  {
  }

  /** Over one frame, histories grow by at most one sample and tracks that
      were not active stay untouched and inactive. */
  lemma StepStateAbsorbs(s0: State, f: FrameInput, w: int, h: int, s2: State)
    requires StateConsistent(s0) && s2 == StepState(s0, f, w, h)
    ensures HistoriesGrow(s0.tracks, s2.tracks) && InactiveKept(s0.tracks, s0.active, s2.tracks)
    ensures forall k | k in s0.tracks && k !in s0.active :: k !in s2.active
  {
    StepStateGrows(s0, f, w, h);
    forall k | k in s0.tracks && k !in s0.active
      ensures k !in s2.active
    {
      StepStateKeepsInactive(s0, f, w, h, k);
    }
  }
}
