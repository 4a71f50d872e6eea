/**
 The tracker's mutable state and the frame loop that drives it: seeding new
 tracks with fresh consecutive ids, advancing the active tracks through the
 acceptance rule, periodic reseeding, the render trails and the export rows.
 */
module Tracker {
  import opened Flow
  import opened Trail
  import opened Lifecycle

  class Tracker {
    const width: int
    const height: int
    var nextTrackId: nat
    var tracks: map<nat, seq<Sample>>
    var activeIds: seq<nat>
    var visTraj: map<nat, seq<Pixel>>
    var t: nat

    /** Every active track has a current position. */
    ghost predicate Present()
      reads this
    {
      forall k | k in activeIds :: k in tracks && |tracks[k]| > 0
    }

    /** The fields as one state value. */
    ghost function Snapshot(): State
      reads this
    {
      State(tracks, activeIds, nextTrackId, visTraj, t)
    }

    /** The tracker's state invariant at its current frame. */
    ghost predicate Valid()
      reads this
    {
      Consistent(tracks, activeIds, nextTrackId, visTraj, t)
    }

    /** Starts tracking at frame 0 from the points detected on the first frame. */
    constructor (width: int, height: int, initial: seq<Point>)
      ensures Valid()
      ensures this.width == width && this.height == height && t == 0
      ensures nextTrackId == |initial| && activeIds == IdRange(0, |initial|)
      ensures tracks == Seeded(map[], 0, initial, 0)
      ensures visTraj == map[]
    {
      this.width := width;
      this.height := height;
      nextTrackId := 0;
      tracks := map[];
      activeIds := [];
      visTraj := map[];
      t := 0;
      new;
      AddPoints(initial, 0);
    }

    /** Creates one track per point, in input order, each with a fresh id taken
        from the counter and a one-sample history at `frame`. */
    method AddPoints(points: seq<Point>, frame: nat)
      requires Valid() && frame == t
      modifies this
      ensures Valid()
      ensures nextTrackId == old(nextTrackId) + |points|
      ensures activeIds == old(activeIds) + IdRange(old(nextTrackId), |points|)
      ensures tracks == Seeded(old(tracks), old(nextTrackId), points, frame)
      ensures visTraj == old(visTraj) && t == old(t)
    {
      var i := 0;
      while i < |points|
        invariant 0 <= i <= |points|
        invariant nextTrackId == old(nextTrackId) + i
        invariant activeIds == old(activeIds) + IdRange(old(nextTrackId), i)
        invariant tracks == Seeded(old(tracks), old(nextTrackId), points[..i], frame)
        invariant visTraj == old(visTraj) && t == old(t)
      {
        var pt := points[i];
        assert points[..i + 1][..i] == points[..i];
        // A fresh id has no history yet, so its list is just this sample.
        tracks := tracks[nextTrackId := [Sample(frame, pt.x, pt.y)]];
        activeIds := activeIds + [nextTrackId];
        nextTrackId := nextTrackId + 1;
        i := i + 1;
      }
      assert points[..|points|] == points;
      SeedConsistent(old(tracks), old(activeIds), old(nextTrackId), visTraj, points, frame);
    }

    /** The last position of every active track, in active-list order. */
    method CurrentPositions() returns (ps: seq<Point>)
      requires Present()
      ensures |ps| == |activeIds|
      ensures forall i | 0 <= i < |activeIds| :: ps[i] == LastPoint(tracks[activeIds[i]])
    {
      ps := [];
      var i := 0;
      while i < |activeIds|
        invariant 0 <= i <= |activeIds|
        invariant |ps| == i
        invariant forall j | 0 <= j < i :: ps[j] == LastPoint(tracks[activeIds[j]])
      {
        var h := tracks[activeIds[i]];
        ps := ps + [Point(h[|h| - 1].x, h[|h| - 1].y)];
        i := i + 1;
      }
    }

    /** The loop body for one active track: an accepted flow result appends a
        sample at frame `t` to the track's history and pushes the pixel of the
        new position onto its render trail; a rejected one changes nothing. */
    method AdvanceTrack(tid: nat, f: FlowResult)
      requires tid in tracks
      modifies this
      ensures nextTrackId == old(nextTrackId) && t == old(t) && activeIds == old(activeIds)
      ensures tracks == if Accept(f, width, height)
                        then old(tracks)[tid := old(tracks)[tid] + [Sample(t, f.p1.x, f.p1.y)]]
                        else old(tracks)
      ensures visTraj == if Accept(f, width, height)
                         then old(visTraj)[tid := Push(TrailIn(old(visTraj), tid), PixelOf(f.p1))]
                         else old(visTraj)
    {
      if Accept(f, width, height) {
        tracks := tracks[tid := tracks[tid] + [Sample(t, f.p1.x, f.p1.y)]];
        // A track without a trail entry starts from an empty trail.
        var trail := TrailIn(visTraj, tid);
        visTraj := visTraj[tid := Push(trail, Pixel(Trunc(f.p1.x), Trunc(f.p1.y)))];
      }
    }

    /** Advances every active track to frame `t` with its own flow result:
        accepted tracks get one new sample and a new trail pixel and stay
        active, in order; rejected tracks leave the active list. */
    method Advance(flows: seq<FlowResult>)
      requires Present() && |flows| == |activeIds|
      modifies this
      ensures nextTrackId == old(nextTrackId) && t == old(t)
      ensures activeIds == Survivors(old(activeIds), flows, width, height)
      ensures tracks == AdvanceHistories(old(tracks), old(activeIds), flows, t, width, height)
      ensures visTraj == AdvanceTrails(old(visTraj), old(activeIds), flows, width, height)
    {
      var ids := activeIds;
      var newActive := [];
      var i := 0;
      while i < |ids|
        invariant 0 <= i <= |ids|
        invariant activeIds == ids && nextTrackId == old(nextTrackId) && t == old(t)
        invariant newActive == Survivors(ids[..i], flows[..i], width, height)
        invariant tracks == AdvanceHistories(old(tracks), ids[..i], flows[..i], t, width, height)
        invariant visTraj == AdvanceTrails(old(visTraj), ids[..i], flows[..i], width, height)
      {
        AdvanceSnoc(old(tracks), old(visTraj), ids, flows, t, width, height, i);
        AdvanceTrack(ids[i], flows[i]);
        if Accept(flows[i], width, height) {
          newActive := newActive + [ids[i]];
        }
        i := i + 1;
      }
      assert ids[..|ids|] == ids && flows[..|flows|] == flows;
      activeIds := newActive;
    }

    /** The first half of a loop iteration: the frame
        counter moves on and, when any track is active, every active track is
        advanced with the estimator's result for its current position. */
    method AdvanceFrame(estimate: Point -> FlowResult)
      requires Valid()
      modifies this
      ensures Valid()
      ensures t == old(t) + 1 && nextTrackId == old(nextTrackId)
      ensures var flows := FlowsAt(estimate, old(LastPoints(tracks, activeIds)));
              activeIds == Survivors(old(activeIds), flows, width, height) &&
              tracks == AdvanceHistories(old(tracks), old(activeIds), flows, t, width, height) &&
              visTraj == AdvanceTrails(old(visTraj), old(activeIds), flows, width, height)
    {
      t := t + 1;
      if |activeIds| > 0 {
        var p0 := CurrentPositions();
        assert p0 == LastPoints(tracks, activeIds);
        Advance(FlowsAt(estimate, p0));
        AdvanceConsistent(old(tracks), old(activeIds), nextTrackId, old(visTraj), FlowsAt(estimate, p0),
                          t, width, height);
      } else {
        AdvanceConsistent(tracks, activeIds, nextTrackId, visTraj, [], t, width, height);
      }
    }

    /** The second half of a loop iteration: on a
        redetection frame the exclusion positions are read and the proposed
        points are seeded at this frame. `occupied` is that exclusion list, the
        current positions of the active tracks; the proposals are not filtered
        by it. */
    method Redetect(proposals: seq<Point>) returns (occupied: seq<Point>)
      requires Valid()
      modifies this
      ensures Valid()
      ensures t == old(t) && visTraj == old(visTraj)
      ensures nextTrackId == old(nextTrackId) + (if ShouldRedetect(t) then |proposals| else 0)
      ensures activeIds == old(activeIds) + (if ShouldRedetect(t) then IdRange(old(nextTrackId), |proposals|) else [])
      ensures tracks == if ShouldRedetect(t) then Seeded(old(tracks), old(nextTrackId), proposals, t) else old(tracks)
      ensures occupied == if ShouldRedetect(t) then old(LastPoints(tracks, activeIds)) else []
      ensures ShouldRedetect(t) ==> occupied == LastPoints(tracks, activeIds)[..|old(activeIds)|]
    {
      occupied := [];
      if ShouldRedetect(t) {
        occupied := CurrentPositions();
        assert occupied == LastPoints(tracks, activeIds);
        AddPoints(proposals, t);
        SeededAt(old(tracks), old(nextTrackId), proposals, t);
        LastPointsPrefix(old(tracks), tracks, old(activeIds), IdRange(old(nextTrackId), |proposals|));
      }
    }

    /** One iteration of the frame loop: advance, then reseed when due. The
        new state is StepState of the old one. Histories only ever grow, by
        at most one sample per frame, and a track that has left the active
        list never changes or returns to it. */
    method Step(estimate: Point -> FlowResult, proposals: seq<Point>) returns (occupied: seq<Point>)
      requires Valid()
      modifies this
      ensures Valid()
      ensures Snapshot() == StepState(old(Snapshot()), FrameInput(estimate, proposals), width, height)
      ensures ShouldRedetect(t) ==>
                |occupied| == |activeIds| - |proposals| && occupied == LastPoints(tracks, activeIds)[..|occupied|]
      ensures !ShouldRedetect(t) ==> occupied == []
      ensures HistoriesGrow(old(tracks), tracks) && InactiveKept(old(tracks), old(activeIds), tracks)
      ensures forall k | k in old(tracks) && k !in old(activeIds) :: k !in activeIds
    {
      ghost var s0 := Snapshot();
      AdvanceFrame(estimate);
      ghost var s1 := Snapshot();
      occupied := Redetect(proposals);
      StepComposes(s0, FrameInput(estimate, proposals), width, height, s1, Snapshot());
      StepStateAbsorbs(s0, FrameInput(estimate, proposals), width, height, Snapshot());
    }

    /** The frame loop over all remaining frames: the state becomes the fold
        of the frame step over them. Every history only grows, and a track
        that is not active never changes or becomes active again. */
    method RunFrames(frames: seq<FrameInput>)
      requires Valid()
      modifies this
      ensures Valid()
      ensures Snapshot() == RunState(old(Snapshot()), frames, width, height)
      ensures forall k | k in old(tracks) :: k in tracks && old(tracks)[k] <= tracks[k]
      ensures forall k | k in old(tracks) && k !in old(activeIds) :: tracks[k] == old(tracks)[k] && k !in activeIds
    {
      var n := 0;
      while n < |frames|
        invariant 0 <= n <= |frames|
        invariant Valid()
        invariant Snapshot() == RunState(old(Snapshot()), frames[..n], width, height)
      {
        assert frames[..n + 1][..n] == frames[..n];
        var _ := Step(frames[n].estimate, frames[n].proposals);
        n := n + 1;
      }
      assert frames[..|frames|] == frames;
      RunStateGrows(old(Snapshot()), frames, width, height);
    }

    /** The export table: one row per sample, tracks
        in id order, which is the order the tracks were created in. */
    method ExportRows() returns (rows: seq<Row>)
      requires Valid()
      ensures rows == Table(tracks, nextTrackId)
      ensures Grouped(rows)
      ensures forall r | r in rows ::
                r.trackId < nextTrackId && Sample(r.frame, r.x, r.y) in tracks[r.trackId]
      ensures forall k, i | k in tracks && 0 <= i < |tracks[k]| ::
                Row(k, tracks[k][i].frame, tracks[k][i].x, tracks[k][i].y) in rows
      ensures forall r | r in rows :: r.frame <= t
    {
      rows := ListRows();
      TableOfHistories(tracks, nextTrackId, t);
    }

    /** The nested loop that lists the rows, track by track, sample by sample. */
    method ListRows() returns (rows: seq<Row>)
      requires forall k: nat | k < nextTrackId :: k in tracks
      ensures rows == Table(tracks, nextTrackId)
    {
      rows := [];
      var tid := 0;
      while tid < nextTrackId
        invariant 0 <= tid <= nextTrackId
        invariant rows == Table(tracks, tid)
      {
        var h := tracks[tid];
        var j := 0;
        while j < |h|
          invariant 0 <= j <= |h|
          invariant rows == Table(tracks, tid) + TrackRows(tid, h[..j])
        {
          assert TrackRows(tid, h[..j + 1]) == TrackRows(tid, h[..j]) + [Row(tid, h[j].frame, h[j].x, h[j].y)];
          rows := rows + [Row(tid, h[j].frame, h[j].x, h[j].y)];
          j := j + 1;
        }
        assert h[..|h|] == h;
        tid := tid + 1;
      }
    }
  }

  /** The whole run: seed the first frame's points at frame 0, run one loop
      iteration per further frame, then list the rows of every track ever
      created. The rows are exactly the samples of the final state. */
  method Run(width: int, height: int, initial: seq<Point>, frames: seq<FrameInput>) returns (rows: seq<Row>)
    ensures var last := RunState(Start(initial), frames, width, height);
            rows == Table(last.tracks, last.next)
    ensures Grouped(rows)
    ensures forall i | 0 <= i < |initial| :: Row(i, 0, initial[i].x, initial[i].y) in rows
    ensures forall r | r in rows :: r.frame <= |frames|
  {
    var tracker := new Tracker(width, height, initial);
    assert tracker.Snapshot() == Start(initial);
    SeededAt(map[], 0, initial, 0);
    ghost var seeded := tracker.tracks;
    tracker.RunFrames(frames);
    rows := tracker.ExportRows();
    forall i | 0 <= i < |initial|
      ensures Row(i, 0, initial[i].x, initial[i].y) in rows
    {
      assert seeded[i] <= tracker.tracks[i];
      assert tracker.tracks[i][0] == Sample(0, initial[i].x, initial[i].y);
    }
  }
}
