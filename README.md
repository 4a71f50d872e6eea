# Track lifecycle of the optical-flow time-series extractor

The script `script/extract_ts_using_optical_flow_with_object_detection.py`
follows feature points through a video with a forward-backward Lucas-Kanade
tracker (KLT) and writes one `(track_id, t, x, y)` row per tracked sample. This
project models the bookkeeping around the flow numerics:

- **Seeding.** `add_points` gives each proposed point the next id from a
  monotone counter, a one-sample history and a place at the end of the active
  list.
- **Acceptance.** The rule combines the two status flags, the forward-backward
  error and forward residual thresholds, and the frame bounds.
- **Per-frame advance.** Accepted tracks get one sample at the current frame
  and stay active, in order. Rejected tracks leave the active list for good.
- **Reseeding.** New points are seeded every `REDETECT_INTERVAL` frames. The
  exclusion positions are read off the active tracks at that moment.
- **Render trail.** Each track keeps a trail of integer pixels, capped at
  `DRAW_TRAJ_LEN`.
- **Export.** The row listing of all histories, track by track.

Modules:

- `Flow` (flow.dfy): the flow result of one point and the acceptance predicate.
- `Trail` (trail.dfy): pushing pixels onto a capped render trail.
- `Lifecycle` (lifecycle.dfy): value-level definitions and lemmas. These cover
  the survivor filter, the effect of one frame on histories and trails,
  seeding, the state invariant `Consistent`, last positions and the export
  table. They also cover the whole tracker state as a value (`State`), one
  iteration of the frame loop on it (`StepState`) and the loop over all
  frames as a fold of that step (`RunState`).
- `Tracker` (tracker.dfy): the tracker's mutable state as a class.
  - The fields are `nextTrackId`, `tracks`, `activeIds`, `visTraj` and the frame
    counter `t`.
  - Its methods update that state in place, loop by loop, as the script does.
  - Each method's new state is given by functions of `Lifecycle`. For `Step`
    and `RunFrames` the fields, read together as a `State`, equal `StepState`
    and `RunState` of the old ones.
  - `Run` drives a whole video, and its rows are the table of the final
    `RunState`.

## Model

All source cells refer to `script/extract_ts_using_optical_flow_with_object_detection.py`.

| member | source | states |
|---|---|---|
| Flow.Accept | script/extract_ts_using_optical_flow_with_object_detection.py:179-180 | a flow result is kept if and only if both status flags are 1, the forward-backward error is below 50, the residual is finite and below 80, and the new position lies in [0, w) x [0, h) |
| Flow.OutOfFrameRejected | script/extract_ts_using_optical_flow_with_object_detection.py:116-118 | a proposed position with x < 0, x >= w, y < 0 or y >= h is rejected whatever the flags and errors are |
| Flow.MissingResidualRejected | script/extract_ts_using_optical_flow_with_object_detection.py:112 | a missing forward residual counts as +infinity and always rejects |
| Flow.FlowsAt | script/extract_ts_using_optical_flow_with_object_detection.py:177 | the estimator's result for each query point, in query order; one batched call is read as one result per point |
| Trail.Trunc | script/extract_ts_using_optical_flow_with_object_detection.py:188 | the pixel coordinate is the real coordinate truncated toward zero: within one unit below it for non-negative values and within one unit above it for negative ones |
| Trail.Push | script/extract_ts_using_optical_flow_with_object_detection.py:188-190 | after one append-and-trim the trail has min(old length + 1, DRAW_TRAJ_LEN) entries, ends with the new pixel, and the rest are the newest of the old entries in order |
| Trail.PushAllKeepsLatest | script/extract_ts_using_optical_flow_with_object_detection.py:188-190 | a trail within the cap holds, after any series of pushes, exactly the last min(total, DRAW_TRAJ_LEN) pixels ever pushed |
| Lifecycle.PixelOf | script/extract_ts_using_optical_flow_with_object_detection.py:188 | the trail pixel of a position is the pair of its coordinates truncated toward zero |
| Lifecycle.Survivors | script/extract_ts_using_optical_flow_with_object_detection.py:182-191 | the new active list is never longer than the old one and holds only ids from it |
| Lifecycle.SurvivorsMembers | script/extract_ts_using_optical_flow_with_object_detection.py:182-191 | an id is in the new active list if and only if some position of it in the old list carries an accepted flow result |
| Lifecycle.SurvivorsOrdered | script/extract_ts_using_optical_flow_with_object_detection.py:182-191 | filtering keeps the creation order: a strictly increasing active list stays strictly increasing |
| Lifecycle.SurvivorsIndependent | script/extract_ts_using_optical_flow_with_object_detection.py:182-186 | a track survives if and only if its own flow result is accepted, so changing other tracks' results never changes its outcome |
| Lifecycle.LastPoints | script/extract_ts_using_optical_flow_with_object_detection.py:172-174 | the last position of each listed track, in list order: the query points of the flow step and the exclusion positions |
| Lifecycle.LastPointsPrefix | script/extract_ts_using_optical_flow_with_object_detection.py:195-196 | seeding new tracks after the active ones leaves the exclusion positions of the existing active tracks as they were |
| Lifecycle.AdvanceHistories | script/extract_ts_using_optical_flow_with_object_detection.py:184-187 | after a frame the same tracks exist; each accepted track gains the sample (t, x, y), defined track by track in list order |
| Lifecycle.UntouchedHistory | script/extract_ts_using_optical_flow_with_object_detection.py:182-187 | a track that is not active keeps its history over a frame |
| Lifecycle.AdvancedHistory | script/extract_ts_using_optical_flow_with_object_detection.py:184-187 | an active track gains exactly the sample (t, x, y) of its new position when accepted and is unchanged when rejected |
| Lifecycle.AdvanceTrails | script/extract_ts_using_optical_flow_with_object_detection.py:182-190 | after a frame every trail belongs to a track that had one before or to an active track, and no trail disappears |
| Lifecycle.UntouchedTrail | script/extract_ts_using_optical_flow_with_object_detection.py:182-190 | the trail of a track that is not active is untouched |
| Lifecycle.AdvancedTrail | script/extract_ts_using_optical_flow_with_object_detection.py:188-190 | an accepted track's trail is its old trail (empty if it had none) with the truncated new pixel pushed on, and a rejected track's trail is unchanged |
| Lifecycle.AdvanceSnoc | script/extract_ts_using_optical_flow_with_object_detection.py:182-190 | handling one more track of the active list extends the frame's effect by that track's own update to its history, its trail and the new active list |
| Lifecycle.Seeded | script/extract_ts_using_optical_flow_with_object_detection.py:145-151 | the histories after seeding the points one by one, in input order, each under the next id with one sample at the seeding frame |
| Lifecycle.SeededAt | script/extract_ts_using_optical_flow_with_object_detection.py:145-151 | seeding gives the i-th point id next + i with the history [(t, x, y)], leaves every older track unchanged and creates no other key |
| Lifecycle.FrameGrowsHistories | script/extract_ts_using_optical_flow_with_object_detection.py:167-200 | over one frame, with or without reseeding, every history only grows, by at most one sample, and an inactive track's history is unchanged |
| Lifecycle.Consistent | script/extract_ts_using_optical_flow_with_object_detection.py:145-191 | the state invariant: the tracks are exactly the ids handed out, every history has consecutive frames and ends no later than the current frame, the active ids are in creation order with histories ending at the current frame, and every trail belongs to a track and is within the cap |
| Lifecycle.AdvanceKeepsHistories | script/extract_ts_using_optical_flow_with_object_detection.py:167-187 | after the frame counter moves on and the tracks advance, every history still has consecutive frames and none ends after the current frame |
| Lifecycle.AdvanceKeepsActive | script/extract_ts_using_optical_flow_with_object_detection.py:182-191 | every surviving track's last sample is at the current frame |
| Lifecycle.AdvanceKeepsTrails | script/extract_ts_using_optical_flow_with_object_detection.py:188-190 | every render trail still belongs to a track and stays within DRAW_TRAJ_LEN |
| Lifecycle.AdvanceConsistent | script/extract_ts_using_optical_flow_with_object_detection.py:167-191 | one frame of advancing keeps the whole state invariant, with the survivors as the active list |
| Lifecycle.SeedConsistent | script/extract_ts_using_optical_flow_with_object_detection.py:145-151 | seeding fresh ids at the current frame keeps the whole state invariant, and the ids stay in creation order |
| Lifecycle.ShouldRedetect | script/extract_ts_using_optical_flow_with_object_detection.py:193 | reseeding happens exactly on frames whose index is a multiple of REDETECT_INTERVAL (50) |
| Lifecycle.Start | script/extract_ts_using_optical_flow_with_object_detection.py:138-154 | the state after the first frame, its points seeded as tracks 0 .. n - 1 at frame 0, satisfies the state invariant |
| Lifecycle.StepState | script/extract_ts_using_optical_flow_with_object_detection.py:161-200 | one loop iteration on the state: the frame counter moves on, the active tracks advance on the estimator's results for their last positions, and on a redetection frame the proposals are seeded |
| Lifecycle.StepStateConsistent | script/extract_ts_using_optical_flow_with_object_detection.py:161-200 | one loop iteration keeps the state invariant |
| Lifecycle.StepStateGrows | script/extract_ts_using_optical_flow_with_object_detection.py:161-200 | over one loop iteration every history only grows, by at most one sample, and an inactive track keeps its history |
| Lifecycle.StepStateKeepsInactive | script/extract_ts_using_optical_flow_with_object_detection.py:182-200 | a track that is not active does not become active in the next frame, as only survivors and fresh ids are listed |
| Lifecycle.StepComposes | script/extract_ts_using_optical_flow_with_object_detection.py:167-200 | advancing the active tracks and then seeding when due is exactly one StepState |
| Lifecycle.StepStateAbsorbs | script/extract_ts_using_optical_flow_with_object_detection.py:161-200 | after one StepState histories have grown by at most one sample and inactive tracks are unchanged and still inactive |
| Lifecycle.RunState | script/extract_ts_using_optical_flow_with_object_detection.py:161-222 | the state after the frame loop over a sequence of frames keeps the state invariant and has advanced the frame counter by the number of frames |
| Lifecycle.RunStateAppend | script/extract_ts_using_optical_flow_with_object_detection.py:161-222 | running two stretches of frames one after the other equals running their concatenation |
| Lifecycle.RunStateGrows | script/extract_ts_using_optical_flow_with_object_detection.py:161-222 | over any number of frames every history only grows, and a track that is not active never changes and never becomes active again |
| Lifecycle.Table | script/extract_ts_using_optical_flow_with_object_detection.py:231-233 | every listed row belongs to one of the tracks listed |
| Lifecycle.TableMembers | script/extract_ts_using_optical_flow_with_object_detection.py:231-233 | a row is listed if and only if it is a sample of one of the tracks |
| Lifecycle.TableGrouped | script/extract_ts_using_optical_flow_with_object_detection.py:231-233 | rows are grouped by increasing track id, with frames increasing inside each track |
| Lifecycle.TableOfHistories | script/extract_ts_using_optical_flow_with_object_detection.py:231-233 | the listing of consistent histories is grouped, holds exactly their samples, and no row is later than the current frame |
| Tracker.Tracker.constructor | script/extract_ts_using_optical_flow_with_object_detection.py:138-156 | the state starts at frame 0 with the first frame's points seeded as tracks 0 .. n - 1, all active, and no trails |
| Tracker.Tracker.AddPoints | script/extract_ts_using_optical_flow_with_object_detection.py:145-151 | the counter grows by exactly the number of points, their ids are appended to the active list in input order, their histories are those of SeededAt, and the state invariant is kept |
| Tracker.Tracker.CurrentPositions | script/extract_ts_using_optical_flow_with_object_detection.py:171-174 | one position per active track, in active-list order: the last sample of that track |
| Tracker.Tracker.AdvanceTrack | script/extract_ts_using_optical_flow_with_object_detection.py:183-190 | an accepted track gets the new sample and the new trail pixel, and a rejected one changes nothing |
| Tracker.Tracker.Advance | script/extract_ts_using_optical_flow_with_object_detection.py:182-191 | the loop leaves the survivor list as the active list, the histories as AdvanceHistories and the trails as AdvanceTrails |
| Tracker.Tracker.AdvanceFrame | script/extract_ts_using_optical_flow_with_object_detection.py:167-191 | the frame counter grows by one, every active track is advanced with the estimator's result for its last position, and the state invariant is kept |
| Tracker.Tracker.Redetect | script/extract_ts_using_optical_flow_with_object_detection.py:193-200 | on a frame divisible by REDETECT_INTERVAL the proposals are seeded at that frame, and the exclusion positions returned are the last positions of the tracks active before seeding; on any other frame nothing changes |
| Tracker.Tracker.Step | script/extract_ts_using_optical_flow_with_object_detection.py:161-200 | one loop iteration: the new state is StepState of the old one, the exclusion positions are those of the tracks active before reseeding, histories grow by at most one sample, and an inactive track stays unchanged and inactive |
| Tracker.Tracker.RunFrames | script/extract_ts_using_optical_flow_with_object_detection.py:161-222 | over any number of frames the new state is RunState of the old one over those frames, the state invariant holds, histories only grow, and a dropped track never returns or changes |
| Tracker.Tracker.ListRows | script/extract_ts_using_optical_flow_with_object_detection.py:231-233 | the nested loop lists exactly the table of tracks 0 .. nextTrackId - 1 |
| Tracker.Tracker.ExportRows | script/extract_ts_using_optical_flow_with_object_detection.py:231-233 | the rows are grouped by track and frame, each row is a sample and each sample is a row, and no row is later than the current frame |
| Tracker.Run | script/extract_ts_using_optical_flow_with_object_detection.py:138-233 | the exported rows are the table of every history of RunState from the first frame's seeding over all further frames; they are grouped, include each first-frame point as a row of track i at frame 0, and no row is later than the number of further frames |

## Left out

- Video and file I/O are not modelled: `FrameReader`, `cv2.VideoCapture`, `imread`, argument and path handling. Each new frame is one `FrameInput`.
- `detect_features` and the MOG2 background subtractor are foreign OpenCV calls. The points they propose are an input sequence per frame.
- The inside of the flow check is not modelled: `calcOpticalFlowPyrLK` and the `np.linalg.norm` distance. The estimator is a function from a query point to its `FlowResult` (new point, both flags, forward-backward error, residual). The single batched call on all points is modelled as independent per-point results.
- Positions and errors are unbounded `real`s. float32 rounding of positions and NaN comparisons are not modelled.
- Drawing is not modelled: the exclusion mask circles, the trail lines and dots, the text overlay, `VideoWriter`, matplotlib and the random per-track colours.
- The exclusion positions are returned from `Redetect` but do not affect seeding. The script builds the mask and never passes it to `detect_features`, so proposals near existing tracks are seeded too. The model follows that code, not the evident design intent.
- CSV writing, its header and the 3-decimal formatting are not modelled. `ExportRows` produces the rows as values.
- The script's render loop reads `vis_traj[tid]` of a `defaultdict`, which creates empty trail entries for active tracks without pixels. Only appends are modelled. An absent key reads as an empty trail (`TrailIn`).
- Tracker.Tracker.Advance: requires one flow result per active track. `zip` in the script would silently drop tracks beyond a shorter result list, but the estimator always returns one result per query point.
- Tracker.Tracker.AddPoints: requires the seeding frame to be the current frame counter. Both calls in the script pass the current `t`.
- `Trail.Trunc` models Python's `int()` on a float as truncation toward zero. numpy's float32-to-int conversion of values outside the int range is not modelled.
