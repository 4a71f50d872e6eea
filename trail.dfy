/**
 The render trail kept per track for drawing: accepted positions are appended
 as integer pixels and the trail is trimmed to its most recent DRAW_TRAJ_LEN
 entries. It never feeds back into tracking.
 */
module Trail {

  /** Longest trail drawn behind a track. */
  const DRAW_TRAJ_LEN: nat := 100

  datatype Pixel = Pixel(x: int, y: int)

  function Min(a: int, b: int): int
  {
    if a <= b then a else b
  }

  /** Conversion of a coordinate to an integer, truncating toward zero. */
  function Trunc(v: real): (n: int)
    ensures 0.0 <= v ==> n as real <= v < n as real + 1.0
    ensures v < 0.0 ==> n as real - 1.0 < v <= n as real
  {
    if v >= 0.0 then v.Floor else -((-v).Floor)
  }

  /** The last `n` entries of `s`, or all of `s` when it is shorter. */
  function LastN<T>(s: seq<T>, n: nat): seq<T>
  {
    if |s| <= n then s else s[|s| - n..]
  }

  /** Append one pixel, then drop the oldest entries beyond the cap. */
  function Push(trail: seq<Pixel>, p: Pixel): (r: seq<Pixel>)
    ensures |r| == Min(|trail| + 1, DRAW_TRAJ_LEN)
    ensures |r| > 0 && r[|r| - 1] == p
    ensures forall i | 0 <= i < |r| - 1 :: r[i] == trail[|trail| + 1 - |r| + i]
  {
    var appended := trail + [p];
    if |appended| > DRAW_TRAJ_LEN then appended[|appended| - DRAW_TRAJ_LEN..] else appended
  }

  /** The trail after a whole series of pushes, oldest first. */
  function PushAll(trail: seq<Pixel>, ps: seq<Pixel>): seq<Pixel>
    decreases |ps|
  {
    if ps == [] then trail else PushAll(Push(trail, ps[0]), ps[1..])
  }

  lemma {:induction false} LastNOfLastN<T>(s: seq<T>, u: seq<T>, n: nat)
    ensures LastN(LastN(s, n) + u, n) == LastN(s + u, n)
  {
    if |s| > n {
      var t := s[|s| - n..];
      if |t + u| > n {
        assert (t + u)[|t + u| - n..] == (s + u)[|s + u| - n..];
      }
    }
  }

  lemma LastNLength<T>(s: seq<T>, n: nat)
    ensures |LastN(s, n)| == Min(|s|, n)
  {
  }

  /** The first push of a series, written as a cut of the appended trail. */
  lemma PushAllStep(trail: seq<Pixel>, ps: seq<Pixel>)
    requires ps != []
    ensures PushAll(trail, ps) == PushAll(LastN(trail + [ps[0]], DRAW_TRAJ_LEN), ps[1..])
  {
    assert Push(trail, ps[0]) == LastN(trail + [ps[0]], DRAW_TRAJ_LEN);
  }

  /** A trail that starts within the cap holds, after any series of pushes,
      exactly the most recent min(total, DRAW_TRAJ_LEN) positions. */
  lemma {:induction false} PushAllKeepsLatest(trail: seq<Pixel>, ps: seq<Pixel>)
    requires |trail| <= DRAW_TRAJ_LEN
    ensures PushAll(trail, ps) == LastN(trail + ps, DRAW_TRAJ_LEN)
    ensures |PushAll(trail, ps)| == Min(|trail| + |ps|, DRAW_TRAJ_LEN)
    decreases |ps|
  {
    if ps == [] {
      assert trail + ps == trail;
    } else {
      var pushed := LastN(trail + [ps[0]], DRAW_TRAJ_LEN);
      PushAllStep(trail, ps);
      LastNLength(trail + [ps[0]], DRAW_TRAJ_LEN);
      PushAllKeepsLatest(pushed, ps[1..]);
      LastNOfLastN(trail + [ps[0]], ps[1..], DRAW_TRAJ_LEN);
      assert trail + [ps[0]] + ps[1..] == trail + ps;
    }
    LastNLength(trail + ps, DRAW_TRAJ_LEN);
  }
}
