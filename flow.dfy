/**
 The per-track acceptance rule of the KLT tracker: a proposed advancement of a
 track is kept only when both optical-flow passes succeeded, the forward-backward
 error and the forward residual are below their thresholds, and the new position
 lies inside the frame. The flow numerics themselves are inputs.
 */
module Flow {

  /** Largest accepted forward-backward reconstruction distance, in pixels. */
  const FB_ERR_THRESH: real := 50.0

  /** Largest accepted forward residual reported by the estimator. */
  const ERR_THRESH: real := 80.0

  datatype Point = Point(x: real, y: real)

  /** The forward residual of one point; `Infinite` stands for the +infinity
      used when the estimator reports no residual at all. */
  datatype Residual = Finite(value: real) | Infinite

  /** What the forward and backward flow passes report for one query point:
      the proposed new position, the two status flags, the forward-backward
      distance and the forward residual. */
  datatype FlowResult = FlowResult(p1: Point, st1: int, st2: int, fbErr: real, err1: Residual)

  /** The frame is [0, w) x [0, h). */
  predicate InBounds(p: Point, w: int, h: int)
  {
    0.0 <= p.x && p.x < w as real && 0.0 <= p.y && p.y < h as real
  }

  predicate BothPassesSucceeded(f: FlowResult)
  {
    f.st1 == 1 && f.st2 == 1
  }

  /** A residual is below a threshold only when it is finite and smaller. */
  predicate Below(e: Residual, thresh: real)
  {
    match e
    case Finite(v) => v < thresh
    case Infinite => false
  }

  /** The status mask, narrowed first by the two error thresholds and then by
      the frame bounds. */
  function Accept(f: FlowResult, w: int, h: int): (keep: bool)
    ensures keep ==> f.st1 == 1 && f.st2 == 1
    ensures keep ==> f.fbErr < FB_ERR_THRESH
    ensures keep ==> f.err1.Finite? && f.err1.value < ERR_THRESH
    ensures keep ==> 0.0 <= f.p1.x < w as real && 0.0 <= f.p1.y < h as real
    ensures (f.st1 == 1 && f.st2 == 1 && f.fbErr < FB_ERR_THRESH &&
             f.err1.Finite? && f.err1.value < ERR_THRESH &&
             0.0 <= f.p1.x < w as real && 0.0 <= f.p1.y < h as real) ==> keep
  {
    var st := BothPassesSucceeded(f);
    var st := st && f.fbErr < FB_ERR_THRESH && Below(f.err1, ERR_THRESH);
    st && InBounds(f.p1, w, h)
  }

  /** A position outside the frame is rejected whatever the flags and errors say. */
  lemma OutOfFrameRejected(f: FlowResult, w: int, h: int)
    requires f.p1.x < 0.0 || f.p1.x >= w as real || f.p1.y < 0.0 || f.p1.y >= h as real
    ensures !Accept(f, w, h)
  {
  }

  /** A missing residual counts as +infinity and so always rejects. */
  lemma MissingResidualRejected(f: FlowResult, w: int, h: int)
    requires f.err1 == Infinite
    ensures !Accept(f, w, h)
  {
  }

  /** The estimator applied to every query point, in order. */
  function FlowsAt(estimate: Point -> FlowResult, ps: seq<Point>): seq<FlowResult>
  {
    seq(|ps|, i requires 0 <= i < |ps| => estimate(ps[i]))
  }
}
