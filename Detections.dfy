/** The per-detection vocabulary of the navigation screen: calibration constants,
    the Detection record and the expression-only helpers the decoder applies to
    one raw (centerX, centerY, width, height) entry. */
module Detections {
  import opened Geometry

  // Model input and output shape.
  const InputSize: nat := 300
  const NumDetections: nat := 10

  // Detection thresholds (Java floats 0.6f and 0.4f, taken here as exact reals).
  const ConfidenceThreshold: real := 0.6
  const IouThreshold: real := 0.4
  /** The cap of the area-based confidence. */
  const MaxConfidence: real := 0.8

  // Camera calibration. CameraHeight, CameraAngle (in degrees), FocalLength
  // and ImageCenterY only document the trigonometric part of calculateDistance,
  // which the model receives as the `ranging` parameter below; no member uses
  // them. ImageHeight is the reference height rows are rescaled to.
  const CameraHeight: real := 0.8
  const CameraAngle: real := 30.0
  const FocalLength: real := 1000.0
  const ImageHeight: int := 480
  const ImageCenterY: real := 240.0
  const WallDistanceThreshold: real := 1.0

  /** Minimum interval between two spoken alerts, in milliseconds. */
  const AlertCooldown: int := 600

  /** Float.MAX_VALUE, the initial minimum distance of findClosestDetection. */
  const FloatMax: real := 340282346638528859811704183484516925440.0

  /** The label every decoded detection carries. */
  const ObjectLabel: string := "vật thể"

  /** The three thirds of the frame width. */
  datatype Direction = Left | Front | Right
  {
    /** The phrase spoken in an alert. */
    function Phrase(): string
    {
      match this
      case Left => "bên trái"
      case Front => "phía trước"
      case Right => "bên phải"
    }

    /** Position from left to right, used to state that directions follow x. */
    function Rank(): nat
    {
      match this
      case Left => 0
      case Front => 1
      case Right => 2
    }
  }

  datatype Detection = Detection(tag: string, confidence: real, bbox: RectF, distance: real, direction: Direction)

  /** The list the decoder builds and applyNMS consumes (a java.util.ArrayList). */
  class DetectionList {
    var items: seq<Detection>

    constructor ()
      ensures items == []
    {
      items := [];
    }
  }

  /** isValidBoundingBox: a box is rejected when it is too small, too large or centred off-frame. */
  predicate IsValidBoundingBox(centerX: real, centerY: real, width: real, height: real)
  {
    !(width < 0.05 || height < 0.05 ||
      centerX < 0.0 || centerX > 1.0 ||
      centerY < 0.0 || centerY > 1.0 ||
      width > 1.5 || height > 1.5)
  }

  /** calculateConfidence: eight times the box area, capped at 0.8. */
  function CalculateConfidence(width: real, height: real): (c: real)
    ensures c <= MaxConfidence && c <= width * height * 8.0
    ensures c == MaxConfidence || c == width * height * 8.0
  {
    Min((width * height) * 8.0, MaxConfidence)
  }

  /** A larger box never gets a smaller confidence. */
  lemma ConfidenceMonotone(w1: real, h1: real, w2: real, h2: real)
    requires w1 * h1 <= w2 * h2
    ensures CalculateConfidence(w1, h1) <= CalculateConfidence(w2, h2)
  {
  }

  /** Math.round(x * 10) / 10.0, with Math.round as floor(x + 0.5). */
  function RoundToTenth(x: real): real
  {
    (x * 10.0 + 0.5).Floor as real / 10.0
  }

  /** The result has at most one decimal and lies within half a tenth of x. */
  lemma RoundToTenthSpec(x: real)
    ensures (RoundToTenth(x) * 10.0).Floor as real == RoundToTenth(x) * 10.0
    ensures x - 0.05 < RoundToTenth(x) <= x + 0.05
  {
    var k := (x * 10.0 + 0.5).Floor;
    assert RoundToTenth(x) * 10.0 == k as real;
  }

  lemma RoundToTenthMonotone(x: real, y: real)
    requires x <= y
    ensures RoundToTenth(x) <= RoundToTenth(y)
  {
    assert (x * 10.0 + 0.5).Floor <= (y * 10.0 + 0.5).Floor;
  }

  /** calculateDistance. `ranging` is the camera model: CameraHeight over
      tan(toRadians(CameraAngle) + atan((y - ImageCenterY) / FocalLength)),
      applied to the sample row rescaled to an ImageHeight-row image. */
  function CalculateDistance(yMax: real, frameHeight: int, ranging: real -> real): (d: real)
    requires frameHeight > 0
    ensures d >= 0.1
    ensures (d * 10.0).Floor as real == d * 10.0
  {
    var normalizedY := (yMax / frameHeight as real) * ImageHeight as real;
    RoundToTenthSpec(ranging(normalizedY));
    Max(0.1, RoundToTenth(ranging(normalizedY)))
  }

  /** A camera model that gives non-increasing distance for rows further down
      the reference image gives a distance estimate that is non-increasing down
      the frame. Only rows inside the image are asked of the camera model. */
  lemma DistanceMonotone(y1: real, y2: real, frameHeight: int, ranging: real -> real)
    requires frameHeight > 0 && 0.0 <= y1 <= y2 <= frameHeight as real
    requires forall a, b :: 0.0 <= a <= b <= ImageHeight as real ==> ranging(a) >= ranging(b)
    ensures CalculateDistance(y1, frameHeight, ranging) >= CalculateDistance(y2, frameHeight, ranging)
  {
    var h := frameHeight as real;
    assert 0.0 <= y1 / h <= y2 / h by {
      assert (y1 / h) * h == y1 && (y2 / h) * h == y2;
    }
    assert y2 / h <= 1.0 by {
      assert (y2 / h) * h == y2 && h / h == 1.0;
    }
    var n1 := (y1 / h) * ImageHeight as real;
    var n2 := (y2 / h) * ImageHeight as real;
    assert ranging(n1) >= ranging(n2);
    RoundToTenthMonotone(ranging(n2), ranging(n1));
  }

  /** The distance checkForWall samples, three quarters down the frame. */
  function WallDistance(frameHeight: int, ranging: real -> real): real
    requires frameHeight > 0
  {
    CalculateDistance(frameHeight as real * 0.75, frameHeight, ranging)
  }

  /** The wall sample always maps to row 360 of the reference image, so its
      distance does not depend on the frame height. */
  lemma WallDistanceFixed(frameHeight: int, ranging: real -> real)
    requires frameHeight > 0
    ensures WallDistance(frameHeight, ranging) == Max(0.1, RoundToTenth(ranging(360.0)))
  {
    var h := frameHeight as real;
    assert (h * 0.75) / h == 0.75;
  }

  /** Java's int division, which truncates toward zero. */
  function JavaDiv(a: int, b: int): (q: int)
    requires b > 0
    ensures a >= 0 ==> q == a / b
    ensures q * b <= a < q * b + b || q * b - b < a <= q * b
    ensures a < 0 ==> -b < a - q * b <= 0
  {
    if a >= 0 then a / b else -((-a) / b)
  }

  /** getDirection: the frame width is split into thirds with int division. */
  function GetDirection(xCenter: real, frameWidth: int): Direction
  {
    if xCenter < JavaDiv(frameWidth, 3) as real then Left
    else if xCenter > JavaDiv(2 * frameWidth, 3) as real then Right
    else Front
  }

  /** On a frame of non-negative width the thirds are exactly the intervals
      below frameWidth/3, above 2*frameWidth/3, and in between (boundaries included). */
  lemma DirectionThirds(xCenter: real, frameWidth: int)
    requires frameWidth >= 0
    ensures GetDirection(xCenter, frameWidth) == Left <==> xCenter < (frameWidth / 3) as real
    ensures GetDirection(xCenter, frameWidth) == Right <==> xCenter > (2 * frameWidth / 3) as real
    ensures GetDirection(xCenter, frameWidth) == Front <==>
              (frameWidth / 3) as real <= xCenter <= (2 * frameWidth / 3) as real
  {
    assert frameWidth / 3 <= 2 * frameWidth / 3;
  }

  /** Moving right never moves the direction back toward the left. */
  lemma DirectionMonotone(x1: real, x2: real, frameWidth: int)
    requires frameWidth >= 0 && x1 <= x2
    ensures GetDirection(x1, frameWidth).Rank() <= GetDirection(x2, frameWidth).Rank()
  {
    DirectionThirds(x1, frameWidth);
    DirectionThirds(x2, frameWidth);
  }

  /** Landmarks: the left edge is on the left, the centre in front, the right
      edge on the right, and the first boundary itself in front. */
  lemma DirectionLandmarks(frameWidth: int)
    requires frameWidth >= 3
    ensures GetDirection(0.0, frameWidth) == Left
    ensures GetDirection(frameWidth as real / 2.0, frameWidth) == Front
    ensures GetDirection(frameWidth as real, frameWidth) == Right
    ensures GetDirection((frameWidth / 3) as real, frameWidth) == Front
  {
    DirectionThirds(frameWidth as real / 2.0, frameWidth);
    assert (frameWidth / 3) as real <= frameWidth as real / 2.0 <= (2 * frameWidth / 3) as real by {
      var q := frameWidth / 3;
      assert 3 * q <= frameWidth < 3 * q + 3;
      var t := 2 * frameWidth / 3;
      assert 3 * t <= 2 * frameWidth < 3 * t + 3;
    }
  }
}
