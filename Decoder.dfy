/** processOutput: turns the inference engine's raw rows into Detection records,
    in scan order, dropping malformed, out-of-range and low-confidence entries. */
module Decoder {
  import opened Optional
  import opened Geometry
  import opened Detections

  /** What a kept detection always satisfies. */
  predicate WellFormedDetection(d: Detection)
  {
    && d.tag == ObjectLabel
    && ConfidenceThreshold <= d.confidence <= MaxConfidence
    && d.bbox.InUnitSquare()
    && d.distance >= 0.1
  }

  /** The test an entry must pass to be kept, stated as ranges. */
  predicate Accepted(row: seq<real>)
  {
    && |row| >= 4
    && 0.05 <= row[2] <= 1.5 && 0.05 <= row[3] <= 1.5
    && 0.0 <= row[0] <= 1.0 && 0.0 <= row[1] <= 1.0
    && Min(row[2] * row[3] * 8.0, 0.8) >= 0.6
  }

  /** One iteration of processOutput's loop, past the length check. */
  function DecodeBox(centerX: real, centerY: real, width: real, height: real,
                     frameWidth: int, frameHeight: int, ranging: real -> real): Option<Detection>
    requires frameHeight > 0
  {
    if !IsValidBoundingBox(centerX, centerY, width, height) then None
    else
      var confidence := CalculateConfidence(width, height);
      if confidence < ConfidenceThreshold then None
      else
        var distance := CalculateDistance(centerY * frameHeight as real, frameHeight, ranging);
        var direction := GetDirection(centerX * frameWidth as real, frameWidth);
        var bbox := ConvertToCornerFormat(centerX, centerY, width, height);
        Some(Detection(ObjectLabel, confidence, bbox, distance, direction))
  }

  /** Proof step for processOutput's loop: the detection a kept box unfolds to. */
  lemma DecodeBoxKept(centerX: real, centerY: real, width: real, height: real,
                      frameWidth: int, frameHeight: int, ranging: real -> real)
    requires frameHeight > 0
    requires IsValidBoundingBox(centerX, centerY, width, height)
    requires CalculateConfidence(width, height) >= ConfidenceThreshold
    ensures DecodeBox(centerX, centerY, width, height, frameWidth, frameHeight, ranging)
         == Some(Detection(ObjectLabel, CalculateConfidence(width, height),
                           ConvertToCornerFormat(centerX, centerY, width, height),
                           CalculateDistance(centerY * frameHeight as real, frameHeight, ranging),
                           GetDirection(centerX * frameWidth as real, frameWidth)))
  {
  }

  /** One iteration of processOutput's loop: rows shorter than four values are skipped. */
  function DecodeEntry(row: seq<real>, frameWidth: int, frameHeight: int, ranging: real -> real): Option<Detection>
    requires frameHeight > 0
  {
    if |row| < 4 then None
    else DecodeBox(row[0], row[1], row[2], row[3], frameWidth, frameHeight, ranging)
  }

  /** The decoder's filter: a row is kept exactly when it is long enough, its
      box is in range and its confidence reaches the threshold; what is kept is
      a well-formed detection with the row's confidence, direction, corner box
      and distance. */
  lemma DecodeEntrySpec(row: seq<real>, frameWidth: int, frameHeight: int, ranging: real -> real)
    requires frameHeight > 0
    ensures DecodeEntry(row, frameWidth, frameHeight, ranging).Some? <==> Accepted(row)
    ensures DecodeEntry(row, frameWidth, frameHeight, ranging).Some? ==>
              && WellFormedDetection(DecodeEntry(row, frameWidth, frameHeight, ranging).value)
              && DecodeEntry(row, frameWidth, frameHeight, ranging).value.confidence == CalculateConfidence(row[2], row[3])
              && DecodeEntry(row, frameWidth, frameHeight, ranging).value.direction == GetDirection(row[0] * frameWidth as real, frameWidth)
              && DecodeEntry(row, frameWidth, frameHeight, ranging).value.bbox == ConvertToCornerFormat(row[0], row[1], row[2], row[3])
              && DecodeEntry(row, frameWidth, frameHeight, ranging).value.distance == CalculateDistance(row[1] * frameHeight as real, frameHeight, ranging)
  {
  }

  /** The detections decoded from `rows`, in scan order. */
  function DecodeRows(rows: seq<seq<real>>, frameWidth: int, frameHeight: int, ranging: real -> real): (ds: seq<Detection>)
    requires frameHeight > 0
    ensures |ds| <= |rows|
    ensures forall d :: d in ds ==> WellFormedDetection(d)
  {
    if rows == [] then []
    else
      var prefix := DecodeRows(rows[..|rows| - 1], frameWidth, frameHeight, ranging);
      DecodeEntrySpec(rows[|rows| - 1], frameWidth, frameHeight, ranging);
      match DecodeEntry(rows[|rows| - 1], frameWidth, frameHeight, ranging)
      case None => prefix
      case Some(d) => prefix + [d]
  }

  /** The result of processOutput: only the first NumDetections rows are read. */
  function Decode(output: seq<seq<real>>, frameWidth: int, frameHeight: int, ranging: real -> real): seq<Detection>
    requires |output| >= NumDetections && frameHeight > 0
  {
    DecodeRows(output[..NumDetections], frameWidth, frameHeight, ranging)
  }

  /** Proof step for processOutput's loop: decoding one more row of a table
      extends the result by that row's detection, if any. */
  lemma DecodeRowsSnoc(rows: seq<seq<real>>, i: nat, frameWidth: int, frameHeight: int, ranging: real -> real)
    requires i < |rows| && frameHeight > 0
    ensures DecodeRows(rows[..i + 1], frameWidth, frameHeight, ranging)
         == DecodeRows(rows[..i], frameWidth, frameHeight, ranging)
            + match DecodeEntry(rows[i], frameWidth, frameHeight, ranging)
              case None => []
              case Some(d) => [d]
  {
    assert rows[..i + 1][..i] == rows[..i];
  }

  /** Decoding distributes over concatenation: rows are decoded independently
      and their detections keep the order of the rows. */
  lemma {:induction false} DecodeRowsAppend(a: seq<seq<real>>, b: seq<seq<real>>, frameWidth: int, frameHeight: int, ranging: real -> real)
    requires frameHeight > 0
    ensures DecodeRows(a + b, frameWidth, frameHeight, ranging)
         == DecodeRows(a, frameWidth, frameHeight, ranging) + DecodeRows(b, frameWidth, frameHeight, ranging)
    decreases |b|
  {
    if b == [] {
      assert a + b == a;
    } else {
      var b' := b[..|b| - 1];
      assert (a + b)[..|a + b| - 1] == a + b';
      assert (a + b)[|a + b| - 1] == b[|b| - 1];
      DecodeRowsAppend(a, b', frameWidth, frameHeight, ranging);
    }
  }

  /** A detection is decoded exactly when some row decodes to it. */
  lemma {:induction false} DecodeRowsMembership(rows: seq<seq<real>>, frameWidth: int, frameHeight: int, ranging: real -> real, d: Detection)
    requires frameHeight > 0
    ensures d in DecodeRows(rows, frameWidth, frameHeight, ranging) <==>
              exists i :: 0 <= i < |rows| && DecodeEntry(rows[i], frameWidth, frameHeight, ranging) == Some(d)
  {
    if rows != [] {
      var init := rows[..|rows| - 1];
      DecodeRowsMembership(init, frameWidth, frameHeight, ranging, d);
      if exists i :: 0 <= i < |rows| && DecodeEntry(rows[i], frameWidth, frameHeight, ranging) == Some(d) {
        var i :| 0 <= i < |rows| && DecodeEntry(rows[i], frameWidth, frameHeight, ranging) == Some(d);
        if i < |rows| - 1 {
          assert rows[i] == init[i];
        }
      }
      if exists i :: 0 <= i < |init| && DecodeEntry(init[i], frameWidth, frameHeight, ranging) == Some(d) {
        var i :| 0 <= i < |init| && DecodeEntry(init[i], frameWidth, frameHeight, ranging) == Some(d);
        assert rows[i] == init[i];
      }
    }
  }

  /** The decoder's filter and bounds: at most NumDetections detections, each
      of which comes from an accepted row, and every accepted row yields one. */
  lemma DecodeSpec(output: seq<seq<real>>, frameWidth: int, frameHeight: int, ranging: real -> real)
    requires |output| >= NumDetections && frameHeight > 0
    ensures |Decode(output, frameWidth, frameHeight, ranging)| <= NumDetections
    ensures forall d :: d in Decode(output, frameWidth, frameHeight, ranging) ==> WellFormedDetection(d)
    ensures forall i :: 0 <= i < NumDetections && Accepted(output[i]) ==>
              DecodeEntry(output[i], frameWidth, frameHeight, ranging).value in Decode(output, frameWidth, frameHeight, ranging)
    ensures forall d :: d in Decode(output, frameWidth, frameHeight, ranging) ==>
              exists i :: 0 <= i < NumDetections && Accepted(output[i]) && DecodeEntry(output[i], frameWidth, frameHeight, ranging) == Some(d)
  {
    var rows := output[..NumDetections];
    forall i | 0 <= i < NumDetections && Accepted(output[i])
      ensures DecodeEntry(output[i], frameWidth, frameHeight, ranging).value in Decode(output, frameWidth, frameHeight, ranging)
    {
      assert rows[i] == output[i];
      DecodeRowsMembership(rows, frameWidth, frameHeight, ranging, DecodeEntry(output[i], frameWidth, frameHeight, ranging).value);
    }
    forall d | d in Decode(output, frameWidth, frameHeight, ranging)
      ensures exists i :: 0 <= i < NumDetections && Accepted(output[i]) && DecodeEntry(output[i], frameWidth, frameHeight, ranging) == Some(d)
    {
      DecodeRowsMembership(rows, frameWidth, frameHeight, ranging, d);
      var i :| 0 <= i < |rows| && DecodeEntry(rows[i], frameWidth, frameHeight, ranging) == Some(d);
      assert rows[i] == output[i];
    }
  }

  /** A centred 0.3 x 0.3 box on a 640 x 480 frame is kept in front with confidence
      0.72, at the distance of the reference image's middle row. */
  lemma CentredBoxScenario(ranging: real -> real)
    ensures DecodeEntry([0.5, 0.5, 0.3, 0.3], 640, 480, ranging).Some?
    ensures DecodeEntry([0.5, 0.5, 0.3, 0.3], 640, 480, ranging).value.confidence == 0.72
    ensures DecodeEntry([0.5, 0.5, 0.3, 0.3], 640, 480, ranging).value.direction == Front
    ensures DecodeEntry([0.5, 0.5, 0.3, 0.3], 640, 480, ranging).value.distance == Max(0.1, RoundToTenth(ranging(240.0)))
  {
    assert (0.5 * 480 as real / 480 as real) * 480 as real == 240.0;
  }

  /** processOutput: scans the first NumDetections rows and appends each kept
      detection to a fresh list. */
  method ProcessOutput(output: seq<seq<real>>, frameWidth: int, frameHeight: int, ranging: real -> real)
    returns (detections: DetectionList)
    requires |output| >= NumDetections && frameHeight > 0
    ensures fresh(detections)
    ensures detections.items == Decode(output, frameWidth, frameHeight, ranging)
  {
    detections := new DetectionList();
    for i := 0 to NumDetections
      invariant detections.items == DecodeRows(output[..i], frameWidth, frameHeight, ranging)
    {
      DecodeRowsSnoc(output, i, frameWidth, frameHeight, ranging);
      ghost var entry := DecodeEntry(output[i], frameWidth, frameHeight, ranging);
      if |output[i]| < 4 {
        assert entry == None;
        continue;
      }
      var centerX, centerY, width, height := output[i][0], output[i][1], output[i][2], output[i][3];
      assert entry == DecodeBox(centerX, centerY, width, height, frameWidth, frameHeight, ranging);
      if !IsValidBoundingBox(centerX, centerY, width, height) {
        assert entry == None;
        continue;
      }
      var confidence := CalculateConfidence(width, height);
      if confidence < ConfidenceThreshold {
        assert entry == None;
        continue;
      }
      var distance := CalculateDistance(centerY * frameHeight as real, frameHeight, ranging);
      var direction := GetDirection(centerX * frameWidth as real, frameWidth);
      var bbox := ConvertToCornerFormat(centerX, centerY, width, height);
      var detection := Detection(ObjectLabel, confidence, bbox, distance, direction);
      DecodeBoxKept(centerX, centerY, width, height, frameWidth, frameHeight, ranging);
      detections.items := detections.items + [detection];
    }
  }
}
