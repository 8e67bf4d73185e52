/** The navigation screen's per-frame state: the frame-skip counter and the
    last spoken alert, updated by the camera analyser, processDetectionResults
    and checkForWall. Speech is recorded in a ghost history. */
module Navigation {
  import opened Optional
  import opened Detections
  import opened Decoder
  import opened Suppression
  import opened Alerts
  import opened Preprocess

  /** Whether the analyser passes the frame with this count to analyzeImage. */
  predicate Analyzes(frameCount: int)
  {
    frameCount % 2 == 0
  }

  /** How many of the frames counted 1..n are analysed. */
  function AnalysedAmong(n: nat): nat
  {
    if n == 0 then 0 else AnalysedAmong(n - 1) + (if Analyzes(n) then 1 else 0)
  }

  /** Starting from a count of 0, exactly every other frame is analysed:
      n frames give n / 2 analyses. */
  lemma {:induction false} AnalysedHalf(n: nat)
    ensures AnalysedAmong(n) == n / 2
  {
    if n > 0 {
      AnalysedHalf(n - 1);
    }
  }

  class NavigationSession {
    var frameCount: int
    var lastAlertTime: int
    var lastAlertText: AlertText
    /** What announceDetection was asked to speak, and when. */
    ghost var announced: seq<Announcement>

    /** The alert part of the state. */
    function State(): AlertState
      reads this
    {
      AlertState(lastAlertTime, lastAlertText)
    }

    /** Every announcement so far was at least the cooldown after the previous
        one (the first: after time 0) and changed the text, and the alert
        fields hold the last one. */
    ghost predicate Valid()
      reads this
    {
      && Spaced(InitialState, announced)
      && State() == EndState(InitialState, announced)
    }

    constructor ()
      ensures Valid()
      ensures frameCount == 0 && State() == InitialState && announced == []
    {
      frameCount := 0;
      lastAlertTime := 0;
      lastAlertText := Blank;
      announced := [];
    }

    /** announceDetection: the text goes to the speech engine. */
    method AnnounceDetection(message: AlertText, ghost now: int)
      modifies this
      ensures announced == old(announced) + [Announcement(now, message)]
      ensures frameCount == old(frameCount) && State() == old(State())
    {
      announced := announced + [Announcement(now, message)];
    }

    /** The tail both alert paths share once the cooldown has elapsed: the
        text is spoken and remembered unless it repeats the last one. */
    method SpeakIfNew(alertText: AlertText, now: int)
      requires Valid() && now - lastAlertTime >= AlertCooldown
      modifies this
      ensures Valid()
      ensures var out := Step(old(State()), now, Some(alertText));
        && State() == out.next
        && announced == old(announced) + (if out.spoken.Some? then [Announcement(now, out.spoken.value)] else [])
      ensures frameCount == old(frameCount)
    {
      StepSpec(State(), now, Some(alertText));
      if alertText != lastAlertText {
        SpacedSnoc(InitialState, announced, now, Some(alertText));
        AnnounceDetection(alertText, now);
        lastAlertText := alertText;
        lastAlertTime := now;
      }
    }

    /** checkForWall: after the cooldown, samples the distance three quarters
        down the frame and warns when it is within WallDistanceThreshold. */
    method CheckForWall(frameHeight: int, now: int, ranging: real -> real)
      requires frameHeight > 0 && Valid()
      modifies this
      ensures Valid()
      ensures var out := Step(old(State()), now, WallAlert(WallDistance(frameHeight, ranging)));
        && State() == out.next
        && announced == old(announced) + (if out.spoken.Some? then [Announcement(now, out.spoken.value)] else [])
      ensures frameCount == old(frameCount)
    {
      if now - lastAlertTime < AlertCooldown {
        StepSpec(State(), now, WallAlert(WallDistance(frameHeight, ranging)));
        return;
      }
      var sampleY := frameHeight as real * 0.75;
      var distance := CalculateDistance(sampleY, frameHeight, ranging);
      if distance <= WallDistanceThreshold {
        SpeakIfNew(NearWall(distance), now);
      } else {
        StepSpec(State(), now, None);
      }
    }

    /** processDetectionResults: an empty list goes to the wall check;
        otherwise, after the cooldown, the closest detection is announced if
        it is confident enough, with the multi-object text when there are
        several detections. */
    method ProcessDetectionResults(detections: seq<Detection>, frameWidth: int, frameHeight: int,
                                   now: int, ranging: real -> real)
      requires frameHeight > 0 && Valid()
      modifies this
      ensures Valid()
      ensures var out := Step(old(State()), now, Candidate(detections, frameHeight, ranging));
        && State() == out.next
        && announced == old(announced) + (if out.spoken.Some? then [Announcement(now, out.spoken.value)] else [])
      ensures frameCount == old(frameCount)
    {
      if |detections| == 0 {
        CheckForWall(frameHeight, now, ranging);
        return;
      }
      if now - lastAlertTime < AlertCooldown {
        StepSpec(State(), now, Candidate(detections, frameHeight, ranging));
        return;
      }
      var closestDetection := FindClosestDetection(detections);
      if closestDetection.Some? && closestDetection.value.confidence > ConfidenceThreshold {
        var alertText;
        if |detections| > 1 {
          alertText := MultiObject(|detections|, closestDetection.value.direction, closestDetection.value.distance);
        } else {
          alertText := SingleObject(closestDetection.value.direction, closestDetection.value.distance);
        }
        SpeakIfNew(alertText, now);
      } else {
        StepSpec(State(), now, None);
      }
    }

    /** analyzeImage, from the resized pixels on: packs them, decodes what the
        inference engine produced for them, suppresses overlaps and reacts.
        Without an interpreter the frame is dropped. */
    method AnalyzeImage(interpreterReady: bool, pixels: seq<bv32>, output: seq<seq<real>>,
                        frameWidth: int, frameHeight: int, now: int, ranging: real -> real)
      returns (filteredDetections: seq<Detection>)
      requires |pixels| == InputSize * InputSize && |output| >= NumDetections
      requires frameHeight > 0 && Valid()
      modifies this
      ensures Valid() && frameCount == old(frameCount)
      ensures !interpreterReady ==> filteredDetections == [] && State() == old(State()) && announced == old(announced)
      ensures interpreterReady ==>
        && filteredDetections == Nms(Decode(output, frameWidth, frameHeight, ranging))
        && var out := Step(old(State()), now, Candidate(filteredDetections, frameHeight, ranging));
        && State() == out.next
        && announced == old(announced) + (if out.spoken.Some? then [Announcement(now, out.spoken.value)] else [])
    {
      if !interpreterReady {
        return [];
      }
      var inputBuffer := BitmapToByteBuffer(pixels);
      var detections := ProcessOutput(output, frameWidth, frameHeight, ranging);
      filteredDetections := ApplyNms(detections);
      ProcessDetectionResults(filteredDetections, frameWidth, frameHeight, now, ranging);
    }

    /** The camera analyser: counts the frame and analyses only every other one. */
    method OnFrame(interpreterReady: bool, pixels: seq<bv32>, output: seq<seq<real>>,
                   frameWidth: int, frameHeight: int, now: int, ranging: real -> real)
      returns (analyzed: bool)
      requires |pixels| == InputSize * InputSize && |output| >= NumDetections
      requires frameHeight > 0 && Valid()
      modifies this
      ensures Valid()
      ensures frameCount == old(frameCount) + 1
      ensures analyzed <==> Analyzes(frameCount)
      ensures !analyzed || !interpreterReady ==> State() == old(State()) && announced == old(announced)
      ensures analyzed && interpreterReady ==>
        var out := Step(old(State()), now, Candidate(Nms(Decode(output, frameWidth, frameHeight, ranging)), frameHeight, ranging));
        && State() == out.next
        && announced == old(announced) + (if out.spoken.Some? then [Announcement(now, out.spoken.value)] else [])
    {
      frameCount := frameCount + 1;
      analyzed := frameCount % 2 == 0;
      if analyzed {
        var _ := AnalyzeImage(interpreterReady, pixels, output, frameWidth, frameHeight, now, ranging);
      }
    }
  }
}
