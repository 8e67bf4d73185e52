/** The spoken-alert policy of the navigation screen: which detection is the
    closest, which text an object or a wall gives, and the cooldown and
    repeat suppression kept in (lastAlertTime, lastAlertText). */
module Alerts {
  import opened Optional
  import opened Detections

  /** The texts String.format builds. Each text is determined by exactly
      these values, so comparing texts is comparing these values; Blank is
      the empty string the state starts with. */
  datatype AlertText =
    | Blank
    | MultiObject(count: nat, direction: Direction, distance: real)
    | SingleObject(direction: Direction, distance: real)
    | NearWall(distance: real)

  // ---------------------------------------------------------------------
  // findClosestDetection
  // ---------------------------------------------------------------------

  /** minDistance after scanning `ds`: Float.MAX_VALUE lowered by every strictly smaller distance. */
  function MinDistance(ds: seq<Detection>): real
  {
    if ds == [] then FloatMax
    else
      var m := MinDistance(ds[..|ds| - 1]);
      if ds[|ds| - 1].distance < m then ds[|ds| - 1].distance else m
  }

  /** closest after scanning `ds`: replaced only by a strictly nearer detection. */
  function ClosestAmong(ds: seq<Detection>): Option<Detection>
  {
    if ds == [] then None
    else if ds[|ds| - 1].distance < MinDistance(ds[..|ds| - 1]) then Some(ds[|ds| - 1])
    else ClosestAmong(ds[..|ds| - 1])
  }

  /** ds[i] is the first detection of least distance, and that distance is below Float.MAX_VALUE. */
  predicate IsFirstClosest(ds: seq<Detection>, i: int)
  {
    && 0 <= i < |ds|
    && ds[i].distance < FloatMax
    && (forall j :: 0 <= j < |ds| ==> ds[i].distance <= ds[j].distance)
    && (forall j :: 0 <= j < i ==> ds[i].distance < ds[j].distance)
  }

  /** The running minimum is Float.MAX_VALUE capped by every distance, and it is attained when below it. */
  lemma {:induction false} MinDistanceSpec(ds: seq<Detection>)
    ensures MinDistance(ds) <= FloatMax
    ensures forall j :: 0 <= j < |ds| ==> MinDistance(ds) <= ds[j].distance
    ensures ClosestAmong(ds).Some? <==> MinDistance(ds) < FloatMax
    ensures ClosestAmong(ds).Some? ==> ClosestAmong(ds).value.distance == MinDistance(ds)
  {
    if ds != [] {
      var init := ds[..|ds| - 1];
      MinDistanceSpec(init);
      forall j | 0 <= j < |ds| ensures MinDistance(ds) <= ds[j].distance {
        if j < |ds| - 1 {
          assert ds[j] == init[j];
        }
      }
    }
  }

  /** The closest detection is the first one of least distance, and there is
      none exactly when no distance is below Float.MAX_VALUE (in particular
      when the list is empty). */
  lemma {:induction false} ClosestSpec(ds: seq<Detection>)
    ensures ClosestAmong(ds).None? <==> forall j :: 0 <= j < |ds| ==> ds[j].distance >= FloatMax
    ensures ClosestAmong(ds).Some? ==> exists i :: IsFirstClosest(ds, i) && ClosestAmong(ds).value == ds[i]
    ensures forall i :: IsFirstClosest(ds, i) ==> ClosestAmong(ds) == Some(ds[i])
  {
    MinDistanceSpec(ds);
    if ds != [] {
      var init := ds[..|ds| - 1];
      var last := ds[|ds| - 1];
      ClosestSpec(init);
      MinDistanceSpec(init);
      if last.distance < MinDistance(init) {
        assert IsFirstClosest(ds, |ds| - 1) by {
          forall j | 0 <= j < |ds| - 1 ensures last.distance < ds[j].distance {
            assert ds[j] == init[j];
          }
        }
        forall i | IsFirstClosest(ds, i) ensures ClosestAmong(ds) == Some(ds[i]) {
          if i < |ds| - 1 {
            assert false;
          }
        }
      } else {
        if ClosestAmong(ds).Some? {
          var i :| IsFirstClosest(init, i) && ClosestAmong(init).value == init[i];
          assert ds[i] == init[i];
          forall j | 0 <= j < i ensures ds[i].distance < ds[j].distance {
            assert ds[j] == init[j];
          }
          forall j | 0 <= j < |ds| ensures ds[i].distance <= ds[j].distance {
            if j < |ds| - 1 {
              assert ds[j] == init[j];
            }
          }
          assert IsFirstClosest(ds, i);
        } else {
          forall j | 0 <= j < |ds| ensures ds[j].distance >= FloatMax {
            if j < |ds| - 1 {
              assert ds[j] == init[j];
            }
          }
        }
        forall i | IsFirstClosest(ds, i) ensures ClosestAmong(ds) == Some(ds[i]) {
          if i < |ds| - 1 {
            assert IsFirstClosest(init, i) by {
              forall j | 0 <= j < |init| ensures init[i].distance <= init[j].distance {
                assert init[j] == ds[j];
              }
              forall j | 0 <= j < i ensures init[i].distance < init[j].distance {
                assert init[j] == ds[j];
              }
            }
          } else {
            assert false;
          }
        }
      }
    }
  }

  /** findClosestDetection: one pass keeping the running minimum. */
  method FindClosestDetection(detections: seq<Detection>) returns (closest: Option<Detection>)
    ensures closest == ClosestAmong(detections)
  {
    closest := None;
    var minDistance := FloatMax;
    for i := 0 to |detections|
      invariant closest == ClosestAmong(detections[..i])
      invariant minDistance == MinDistance(detections[..i])
    {
      assert detections[..i + 1][..i] == detections[..i];
      var detection := detections[i];
      if detection.distance < minDistance {
        minDistance := detection.distance;
        closest := Some(detection);
      }
    }
    assert detections[..|detections|] == detections;
  }

  // ---------------------------------------------------------------------
  // The two candidate alerts
  // ---------------------------------------------------------------------

  /** The object alert processDetectionResults would speak, if any: the
      closest detection must be confident beyond the threshold. */
  function ObjectAlert(detections: seq<Detection>): Option<AlertText>
  {
    match ClosestAmong(detections)
    case None => None
    case Some(closest) =>
      if closest.confidence > ConfidenceThreshold then
        if |detections| > 1 then Some(MultiObject(|detections|, closest.direction, closest.distance))
        else Some(SingleObject(closest.direction, closest.distance))
      else None
  }

  /** An object alert exists exactly when the closest detection is confident
      beyond the threshold; it reports that detection's direction and
      distance, and it is the multi-object text exactly when there is more
      than one detection, in which case it carries their number. */
  lemma ObjectAlertSpec(detections: seq<Detection>)
    ensures ObjectAlert(detections).Some? <==>
              ClosestAmong(detections).Some? && ClosestAmong(detections).value.confidence > ConfidenceThreshold
    ensures ObjectAlert(detections).Some? ==>
              && ObjectAlert(detections).value.direction == ClosestAmong(detections).value.direction
              && ObjectAlert(detections).value.distance == ClosestAmong(detections).value.distance
              && (ObjectAlert(detections).value.MultiObject? <==> |detections| > 1)
              && (ObjectAlert(detections).value.MultiObject? ==> ObjectAlert(detections).value.count == |detections|)
              && (ObjectAlert(detections).value.SingleObject? <==> |detections| == 1)
  {
    if ClosestAmong(detections).Some? {
      ClosestSpec(detections);
    }
  }

  /** A lone detection of confidence exactly 0.6 passes the decoder but is never announced. */
  lemma ThresholdDetectionSilent(d: Detection)
    requires d.confidence == ConfidenceThreshold
    ensures ObjectAlert([d]) == None
  {
    assert [d][..|[d]| - 1] == [];
    if d.distance < FloatMax {
      assert ClosestAmong([d]) == Some(d);
    } else {
      assert ClosestAmong([d]) == None;
    }
  }

  /** Two detections, the nearer one confident: the multi-object text names its direction and distance. */
  lemma TwoDetectionsScenario(near: Detection, far: Detection)
    requires near.confidence == 0.72 && near.distance == 1.5 && near.direction == Left
    requires far.distance == 3.0
    ensures ObjectAlert([far, near]) == Some(MultiObject(2, Left, 1.5))
  {
    assert [far, near][..|[far, near]| - 1] == [far];
    assert [far][..|[far]| - 1] == [];
    assert MinDistance([far]) == 3.0;
    assert ClosestAmong([far, near]) == Some(near);
  }

  /** Only the closest detection is weighed: a nearer detection at the
      threshold silences a farther, confident one. */
  lemma NearerUnconfidentSilences(near: Detection, far: Detection)
    requires near.confidence == 0.6 && near.distance == 1.0
    requires far.confidence == 0.8 && far.distance == 2.0
    ensures ObjectAlert([near, far]) == None
  {
    assert [near, far][..|[near, far]| - 1] == [near];
    assert [near][..|[near]| - 1] == [];
    assert MinDistance([near]) == 1.0;
    assert ClosestAmong([near, far]) == Some(near);
  }

  /** The wall alert checkForWall would speak, if any. */
  function WallAlert(distance: real): Option<AlertText>
  {
    if distance <= WallDistanceThreshold then Some(NearWall(distance)) else None
  }

  /** If the camera model puts row 360 at 1.05 m or further, the wall sample
      rounds to more than 1.0 m and the wall alert can never be spoken,
      whatever the frame height. */
  lemma WallAlertUnreachable(frameHeight: int, ranging: real -> real)
    requires frameHeight > 0 && ranging(360.0) >= 1.05
    ensures WallAlert(WallDistance(frameHeight, ranging)) == None
  {
    WallDistanceFixed(frameHeight, ranging);
    RoundToTenthMonotone(1.05, ranging(360.0));
    assert RoundToTenth(1.05) == 1.1 by {
      assert (1.05 * 10.0 + 0.5).Floor == 11;
    }
  }

  /** The alert a frame proposes: an empty list goes only to the wall check. */
  function Candidate(detections: seq<Detection>, frameHeight: int, ranging: real -> real): Option<AlertText>
    requires frameHeight > 0
  {
    if detections == [] then WallAlert(WallDistance(frameHeight, ranging))
    else ObjectAlert(detections)
  }

  /** No frame ever proposes the blank text, and an empty list proposes only a wall alert. */
  lemma CandidateSpec(detections: seq<Detection>, frameHeight: int, ranging: real -> real)
    requires frameHeight > 0
    ensures Candidate(detections, frameHeight, ranging) != Some(Blank)
    ensures detections == [] ==> Candidate(detections, frameHeight, ranging).None?
                                 || Candidate(detections, frameHeight, ranging).value.NearWall?
    ensures detections != [] ==> Candidate(detections, frameHeight, ranging).None?
                                 || !Candidate(detections, frameHeight, ranging).value.NearWall?
  {
  }

  // ---------------------------------------------------------------------
  // Cooldown and repeat suppression
  // ---------------------------------------------------------------------

  /** The two fields the policy keeps between frames. */
  datatype AlertState = AlertState(lastAlertTime: int, lastAlertText: AlertText)

  /** The state of a freshly created screen: time 0 and the empty text. */
  const InitialState: AlertState := AlertState(0, Blank)

  /** What one call does: the next state and the text spoken, if any. */
  datatype Outcome = Outcome(next: AlertState, spoken: Option<AlertText>)

  /** One alert decision at time `now` for a proposed text. */
  function Step(state: AlertState, now: int, candidate: Option<AlertText>): Outcome
  {
    if now - state.lastAlertTime < AlertCooldown then Outcome(state, None)
    else match candidate
      case None => Outcome(state, None)
      case Some(text) =>
        if text != state.lastAlertText then Outcome(AlertState(now, text), Some(text))
        else Outcome(state, None)
  }

  /** A text is spoken exactly when the cooldown has elapsed and the proposed
      text differs from the last one; the state then becomes (now, text), and
      otherwise it does not change. */
  lemma StepSpec(state: AlertState, now: int, candidate: Option<AlertText>)
    ensures Step(state, now, candidate).spoken.Some? <==>
              now - state.lastAlertTime >= AlertCooldown && candidate.Some? && candidate.value != state.lastAlertText
    ensures Step(state, now, candidate).spoken.Some? ==>
              Step(state, now, candidate).spoken == candidate
              && Step(state, now, candidate).next == AlertState(now, candidate.value)
    ensures Step(state, now, candidate).spoken.None? ==> Step(state, now, candidate).next == state
  {
  }

  /** Within the cooldown nothing is spoken and nothing changes. */
  lemma CooldownSilences(state: AlertState, now: int, candidate: Option<AlertText>)
    requires now - state.lastAlertTime < AlertCooldown
    ensures Step(state, now, candidate) == Outcome(state, None)
  {
  }

  /** Proposing the text just spoken never speaks again. */
  lemma RepeatSilenced(state: AlertState, now: int)
    ensures Step(state, now, Some(state.lastAlertText)).spoken == None
    ensures Step(state, now, Some(state.lastAlertText)).next == state
  {
  }

  /** A frame seen at time `now` with the proposal it makes. */
  datatype Frame = Frame(now: int, candidate: Option<AlertText>)

  /** A spoken alert and the time it was spoken. */
  datatype Announcement = Announcement(time: int, text: AlertText)

  /** The state after a run of frames. */
  function Run(state: AlertState, frames: seq<Frame>): AlertState
    decreases |frames|
  {
    if frames == [] then state
    else Run(Step(state, frames[0].now, frames[0].candidate).next, frames[1..])
  }

  /** The announcements made during a run of frames, in order. */
  function Announced(state: AlertState, frames: seq<Frame>): seq<Announcement>
    decreases |frames|
  {
    if frames == [] then []
    else
      var out := Step(state, frames[0].now, frames[0].candidate);
      (if out.spoken.Some? then [Announcement(frames[0].now, out.spoken.value)] else [])
      + Announced(out.next, frames[1..])
  }

  /** Each announcement is at least the cooldown after the one before it
      (the first: after `from`) and says something different. */
  predicate Spaced(from: AlertState, a: seq<Announcement>)
    decreases |a|
  {
    a == [] ||
    (&& a[0].time - from.lastAlertTime >= AlertCooldown
     && a[0].text != from.lastAlertText
     && Spaced(AlertState(a[0].time, a[0].text), a[1..]))
  }

  /** The announcements of any run of frames are spaced, and the run ends in
      the state of its last announcement (or where it started, if silent). */
  lemma {:induction false} AnnouncedSpaced(state: AlertState, frames: seq<Frame>)
    ensures Spaced(state, Announced(state, frames))
    ensures Announced(state, frames) == [] ==> Run(state, frames) == state
    ensures Announced(state, frames) != [] ==>
              Run(state, frames) == AlertState(Announced(state, frames)[|Announced(state, frames)| - 1].time,
                                               Announced(state, frames)[|Announced(state, frames)| - 1].text)
    decreases |frames|
  {
    if frames != [] {
      var out := Step(state, frames[0].now, frames[0].candidate);
      var rest := Announced(out.next, frames[1..]);
      AnnouncedSpaced(out.next, frames[1..]);
      StepSpec(state, frames[0].now, frames[0].candidate);
      if out.spoken.Some? {
        var a := [Announcement(frames[0].now, out.spoken.value)] + rest;
        assert a[1..] == rest;
        assert Announced(state, frames) == a;
      } else {
        assert Announced(state, frames) == rest;
      }
    }
  }

  /** Spacing, stated pairwise. */
  lemma {:induction false} SpacedPairwise(from: AlertState, a: seq<Announcement>)
    requires Spaced(from, a)
    ensures a != [] ==> a[0].time - from.lastAlertTime >= AlertCooldown && a[0].text != from.lastAlertText
    ensures forall i :: 0 < i < |a| ==> a[i].time - a[i - 1].time >= AlertCooldown && a[i].text != a[i - 1].text
    decreases |a|
  {
    if a != [] {
      var rest := a[1..];
      SpacedPairwise(AlertState(a[0].time, a[0].text), rest);
      forall i | 0 < i < |a| ensures a[i].time - a[i - 1].time >= AlertCooldown && a[i].text != a[i - 1].text {
        if i > 1 {
          assert a[i] == rest[i - 1] && a[i - 1] == rest[i - 2];
        }
      }
    }
  }

  /** The state an announcement history leaves behind. */
  function EndState(from: AlertState, a: seq<Announcement>): AlertState
  {
    if a == [] then from else AlertState(a[|a| - 1].time, a[|a| - 1].text)
  }

  /** A spaced history stays spaced when the next step speaks. */
  lemma {:induction false} SpacedSnoc(from: AlertState, a: seq<Announcement>, now: int, candidate: Option<AlertText>)
    requires Spaced(from, a)
    requires Step(EndState(from, a), now, candidate).spoken.Some?
    ensures Spaced(from, a + [Announcement(now, candidate.value)])
    ensures EndState(from, a + [Announcement(now, candidate.value)]) == Step(EndState(from, a), now, candidate).next
    decreases |a|
  {
    StepSpec(EndState(from, a), now, candidate);
    var b := a + [Announcement(now, candidate.value)];
    if a != [] {
      var head := AlertState(a[0].time, a[0].text);
      assert EndState(head, a[1..]) == EndState(from, a);
      SpacedSnoc(head, a[1..], now, candidate);
      assert b[1..] == a[1..] + [Announcement(now, candidate.value)];
    }
  }

  /** Whatever the order of the timestamps, consecutive announcements are at
      least the cooldown apart and never repeat a text, and the first one is
      at least the cooldown after the starting state's time and differs from
      its text. */
  lemma AnnouncementsSpaced(state: AlertState, frames: seq<Frame>)
    ensures var a := Announced(state, frames);
      && (a != [] ==> a[0].time - state.lastAlertTime >= AlertCooldown && a[0].text != state.lastAlertText)
      && (forall i :: 0 < i < |a| ==> a[i].time - a[i - 1].time >= AlertCooldown && a[i].text != a[i - 1].text)
  {
    AnnouncedSpaced(state, frames);
    SpacedPairwise(state, Announced(state, frames));
  }

  /** A worked run: an alert at 1000 ms silences the same text at 1300 ms
      (cooldown), and again at 1700 ms (repeat), while a new text at 1700 ms
      is spoken. */
  lemma CooldownScenario(t1: AlertText, t2: AlertText)
    requires t1 != Blank && t2 != t1
    ensures Announced(InitialState, [Frame(1000, Some(t1)), Frame(1300, Some(t2)), Frame(1700, Some(t1))])
         == [Announcement(1000, t1)]
    ensures Announced(InitialState, [Frame(1000, Some(t1)), Frame(1300, Some(t2)), Frame(1700, Some(t2))])
         == [Announcement(1000, t1), Announcement(1700, t2)]
  {
    var s1 := AlertState(1000, t1);
    assert Step(InitialState, 1000, Some(t1)) == Outcome(s1, Some(t1));
    assert Step(s1, 1300, Some(t2)) == Outcome(s1, None);
    assert Step(s1, 1700, Some(t1)) == Outcome(s1, None);
    assert Step(s1, 1700, Some(t2)) == Outcome(AlertState(1700, t2), Some(t2));
    var f1 := [Frame(1000, Some(t1)), Frame(1300, Some(t2)), Frame(1700, Some(t1))];
    assert Announced(s1, [Frame(1700, Some(t1))]) == [];
    assert Announced(s1, f1[1..]) == [] by {
      assert f1[1..][1..] == [Frame(1700, Some(t1))];
    }
    var f2 := [Frame(1000, Some(t1)), Frame(1300, Some(t2)), Frame(1700, Some(t2))];
    assert Announced(s1, [Frame(1700, Some(t2))]) == [Announcement(1700, t2)];
    assert Announced(s1, f2[1..]) == [Announcement(1700, t2)] by {
      assert f2[1..][1..] == [Frame(1700, Some(t2))];
    }
  }
}
