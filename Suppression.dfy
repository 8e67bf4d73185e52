/** applyNMS: non-maximum suppression. The list is sorted by confidence,
    highest first and stable on ties; then the best remaining detection is
    accepted and every remaining detection overlapping it by more than
    IouThreshold is discarded, until the list is empty. */
module Suppression {
  import opened Geometry
  import opened Detections

  /** The discard test of applyNMS's inner loop. */
  predicate Overlaps(accepted: Detection, other: Detection)
  {
    CalculateIou(accepted.bbox, other.bbox) > IouThreshold
  }

  lemma OverlapsSymmetric(a: Detection, b: Detection)
    ensures Overlaps(a, b) <==> Overlaps(b, a)
  {
    IouSymmetric(a.bbox, b.bbox);
  }

  /** Non-increasing confidence, as the comparator Float.compare(d2, d1) orders. */
  predicate SortedByConfidence(s: seq<Detection>)
  {
    forall i, j :: 0 <= i < j < |s| ==> s[i].confidence >= s[j].confidence
  }

  /** The head of a sorted list is at least as confident as any member. */
  lemma HeadMostConfident(s: seq<Detection>, d: Detection)
    requires SortedByConfidence(s) && d in s
    ensures s[0].confidence >= d.confidence
  {
    var i :| 0 <= i < |s| && s[i] == d;
  }

  /** The detections of `s` whose confidence is exactly c, in order. */
  function WithConfidence(s: seq<Detection>, c: real): seq<Detection>
  {
    if s == [] then []
    else (if s[0].confidence == c then [s[0]] else []) + WithConfidence(s[1..], c)
  }

  /** Inserts d before the first element of lower confidence. */
  function Insert(d: Detection, s: seq<Detection>): (r: seq<Detection>)
    ensures multiset(r) == multiset(s) + multiset{d}
  {
    if s == [] || d.confidence >= s[0].confidence then [d] + s
    else
      assert s == [s[0]] + s[1..];
      [s[0]] + Insert(d, s[1..])
  }

  /** The order List.sort leaves: a stable sort by decreasing confidence. */
  function SortByConfidence(s: seq<Detection>): (r: seq<Detection>)
    ensures multiset(r) == multiset(s)
    ensures SortedByConfidence(r)
  {
    if s == [] then []
    else
      assert s == [s[0]] + s[1..];
      InsertSorted(s[0], SortByConfidence(s[1..]));
      Insert(s[0], SortByConfidence(s[1..]))
  }

  lemma SortedCons(h: Detection, t: seq<Detection>)
    requires SortedByConfidence(t)
    requires forall x :: x in t ==> x.confidence <= h.confidence
    ensures SortedByConfidence([h] + t)
  {
    var r := [h] + t;
    forall i, j | 0 <= i < j < |r| ensures r[i].confidence >= r[j].confidence {
      assert r[j] == t[j - 1];
      if i > 0 {
        assert r[i] == t[i - 1];
      }
    }
  }

  lemma {:induction false} InsertSorted(d: Detection, s: seq<Detection>)
    requires SortedByConfidence(s)
    ensures SortedByConfidence(Insert(d, s))
  {
    if s == [] || d.confidence >= s[0].confidence {
      forall x | x in s ensures x.confidence <= d.confidence {
        var i :| 0 <= i < |s| && s[i] == x;
      }
      SortedCons(d, s);
    } else {
      assert SortedByConfidence(s[1..]);
      InsertSorted(d, s[1..]);
      var t := Insert(d, s[1..]);
      forall x | x in t ensures x.confidence <= s[0].confidence {
        assert multiset(t)[x] > 0;
        if x != d {
          assert x in s[1..];
        }
      }
      SortedCons(s[0], t);
    }
  }

  lemma {:induction false} InsertStable(d: Detection, s: seq<Detection>, c: real)
    ensures WithConfidence(Insert(d, s), c) == (if d.confidence == c then [d] else []) + WithConfidence(s, c)
  {
    if s == [] || d.confidence >= s[0].confidence {
      assert ([d] + s)[1..] == s;
    } else {
      InsertStable(d, s[1..], c);
      assert ([s[0]] + Insert(d, s[1..]))[1..] == Insert(d, s[1..]);
    }
  }

  /** The sort is stable: detections of equal confidence keep their relative order. */
  lemma {:induction false} SortStable(s: seq<Detection>, c: real)
    ensures WithConfidence(SortByConfidence(s), c) == WithConfidence(s, c)
  {
    if s != [] {
      SortStable(s[1..], c);
      InsertStable(s[0], SortByConfidence(s[1..]), c);
    }
  }

  /** Sorting an already sorted list changes nothing. */
  lemma {:induction false} SortOfSorted(s: seq<Detection>)
    requires SortedByConfidence(s)
    ensures SortByConfidence(s) == s
  {
    if s != [] {
      SortOfSorted(s[1..]);
      assert s == [s[0]] + s[1..];
    }
  }

  /** What applyNMS's inner loop leaves of `s` after accepting `best`: the
      detections not overlapping it, in their original order. */
  function Survivors(best: Detection, s: seq<Detection>): (r: seq<Detection>)
    ensures |r| <= |s|
  {
    if s == [] then []
    else
      var last := s[|s| - 1];
      Survivors(best, s[..|s| - 1]) + (if Overlaps(best, last) then [] else [last])
  }

  /** Proof step for the removal loop: scanning one more detection keeps it
      iff it does not overlap the accepted one. */
  lemma SurvivorsSnoc(best: Detection, s: seq<Detection>, k: nat)
    requires k < |s|
    ensures Survivors(best, s[..k + 1])
         == Survivors(best, s[..k]) + (if Overlaps(best, s[k]) then [] else [s[k]])
  {
    assert s[..k + 1][..k] == s[..k];
  }

  /** Survivors keeps every occurrence of a non-overlapping detection and no
      occurrence of an overlapping one. */
  lemma {:induction false} SurvivorsCount(best: Detection, s: seq<Detection>, x: Detection)
    ensures multiset(Survivors(best, s))[x] == if Overlaps(best, x) then 0 else multiset(s)[x]
  {
    if s != [] {
      var init, last := s[..|s| - 1], s[|s| - 1];
      assert s == init + [last];
      SurvivorsCount(best, init, x);
    }
  }

  /** The removal never adds an occurrence. */
  lemma SurvivorsCountBound(best: Detection, s: seq<Detection>, x: Detection)
    ensures multiset(Survivors(best, s))[x] <= multiset(s)[x]
  {
    SurvivorsCount(best, s, x);
  }

  lemma SurvivorsSubMultiset(best: Detection, s: seq<Detection>)
    ensures multiset(Survivors(best, s)) <= multiset(s)
  {
    forall x ensures multiset(Survivors(best, s))[x] <= multiset(s)[x] {
      SurvivorsCountBound(best, s, x);
    }
  }

  lemma SurvivorsMember(best: Detection, s: seq<Detection>, x: Detection)
    requires x in Survivors(best, s)
    ensures x in s && !Overlaps(best, x)
  {
    SurvivorsCount(best, s, x);
    assert multiset(Survivors(best, s))[x] > 0;
  }

  /** A subsequence of a sorted list is sorted. */
  lemma {:induction false} SurvivorsSorted(best: Detection, s: seq<Detection>)
    requires SortedByConfidence(s)
    ensures SortedByConfidence(Survivors(best, s))
  {
    if s != [] {
      var init := s[..|s| - 1];
      var last := s[|s| - 1];
      assert SortedByConfidence(init);
      SurvivorsSorted(best, init);
      var prefix := Survivors(best, init);
      forall x | x in prefix ensures x.confidence >= last.confidence {
        SurvivorsMember(best, init, x);
      }
    }
  }

  /** When nothing overlaps `best`, the inner loop removes nothing. */
  lemma {:induction false} SurvivorsAll(best: Detection, s: seq<Detection>)
    requires forall x :: x in s ==> !Overlaps(best, x)
    ensures Survivors(best, s) == s
  {
    if s != [] {
      var init, last := s[..|s| - 1], s[|s| - 1];
      assert s == init + [last];
      assert last in s;
      SurvivorsAll(best, init);
    }
  }

  /** The outer loop of applyNMS on a list already sorted by confidence. */
  function Suppress(s: seq<Detection>): (r: seq<Detection>)
    ensures |r| <= |s|
    ensures |r| == 0 <==> |s| == 0
    decreases |s|
  {
    if s == [] then []
    else [s[0]] + Suppress(Survivors(s[0], s[1..]))
  }

  /** applyNMS as a function of the list it is given. */
  function Nms(detections: seq<Detection>): seq<Detection>
  {
    Suppress(SortByConfidence(detections))
  }

  /** Putting the same head on two lists keeps their counts ordered. */
  lemma ConsCount(h: Detection, a: seq<Detection>, b: seq<Detection>, x: Detection)
    requires multiset(a)[x] <= multiset(b)[x]
    ensures multiset([h] + a)[x] <= multiset([h] + b)[x]
  {
  }

  /** Removing the same head from two lists keeps their counts strictly ordered. */
  lemma ConsCountLess(h: Detection, a: seq<Detection>, b: seq<Detection>, x: Detection)
    requires multiset([h] + a)[x] < multiset([h] + b)[x]
    ensures multiset(a)[x] < multiset(b)[x]
  { }

  lemma {:induction false} SuppressCount(s: seq<Detection>, x: Detection)
    ensures multiset(Suppress(s))[x] <= multiset(s)[x]
    decreases |s|
  {
    if s != [] {
      var rest := Survivors(s[0], s[1..]);
      SuppressCount(rest, x);
      SurvivorsCountBound(s[0], s[1..], x);
      ConsCount(s[0], Suppress(rest), s[1..], x);
      assert s == [s[0]] + s[1..];
    }
  }

  lemma SuppressSubMultiset(s: seq<Detection>)
    ensures multiset(Suppress(s)) <= multiset(s)
  {
    forall x ensures multiset(Suppress(s))[x] <= multiset(s)[x] {
      SuppressCount(s, x);
    }
  }

  lemma SuppressMember(s: seq<Detection>, x: Detection)
    requires x in Suppress(s)
    ensures x in s
  {
    SuppressSubMultiset(s);
    assert multiset(Suppress(s))[x] > 0;
  }

  /** Acceptance order is decreasing confidence. */
  lemma {:induction false} SuppressSorted(s: seq<Detection>)
    requires SortedByConfidence(s)
    ensures SortedByConfidence(Suppress(s))
    decreases |s|
  {
    if s != [] {
      var rest := Survivors(s[0], s[1..]);
      assert SortedByConfidence(s[1..]);
      SurvivorsSorted(s[0], s[1..]);
      SuppressSorted(rest);
      var tail := Suppress(rest);
      forall x | x in tail ensures x.confidence <= s[0].confidence {
        SuppressMember(rest, x);
        SurvivorsMember(s[0], s[1..], x);
      }
    }
  }

  /** No two accepted detections overlap by more than the threshold, in
      either order. */
  lemma {:induction false} SuppressSeparated(s: seq<Detection>)
    ensures forall i, j :: 0 <= i < |Suppress(s)| && 0 <= j < |Suppress(s)| && i != j ==>
              !Overlaps(Suppress(s)[i], Suppress(s)[j])
    decreases |s|
  {
    if s != [] {
      var rest := Survivors(s[0], s[1..]);
      SuppressSeparated(rest);
      var tail := Suppress(rest);
      var r := Suppress(s);
      assert r == [s[0]] + tail;
      forall x | x in tail ensures !Overlaps(s[0], x) && !Overlaps(x, s[0]) {
        SuppressMember(rest, x);
        SurvivorsMember(s[0], s[1..], x);
        OverlapsSymmetric(s[0], x);
      }
      forall i, j | 0 <= i < |r| && 0 <= j < |r| && i != j
        ensures !Overlaps(r[i], r[j])
      {
        if i == 0 {
          assert r[j] == tail[j - 1];
          assert r[j] in tail;
        } else if j == 0 {
          assert r[i] == tail[i - 1];
          assert r[i] in tail;
        } else {
          assert r[i] == tail[i - 1] && r[j] == tail[j - 1];
        }
      }
    }
  }

  /** Every discarded detection (an occurrence in the input missing from the
      output) overlaps an accepted detection of at least its confidence. */
  lemma {:induction false} SuppressCovers(s: seq<Detection>, d: Detection)
    requires SortedByConfidence(s)
    requires multiset(Suppress(s))[d] < multiset(s)[d]
    ensures exists a :: a in Suppress(s) && Overlaps(a, d) && a.confidence >= d.confidence
    decreases |s|
  {
    var rest := Survivors(s[0], s[1..]);
    var tail := Suppress(rest);
    assert s == [s[0]] + s[1..];
    ConsCountLess(s[0], tail, s[1..], d);
    assert d in s[1..];
    SurvivorsCount(s[0], s[1..], d);
    if Overlaps(s[0], d) {
      HeadMostConfident(s, d);
      assert s[0] in Suppress(s);
    } else {
      // d survived the first round, so it was discarded in a later one.
      assert SortedByConfidence(s[1..]);
      SurvivorsSorted(s[0], s[1..]);
      SuppressCovers(rest, d);
      var a :| a in tail && Overlaps(a, d) && a.confidence >= d.confidence;
      assert a in Suppress(s);
    }
  }

  /** A pairwise separated list is a head separated from every later member,
      followed by a pairwise separated tail. */
  lemma SeparatedSplit(s: seq<Detection>)
    requires s != []
    requires forall i, j :: 0 <= i < |s| && 0 <= j < |s| && i != j ==> !Overlaps(s[i], s[j])
    ensures forall x :: x in s[1..] ==> !Overlaps(s[0], x)
    ensures forall i, j :: 0 <= i < |s[1..]| && 0 <= j < |s[1..]| && i != j ==> !Overlaps(s[1..][i], s[1..][j])
  {
    forall x | x in s[1..] ensures !Overlaps(s[0], x) {
      var j :| 0 <= j < |s[1..]| && s[1..][j] == x;
      assert s[j + 1] == x;
    }
  }

  /** A list whose members are pairwise separated passes through unchanged. */
  lemma {:induction false} SuppressOfSeparated(s: seq<Detection>)
    requires forall i, j :: 0 <= i < |s| && 0 <= j < |s| && i != j ==> !Overlaps(s[i], s[j])
    ensures Suppress(s) == s
    decreases |s|
  {
    if s != [] {
      SeparatedSplit(s);
      SurvivorsAll(s[0], s[1..]);
      SuppressOfSeparated(s[1..]);
      assert s == [s[0]] + s[1..];
    }
  }

  /** The properties applyNMS promises its caller: the output is drawn from the
      input, highest confidence first, pairwise separated, and every detection
      it drops overlaps a kept one of at least its confidence. */
  lemma NmsSpec(detections: seq<Detection>)
    ensures multiset(Nms(detections)) <= multiset(detections)
    ensures SortedByConfidence(Nms(detections))
    ensures |Nms(detections)| == 0 <==> |detections| == 0
    ensures forall i, j :: 0 <= i < |Nms(detections)| && 0 <= j < |Nms(detections)| && i != j ==>
              !Overlaps(Nms(detections)[i], Nms(detections)[j])
    ensures forall d :: multiset(Nms(detections))[d] < multiset(detections)[d] ==>
              exists a :: a in Nms(detections) && Overlaps(a, d) && a.confidence >= d.confidence
  {
    var sorted := SortByConfidence(detections);
    SuppressSubMultiset(sorted);
    SuppressSorted(sorted);
    SuppressSeparated(sorted);
    forall d | multiset(Nms(detections))[d] < multiset(detections)[d]
      ensures exists a :: a in Nms(detections) && Overlaps(a, d) && a.confidence >= d.confidence
    {
      SuppressCovers(sorted, d);
    }
  }

  /** The first detection applyNMS accepts is one of highest confidence. */
  lemma NmsFirstIsMostConfident(detections: seq<Detection>)
    requires detections != []
    ensures Nms(detections) != [] && Nms(detections)[0] in detections
    ensures forall d :: d in detections ==> Nms(detections)[0].confidence >= d.confidence
  {
    var sorted := SortByConfidence(detections);
    assert Nms(detections)[0] == sorted[0];
    forall d | d in detections ensures sorted[0].confidence >= d.confidence {
      assert d in multiset(sorted);
      HeadMostConfident(sorted, d);
    }
    assert sorted[0] in multiset(detections);
  }

  /** Suppressing the output of a suppression returns it unchanged. */
  lemma NmsIdempotent(detections: seq<Detection>)
    ensures Nms(Nms(detections)) == Nms(detections)
  {
    var once := Nms(detections);
    NmsSpec(detections);
    SortOfSorted(once);
    SuppressOfSeparated(once);
  }

  /** One step of the removal loop: the detection at position j of the list is
      the k-th of the original, and removing it when its IoU with `best`
      exceeds the threshold, or stepping past it otherwise, extends the survivors. */
  lemma RemoveStep(best: Detection, rest: seq<Detection>, k: nat, items: seq<Detection>, j: nat, iou: real)
    requires k < |rest|
    requires items == Survivors(best, rest[..k]) + rest[k..] && j == |Survivors(best, rest[..k])|
    requires iou == CalculateIou(best.bbox, rest[k].bbox)
    ensures j < |items| && items[j] == rest[k]
    ensures iou > IouThreshold ==>
              items[..j] + items[j + 1..] == Survivors(best, rest[..k + 1]) + rest[k + 1..]
              && j == |Survivors(best, rest[..k + 1])|
    ensures !(iou > IouThreshold) ==>
              items == Survivors(best, rest[..k + 1]) + rest[k + 1..]
              && j + 1 == |Survivors(best, rest[..k + 1])|
  {
    SurvivorsSnoc(best, rest, k);
    var kept := Survivors(best, rest[..k]);
    assert rest[k..] == [rest[k]] + rest[k + 1..];
    assert items[..j] == kept;
    assert items[j + 1..] == rest[k + 1..];
  }

  /** The iterator loop of applyNMS: walks the list once and removes, in
      place, every detection whose IoU with `best` exceeds the threshold. */
  method RemoveOverlapping(detections: DetectionList, best: Detection)
    modifies detections
    ensures detections.items == Survivors(best, old(detections.items))
  {
    ghost var rest := detections.items;
    var j := 0;
    ghost var k := 0;
    while j < |detections.items|
      invariant 0 <= k <= |rest|
      invariant j == |Survivors(best, rest[..k])|
      invariant detections.items == Survivors(best, rest[..k]) + rest[k..]
      decreases |rest| - k
    {
      var detection := detections.items[j];
      var iou := CalculateIou(best.bbox, detection.bbox);
      RemoveStep(best, rest, k, detections.items, j, iou);
      if iou > IouThreshold {
        detections.items := detections.items[..j] + detections.items[j + 1..];
      } else {
        j := j + 1;
      }
      k := k + 1;
    }
    assert rest[..k] == rest;
  }

  /** One round of the outer loop: accepting the head and keeping its
      survivors leaves the overall result unchanged. */
  lemma AcceptStep(accepted: seq<Detection>, remaining: seq<Detection>)
    requires remaining != []
    ensures (accepted + [remaining[0]]) + Suppress(Survivors(remaining[0], remaining[1..]))
         == accepted + Suppress(remaining)
  {
  }

  /** applyNMS: sorts the caller's list in place, then repeatedly moves its
      head to the output and removes every remaining detection that overlaps
      it. The caller's list ends empty. */
  method ApplyNms(detections: DetectionList) returns (filteredDetections: seq<Detection>)
    modifies detections
    ensures detections.items == []
    ensures filteredDetections == Nms(old(detections.items))
  {
    filteredDetections := [];
    detections.items := SortByConfidence(detections.items);
    ghost var sorted := detections.items;

    while detections.items != []
      invariant filteredDetections + Suppress(detections.items) == Suppress(sorted)
      decreases |detections.items|
    {
      AcceptStep(filteredDetections, detections.items);
      var best := detections.items[0];
      detections.items := detections.items[1..];
      filteredDetections := filteredDetections + [best];
      RemoveOverlapping(detections, best);
    }
  }
}
