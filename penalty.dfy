/** penalty_functions.py: the scoring rules of a complete timetable. A lower total is a better
    timetable; each rule looks at the whole list of chosen lecture slots. */
module Penalty {
  import opened TimeModel
  import opened Text
  import opened Sequences

  /** The largest total a selection may have and still be kept. */
  const MaxConsideration: int := 5000
  /** Per pair of lectures that share some time. */
  const OverlapPenalty: int := 5000
  /** Per pair of back-to-back lectures. */
  const B2BPenalty: int := 100
  /** Declared for tutorials early in the week but read by no rule: the tutorial rule adds the
      bare distance from Friday. */
  const EarlyTutorialPenalty: int := 5
  /** Per week day that has exactly one lecture. */
  const OneLecturePenalty: int := 1
  /** Per hour that a lecture starts before EarliestHour. */
  const EarlyPenalty: int := 2
  const EarliestHour: int := 11
  /** Per hour that a lecture ends after LatestHour. */
  const LatePenalty: int := 10
  const LatestHour: int := 18
  /** Once if any lecture is on a Friday. */
  const FridayPenalty: int := 0

  type LecturePair = (LectureSlot, LectureSlot)

  // ---------------------------------------------------------------------------------------
  // All pairs of lectures

  /** The pairs (x, rest[j]), in the order of rest. */
  function PairsWith<T>(x: T, rest: seq<T>): (ps: seq<(T, T)>)
    ensures |ps| == |rest|
    ensures forall j :: 0 <= j < |rest| ==> ps[j] == (x, rest[j])
  {
    seq(|rest|, j requires 0 <= j < |rest| => (x, rest[j]))
  }

  /** The pairs (lectures[i], lectures[j]) with pos <= i < j, i slowest. */
  function PairsFrom<T>(lectures: seq<T>, pos: nat): seq<(T, T)>
    decreases |lectures| - pos
  {
    if pos >= |lectures| then []
    else PairsWith(lectures[pos], lectures[pos + 1..]) + PairsFrom(lectures, pos + 1)
  }

  /** Every unordered pair of distinct positions of lectures, as get_all_lecture_pairs lists them. */
  function AllPairs(lectures: seq<LectureSlot>): seq<LecturePair>
  {
    PairsFrom(lectures, 0)
  }

  /** get_all_lecture_pairs */
  method GetAllLecturePairs(lectures: seq<LectureSlot>) returns (pairs: seq<LecturePair>)
    ensures pairs == AllPairs(lectures)
  {
    pairs := [];
    for pos := 0 to |lectures|
      invariant pairs + PairsFrom(lectures, pos) == AllPairs(lectures)
    {
      ghost var before := pairs;
      RowEmpty(lectures, pos, before);
      for k := pos + 1 to |lectures|
        invariant pairs == before + PairsWith(lectures[pos], lectures[pos + 1..k])
      {
        RowStep(lectures, pos, k, before, pairs);
        pairs := pairs + [(lectures[pos], lectures[k])];
      }
      PairsFromStep(lectures, pos, before);
    }
    PairsFromEnd(lectures, pairs);
  }

  lemma {:induction false} RowEmpty<T>(lectures: seq<T>, pos: nat, before: seq<(T, T)>)
    requires pos < |lectures|
    ensures before + PairsWith(lectures[pos], lectures[pos + 1..pos + 1]) == before
  {
    assert before + [] == before;
  }

  lemma {:induction false} PairsFromEnd<T>(lectures: seq<T>, pairs: seq<(T, T)>)
    ensures pairs + PairsFrom(lectures, |lectures|) == pairs
  {
    assert pairs + [] == pairs;
  }

  lemma {:induction false} RowStep<T>(lectures: seq<T>, pos: nat, k: nat, before: seq<(T, T)>, pairs: seq<(T, T)>)
    requires pos < k < |lectures|
    requires pairs == before + PairsWith(lectures[pos], lectures[pos + 1..k])
    ensures pairs + [(lectures[pos], lectures[k])] == before + PairsWith(lectures[pos], lectures[pos + 1..k + 1])
  {
    PairsWithSnoc(lectures[pos], lectures[pos + 1..k], lectures[k]);
    SliceSnoc(lectures, pos + 1, k + 1);
    AppendAssoc(before, PairsWith(lectures[pos], lectures[pos + 1..k]), [(lectures[pos], lectures[k])]);
  }

  lemma {:induction false} PairsFromStep<T>(lectures: seq<T>, pos: nat, before: seq<(T, T)>)
    requires pos < |lectures|
    ensures before + PairsFrom(lectures, pos)
         == (before + PairsWith(lectures[pos], lectures[pos + 1..|lectures|])) + PairsFrom(lectures, pos + 1)
  {
    assert lectures[pos + 1..|lectures|] == lectures[pos + 1..];
  }

  lemma {:induction false} PairsWithSnoc<T>(x: T, rest: seq<T>, y: T)
    ensures PairsWith(x, rest + [y]) == PairsWith(x, rest) + [(x, y)]
  {
  }

  /** The place of the pair (i, j), i < j < n, when the pairs are listed with i slowest. */
  function PairIndex(n: nat, i: nat, j: nat): nat
    requires i < j < n
  {
    RowStart(n, i) + (j - i - 1)
  }

  /** The number of pairs whose first position is below i. */
  function RowStart(n: nat, i: nat): nat
    requires i <= n
  {
    if i == 0 then 0 else RowStart(n, i - 1) + (n - i)
  }

  lemma {:induction false} RowStartClosedForm(n: nat, i: nat)
    requires i <= n
    ensures 2 * RowStart(n, i) == i * (2 * n - i - 1)
  {
    if i > 0 {
      RowStartClosedForm(n, i - 1);
      assert 2 * RowStart(n, i) == (i - 1) * (2 * n - i) + 2 * (n - i);
    }
  }

  lemma {:induction false} PairsFromLength<T>(lectures: seq<T>, pos: nat)
    requires pos <= |lectures|
    ensures |PairsFrom(lectures, pos)| == RowStart(|lectures|, |lectures|) - RowStart(|lectures|, pos)
    decreases |lectures| - pos
  {
    var n := |lectures|;
    if pos < n {
      PairsFromLength(lectures, pos + 1);
      RowStartStep(n, pos + 1, n);
    }
  }

  lemma {:induction false} RowStartStep(n: nat, i: nat, k: nat)
    requires 0 < i <= k <= n
    ensures RowStart(n, k) >= RowStart(n, i) >= RowStart(n, i - 1) + (n - i)
    decreases k - i
  {
    if k > i {
      RowStartStep(n, i, k - 1);
    }
  }

  /** The number of pairs whose first position is in pos .. i-1. */
  function RowsBetween(n: nat, pos: nat, i: nat): nat
    requires pos <= i <= n
    decreases i - pos
  {
    if pos == i then 0 else (n - pos - 1) + RowsBetween(n, pos + 1, i)
  }

  lemma {:induction false} RowsBetweenRowStart(n: nat, pos: nat, i: nat)
    requires pos <= i <= n
    ensures RowsBetween(n, pos, i) == RowStart(n, i) - RowStart(n, pos)
    decreases i - pos
  {
    if pos < i {
      RowsBetweenRowStart(n, pos + 1, i);
      assert RowStart(n, pos + 1) == RowStart(n, pos) + (n - pos - 1);
    }
  }

  lemma {:induction false} RowsBetweenStep(n: nat, pos: nat, i: nat)
    requires pos < i <= n
    ensures RowsBetween(n, pos, i) == (n - pos - 1) + RowsBetween(n, pos + 1, i)
  {
  }

  lemma {:induction false} PairsFromAt<T>(lectures: seq<T>, pos: nat, i: nat, j: nat, index: nat)
    requires pos <= i < j < |lectures|
    requires index == RowsBetween(|lectures|, pos, i) + (j - i - 1)
    ensures index < |PairsFrom(lectures, pos)|
    ensures PairsFrom(lectures, pos)[index] == (lectures[i], lectures[j])
    decreases i - pos
  {
    if pos < i {
      var k := index - (|lectures| - pos - 1);
      RowsBetweenStep(|lectures|, pos, i);
      PairsFromAt(lectures, pos + 1, i, j, k);
      PairsFromTail(lectures, pos, k, index);
    } else {
      PairsFromHead(lectures, pos, j, index);
    }
  }

  /** The first row of PairsFrom(lectures, pos) pairs lectures[pos] with each later lecture. */
  lemma {:induction false} PairsFromHead<T>(lectures: seq<T>, pos: nat, j: nat, k: nat)
    requires pos < j < |lectures|
    requires k == j - pos - 1
    ensures k < |PairsFrom(lectures, pos)|
    ensures PairsFrom(lectures, pos)[k] == (lectures[pos], lectures[j])
  {
    var head := PairsWith(lectures[pos], lectures[pos + 1..]);
    assert PairsFrom(lectures, pos) == head + PairsFrom(lectures, pos + 1);
    assert lectures[pos + 1..][k] == lectures[j];
    assert head[k] == (lectures[pos], lectures[j]);
  }

  /** After its first row, PairsFrom(lectures, pos) continues with PairsFrom(lectures, pos + 1). */
  lemma {:induction false} PairsFromTail<T>(lectures: seq<T>, pos: nat, k: nat, index: nat)
    requires pos < |lectures| && k < |PairsFrom(lectures, pos + 1)|
    requires index == |lectures| - pos - 1 + k
    ensures index < |PairsFrom(lectures, pos)|
    ensures PairsFrom(lectures, pos)[index] == PairsFrom(lectures, pos + 1)[k]
  {
    var head := PairsWith(lectures[pos], lectures[pos + 1..]);
    assert PairsFrom(lectures, pos) == head + PairsFrom(lectures, pos + 1);
  }

  /** get_all_lecture_pairs lists n(n-1)/2 pairs: (lectures[i], lectures[j]) for each i < j,
      ordered by i and then by j. */
  lemma {:induction false} AllPairsShape(lectures: seq<LectureSlot>)
    ensures 2 * |AllPairs(lectures)| == |lectures| * (|lectures| - 1)
    ensures forall i, j :: 0 <= i < j < |lectures| ==>
      PairIndex(|lectures|, i, j) < |AllPairs(lectures)|
      && AllPairs(lectures)[PairIndex(|lectures|, i, j)] == (lectures[i], lectures[j])
  {
    var n := |lectures|;
    PairsFromLength(lectures, 0);
    RowStartClosedForm(n, n);
    forall i, j | 0 <= i < j < n
      ensures PairIndex(n, i, j) < |AllPairs(lectures)|
      ensures AllPairs(lectures)[PairIndex(n, i, j)] == (lectures[i], lectures[j])
    {
      RowsBetweenRowStart(n, 0, i);
      PairsFromAt(lectures, 0, i, j, PairIndex(n, i, j));
    }
  }

  /** The listing order is lexicographic in (i, j). */
  lemma {:induction false} PairIndexOrdered(n: nat, i: nat, j: nat, i': nat, j': nat)
    requires i < j < n && i' < j' < n
    requires i < i' || (i == i' && j < j')
    ensures PairIndex(n, i, j) < PairIndex(n, i', j')
  {
    if i < i' {
      RowStartStep(n, i + 1, i');
    }
  }

  /** Every listed pair is (lectures[i], lectures[j]) for some i < j. */
  lemma {:induction false} PairsFromMembers<T>(lectures: seq<T>, pos: nat, k: nat)
    requires k < |PairsFrom(lectures, pos)|
    ensures exists i, j :: pos <= i < j < |lectures| && PairsFrom(lectures, pos)[k] == (lectures[i], lectures[j])
    decreases |lectures| - pos
  {
    var n := |lectures|;
    var head := PairsWith(lectures[pos], lectures[pos + 1..]);
    if k < |head| {
      assert PairsFrom(lectures, pos)[k] == (lectures[pos], lectures[pos + 1 + k]);
    } else {
      PairsFromMembers(lectures, pos + 1, k - |head|);
      var i, j :| pos + 1 <= i < j < n && PairsFrom(lectures, pos + 1)[k - |head|] == (lectures[i], lectures[j]);
      assert PairsFrom(lectures, pos)[k] == (lectures[i], lectures[j]);
    }
  }

  // ---------------------------------------------------------------------------------------
  // Overlapping and back-to-back pairs

  /** is_overlapping: the same week day and the hour ranges share more than an end point. */
  predicate IsOverlapping(lecture1: LectureSlot, lecture2: LectureSlot)
  {
    lecture1.dayNum == lecture2.dayNum
    && lecture1.startHour < lecture2.endHour
    && lecture2.startHour < lecture1.endHour
  }

  /** is_b2b: the same week day and one starts at the hour the other ends. */
  predicate IsB2B(lecture1: LectureSlot, lecture2: LectureSlot)
  {
    lecture1.dayNum == lecture2.dayNum
    && (lecture1.startHour == lecture2.endHour || lecture2.startHour == lecture1.endHour)
  }

  /** Both relations are symmetric and hold only for lectures on the same day; touching
      lectures are back to back and never overlapping. */
  lemma {:induction false} PairRelations(a: LectureSlot, b: LectureSlot)
    ensures IsOverlapping(a, b) == IsOverlapping(b, a)
    ensures IsB2B(a, b) == IsB2B(b, a)
    ensures a.dayNum != b.dayNum ==> !IsOverlapping(a, b) && !IsB2B(a, b)
    ensures IsB2B(a, b) ==> !IsOverlapping(a, b)
  {
  }

  /** The number of pairs in ps that satisfy related. */
  function CountPairsWhere(ps: seq<LecturePair>, related: (LectureSlot, LectureSlot) -> bool): nat
    decreases |ps|
  {
    if ps == [] then 0
    else CountPairsWhere(ps[..|ps| - 1], related) + if related(ps[|ps| - 1].0, ps[|ps| - 1].1) then 1 else 0
  }

  /** The number of overlapping pairs of lectures. */
  function OverlapCount(lectures: seq<LectureSlot>): nat
  {
    CountPairsWhere(AllPairs(lectures), IsOverlapping)
  }

  /** The number of back-to-back pairs of lectures. */
  function B2BCount(lectures: seq<LectureSlot>): nat
  {
    CountPairsWhere(AllPairs(lectures), IsB2B)
  }

  lemma {:induction false} CountPairsWhereAppend(a: seq<LecturePair>, b: seq<LecturePair>,
                                                  related: (LectureSlot, LectureSlot) -> bool)
    ensures CountPairsWhere(a + b, related) == CountPairsWhere(a, related) + CountPairsWhere(b, related)
    decreases |b|
  {
    if b == [] {
      assert a + b == a;
    } else {
      assert (a + b)[..|a + b| - 1] == a + b[..|b| - 1];
      CountPairsWhereAppend(a, b[..|b| - 1], related);
    }
  }

  /** The positions (i, j), pos <= i < j, whose lectures are related. */
  ghost function RelatedPositions(lectures: seq<LectureSlot>, related: (LectureSlot, LectureSlot) -> bool,
                                  pos: nat): set<(int, int)>
  {
    set i, j | pos <= i < j < |lectures| && related(lectures[i], lectures[j]) :: (i, j)
  }

  /** The positions (pos, j), pos < j < end, whose lectures are related. */
  ghost function RelatedInRow(lectures: seq<LectureSlot>, related: (LectureSlot, LectureSlot) -> bool,
                              pos: nat, end: nat): set<(int, int)>
    requires pos < |lectures| && end <= |lectures|
  {
    set j | pos < j < end && related(lectures[pos], lectures[j]) :: (pos, j)
  }

  lemma {:induction false} CountRow(lectures: seq<LectureSlot>, related: (LectureSlot, LectureSlot) -> bool,
                                    pos: nat, end: nat)
    requires pos < end <= |lectures|
    ensures CountPairsWhere(PairsWith(lectures[pos], lectures[pos + 1..end]), related)
         == |RelatedInRow(lectures, related, pos, end)|
    decreases end
  {
    if end == pos + 1 {
      assert RelatedInRow(lectures, related, pos, end) == {};
    } else {
      var x, y := lectures[pos], lectures[end - 1];
      CountRow(lectures, related, pos, end - 1);
      SliceSnoc(lectures, pos + 1, end);
      PairsWithSnoc(x, lectures[pos + 1..end - 1], y);
      CountPairsWhereSnoc(PairsWith(x, lectures[pos + 1..end - 1]), (x, y), related);
      RelatedInRowSnoc(lectures, related, pos, end);
    }
  }

  lemma {:induction false} CountPairsWhereSnoc(ps: seq<LecturePair>, p: LecturePair,
                                                related: (LectureSlot, LectureSlot) -> bool)
    ensures CountPairsWhere(ps + [p], related) == CountPairsWhere(ps, related) + if related(p.0, p.1) then 1 else 0
  {
    assert (ps + [p])[..|ps|] == ps;
  }

  /** Extending a row by one position adds that position exactly when its lecture is related. */
  lemma {:induction false} RelatedInRowSnoc(lectures: seq<LectureSlot>, related: (LectureSlot, LectureSlot) -> bool,
                                            pos: nat, end: nat)
    requires pos + 1 < end <= |lectures|
    ensures |RelatedInRow(lectures, related, pos, end)|
         == |RelatedInRow(lectures, related, pos, end - 1)| + if related(lectures[pos], lectures[end - 1]) then 1 else 0
  {
    var smaller := RelatedInRow(lectures, related, pos, end - 1);
    if related(lectures[pos], lectures[end - 1]) {
      assert RelatedInRow(lectures, related, pos, end) == smaller + {(pos, end - 1)};
      assert (pos, end - 1) !in smaller;
    } else {
      assert RelatedInRow(lectures, related, pos, end) == smaller;
    }
  }

  lemma {:induction false} CountPairsFrom(lectures: seq<LectureSlot>, related: (LectureSlot, LectureSlot) -> bool,
                                          pos: nat)
    requires pos <= |lectures|
    ensures CountPairsWhere(PairsFrom(lectures, pos), related) == |RelatedPositions(lectures, related, pos)|
    decreases |lectures| - pos
  {
    var n := |lectures|;
    if pos == n {
      assert RelatedPositions(lectures, related, pos) == {};
    } else {
      CountPairsFrom(lectures, related, pos + 1);
      assert lectures[pos + 1..] == lectures[pos + 1..n];
      CountRow(lectures, related, pos, n);
      CountPairsWhereAppend(PairsWith(lectures[pos], lectures[pos + 1..]), PairsFrom(lectures, pos + 1), related);
      RelatedPositionsSplit(lectures, related, pos);
    }
  }

  /** The related positions from pos are those of row pos and those from pos + 1. */
  lemma {:induction false} RelatedPositionsSplit(lectures: seq<LectureSlot>, related: (LectureSlot, LectureSlot) -> bool,
                                                 pos: nat)
    requires pos < |lectures|
    ensures |RelatedPositions(lectures, related, pos)|
         == |RelatedInRow(lectures, related, pos, |lectures|)| + |RelatedPositions(lectures, related, pos + 1)|
  {
    var row := RelatedInRow(lectures, related, pos, |lectures|);
    var rest := RelatedPositions(lectures, related, pos + 1);
    assert RelatedPositions(lectures, related, pos) == row + rest;
    assert row * rest == {} by {
      forall p | p in row ensures p !in rest { }
    }
    assert |row + rest| == |row| + |rest|;
  }

  /** OverlapCount is the number of positions i < j whose lectures overlap, and B2BCount the
      number whose lectures are back to back. */
  lemma {:induction false} CountsArePositionPairs(lectures: seq<LectureSlot>)
    ensures OverlapCount(lectures)
         == |set i, j | 0 <= i < j < |lectures| && IsOverlapping(lectures[i], lectures[j]) :: (i, j)|
    ensures B2BCount(lectures)
         == |set i, j | 0 <= i < j < |lectures| && IsB2B(lectures[i], lectures[j]) :: (i, j)|
  {
    CountPairsFrom(lectures, IsOverlapping, 0);
    CountPairsFrom(lectures, IsB2B, 0);
    assert RelatedPositions(lectures, IsOverlapping, 0)
        == set i, j | 0 <= i < j < |lectures| && IsOverlapping(lectures[i], lectures[j]) :: (i, j);
    assert RelatedPositions(lectures, IsB2B, 0)
        == set i, j | 0 <= i < j < |lectures| && IsB2B(lectures[i], lectures[j]) :: (i, j);
  }

  /** Counts related pairs of a list of pairs, as get_overlap_penalty and get_b2b_penalty do. */
  method CountRelatedPairs(pairs: seq<LecturePair>, related: (LectureSlot, LectureSlot) -> bool)
    returns (count: nat)
    ensures count == CountPairsWhere(pairs, related)
    ensures count <= |pairs|
  {
    count := 0;
    for k := 0 to |pairs|
      invariant count == CountPairsWhere(pairs[..k], related)
      invariant count <= k
    {
      assert pairs[..k + 1][..k] == pairs[..k];
      if related(pairs[k].0, pairs[k].1) {
        count := count + 1;
      }
    }
    assert pairs[..|pairs|] == pairs;
  }

  /** get_overlap_penalty */
  method GetOverlapPenalty(lectures: seq<LectureSlot>) returns (penalty: int)
    ensures penalty == OverlapPenalty * OverlapCount(lectures)
  {
    var pairs := GetAllLecturePairs(lectures);
    var overlapCount := CountRelatedPairs(pairs, IsOverlapping);
    penalty := overlapCount * OverlapPenalty;
  }

  /** get_b2b_penalty */
  method GetB2BPenalty(lectures: seq<LectureSlot>) returns (penalty: int)
    ensures penalty == B2BPenalty * B2BCount(lectures)
  {
    var pairs := GetAllLecturePairs(lectures);
    var b2bCount := CountRelatedPairs(pairs, IsB2B);
    penalty := b2bCount * B2BPenalty;
  }

  // ---------------------------------------------------------------------------------------
  // Early and late lectures

  /** early_amount: how many hours before EarliestHour the lecture starts, or 0. */
  function EarlyAmount(lecture: LectureSlot): (hours: int)
    ensures hours >= 0 && hours >= EarliestHour - lecture.startHour
    ensures hours == 0 || hours == EarliestHour - lecture.startHour
  {
    if EarliestHour - lecture.startHour > 0 then EarliestHour - lecture.startHour else 0
  }

  /** late_amount: how many hours after LatestHour the lecture ends, or 0. */
  function LateAmount(lecture: LectureSlot): (hours: int)
    ensures hours >= 0 && hours >= lecture.endHour - LatestHour
    ensures hours == 0 || hours == lecture.endHour - LatestHour
  {
    if lecture.endHour - LatestHour > 0 then lecture.endHour - LatestHour else 0
  }

  /** What one lecture adds to the early/late penalty. */
  function EarlyLateCost(lecture: LectureSlot): (cost: int)
    ensures cost >= 0
  {
    EarlyAmount(lecture) * EarlyPenalty + LateAmount(lecture) * LatePenalty
  }

  /** get_early_late_penalty */
  method GetEarlyLatePenalty(lectures: seq<LectureSlot>) returns (penalty: int)
    ensures penalty == SumOver(lectures, EarlyLateCost)
    ensures penalty >= 0
  {
    penalty := 0;
    for k := 0 to |lectures|
      invariant penalty == SumOver(lectures[..k], EarlyLateCost)
      invariant penalty >= 0
    {
      assert lectures[..k + 1][..k] == lectures[..k];
      penalty := penalty + EarlyAmount(lectures[k]) * EarlyPenalty + LateAmount(lectures[k]) * LatePenalty;
    }
    assert lectures[..|lectures|] == lectures;
  }

  // ---------------------------------------------------------------------------------------
  // Tutorials early in the week

  /** A tutorial is a slot whose course name ends in "TUT". */
  predicate IsTutorial(lecture: LectureSlot)
  {
    EndsWith(lecture.courseName, "TUT")
  }

  /** distance_from_friday */
  function DistanceFromFriday(lecture: LectureSlot): (days: int)
    ensures WellFormed(lecture) ==> 0 <= days <= 4 && (days == 0 <==> lecture.dayOfWeek == "Friday")
  {
    5 - lecture.dayNum
  }

  /** What one slot adds to the early-tutorial penalty. */
  function TutorialCost(lecture: LectureSlot): int
  {
    if IsTutorial(lecture) then DistanceFromFriday(lecture) else 0
  }

  /** get_early_tutorial_penalty */
  method GetEarlyTutorialPenalty(lectures: seq<LectureSlot>) returns (penalty: int)
    ensures penalty == SumOver(lectures, TutorialCost)
  {
    penalty := 0;
    for k := 0 to |lectures|
      invariant penalty == SumOver(lectures[..k], TutorialCost)
    {
      assert lectures[..k + 1][..k] == lectures[..k];
      if EndsWith(lectures[k].courseName, "TUT") {
        penalty := penalty + DistanceFromFriday(lectures[k]);
      }
    }
    assert lectures[..|lectures|] == lectures;
  }

  /** The number of tutorial slots. */
  function TutorialCount(lectures: seq<LectureSlot>): nat
    decreases |lectures|
  {
    if lectures == [] then 0
    else TutorialCount(lectures[..|lectures| - 1]) + if IsTutorial(lectures[|lectures| - 1]) then 1 else 0
  }

  /** Only tutorials add to the early-tutorial penalty, each between 0 and 4. */
  lemma {:induction false} EarlyTutorialBounds(lectures: seq<LectureSlot>)
    requires forall x :: x in lectures ==> WellFormed(x)
    ensures 0 <= SumOver(lectures, TutorialCost) <= 4 * TutorialCount(lectures)
    decreases |lectures|
  {
    if lectures != [] {
      var init := lectures[..|lectures| - 1];
      assert forall x :: x in init ==> x in lectures;
      EarlyTutorialBounds(init);
      assert lectures[|lectures| - 1] in lectures;
    }
  }

  // ---------------------------------------------------------------------------------------
  // Days with a single lecture, and Fridays

  /** get_lectures_on_day: the lectures whose day_of_week is day, in their order. */
  function GetLecturesOnDay(lectures: seq<LectureSlot>, day: string): (onDay: seq<LectureSlot>)
    ensures |onDay| <= |lectures|
    ensures forall x :: x in onDay <==> x in lectures && x.dayOfWeek == day
    decreases |lectures|
  {
    if lectures == [] then []
    else
      var init, last := lectures[..|lectures| - 1], lectures[|lectures| - 1];
      assert lectures == init + [last];
      if last.dayOfWeek == day then GetLecturesOnDay(init, day) + [last] else GetLecturesOnDay(init, day)
  }

  /** The number of days among days that have exactly one lecture. */
  function SingleLectureDays(lectures: seq<LectureSlot>, days: seq<string>): nat
    decreases |days|
  {
    if days == [] then 0
    else
      SingleLectureDays(lectures, days[..|days| - 1])
      + if |GetLecturesOnDay(lectures, days[|days| - 1])| == 1 then 1 else 0
  }

  /** get_one_lecture_penalty: OneLecturePenalty for each week day with exactly one lecture. */
  method GetOneLecturePenalty(lectures: seq<LectureSlot>) returns (penalty: int)
    ensures penalty == OneLecturePenalty * SingleLectureDays(lectures, DaysOfTheWeek)
    ensures 0 <= penalty <= 5 * OneLecturePenalty
  {
    penalty := 0;
    for k := 0 to |DaysOfTheWeek|
      invariant penalty == OneLecturePenalty * SingleLectureDays(lectures, DaysOfTheWeek[..k])
      invariant 0 <= penalty <= k * OneLecturePenalty
    {
      assert DaysOfTheWeek[..k + 1][..k] == DaysOfTheWeek[..k];
      if |GetLecturesOnDay(lectures, DaysOfTheWeek[k])| == 1 {
        penalty := penalty + OneLecturePenalty;
      }
    }
    assert DaysOfTheWeek[..|DaysOfTheWeek|] == DaysOfTheWeek;
  }

  /** get_friday_penalty: FridayPenalty when some lecture is on a Friday, 0 otherwise. */
  function GetFridayPenalty(lectures: seq<LectureSlot>): (penalty: int)
    ensures penalty == if exists x :: x in lectures && x.dayOfWeek == "Friday" then FridayPenalty else 0
  {
    var onFriday := GetLecturesOnDay(lectures, "Friday");
    if onFriday != [] then
      assert onFriday[0] in onFriday;
      FridayPenalty
    else 0
  }

  // ---------------------------------------------------------------------------------------
  // The total

  /** The sum of the six rules. */
  function TotalPenalty(lectures: seq<LectureSlot>): int
  {
    OverlapPenalty * OverlapCount(lectures)
    + B2BPenalty * B2BCount(lectures)
    + SumOver(lectures, EarlyLateCost)
    + SumOver(lectures, TutorialCost)
    + OneLecturePenalty * SingleLectureDays(lectures, DaysOfTheWeek)
    + GetFridayPenalty(lectures)
  }

  /** get_total_penalty */
  method GetTotalPenalty(lectures: seq<LectureSlot>) returns (total: int)
    ensures total == TotalPenalty(lectures)
  {
    var overlap := GetOverlapPenalty(lectures);
    var b2b := GetB2BPenalty(lectures);
    var earlyLate := GetEarlyLatePenalty(lectures);
    var tutorial := GetEarlyTutorialPenalty(lectures);
    var oneLecture := GetOneLecturePenalty(lectures);
    total := overlap + b2b + earlyLate + tutorial + oneLecture + GetFridayPenalty(lectures);
  }

  /** On slots built by the LectureSlot constructor no rule is negative, so the total is at least
      the overlap part. */
  lemma {:induction false} TotalPenaltyAtLeastOverlaps(lectures: seq<LectureSlot>)
    requires forall x :: x in lectures ==> WellFormed(x)
    ensures TotalPenalty(lectures) >= OverlapPenalty * OverlapCount(lectures) >= 0
  {
    EarlyTutorialBounds(lectures);
    SumOverNonNegative(lectures, EarlyLateCost);
  }

  /** A kept selection (total at most MaxConsideration) has at most one overlapping pair, and when
      it has one, every other rule contributes nothing. */
  lemma {:induction false} RetainedHasAtMostOneOverlap(lectures: seq<LectureSlot>)
    requires forall x :: x in lectures ==> WellFormed(x)
    requires TotalPenalty(lectures) <= MaxConsideration
    ensures OverlapCount(lectures) <= 1
    ensures OverlapCount(lectures) == 1 ==> TotalPenalty(lectures) == MaxConsideration
  {
    TotalPenaltyAtLeastOverlaps(lectures);
  }

  /** Two Monday lectures, 11-13 and 12-14: one overlapping pair and nothing else, a total of
      exactly MaxConsideration, so such a selection is still kept. */
  lemma {:induction false} OneOverlapIsKept()
    ensures var lectures := [LectureSlot("CSCA08", "Monday", 1, 11, 13), LectureSlot("MATA31", "Monday", 1, 12, 14)];
            OverlapCount(lectures) == 1 && TotalPenalty(lectures) == MaxConsideration
  {
    var a, b := LectureSlot("CSCA08", "Monday", 1, 11, 13), LectureSlot("MATA31", "Monday", 1, 12, 14);
    var lectures := [a, b];
    assert AllPairs(lectures) == [(a, b)];
    CountOnePair((a, b), IsOverlapping);
    CountOnePair((a, b), IsB2B);
    SumOverTwo(a, b, EarlyLateCost);
    assert !IsTutorial(a) && !IsTutorial(b);
    SumOverTwo(a, b, TutorialCost);
    OneDaySchedule(lectures, "Monday", DaysOfTheWeek);
  }

  /** A on Monday 10-11, B on Monday 11-12, C on Monday 10-12: A and C overlap, B and C overlap,
      A and B are back to back, and A and C each start an hour before EarliestHour. */
  lemma {:induction false} ThreeMondayLectures()
    ensures var lectures := [LectureSlot("A", "Monday", 1, 10, 11), LectureSlot("B", "Monday", 1, 11, 12),
                             LectureSlot("C", "Monday", 1, 10, 12)];
            OverlapCount(lectures) == 2 && B2BCount(lectures) == 1
            && TotalPenalty(lectures) == 10104 > MaxConsideration
  {
    var a, b, c := LectureSlot("A", "Monday", 1, 10, 11), LectureSlot("B", "Monday", 1, 11, 12),
                   LectureSlot("C", "Monday", 1, 10, 12);
    ThreeMondayPairs(a, b, c);
    ThreeMondaySums(a, b, c);
    OneDaySchedule([a, b, c], "Monday", DaysOfTheWeek);
  }

  lemma {:induction false} ThreeMondayPairs(a: LectureSlot, b: LectureSlot, c: LectureSlot)
    requires a == LectureSlot("A", "Monday", 1, 10, 11) && b == LectureSlot("B", "Monday", 1, 11, 12)
    requires c == LectureSlot("C", "Monday", 1, 10, 12)
    ensures OverlapCount([a, b, c]) == 2 && B2BCount([a, b, c]) == 1
  {
    PairsOfThree(a, b, c);
    CountThreePairs((a, b), (a, c), (b, c), IsOverlapping);
    CountThreePairs((a, b), (a, c), (b, c), IsB2B);
  }

  lemma {:induction false} ThreeMondaySums(a: LectureSlot, b: LectureSlot, c: LectureSlot)
    requires a == LectureSlot("A", "Monday", 1, 10, 11) && b == LectureSlot("B", "Monday", 1, 11, 12)
    requires c == LectureSlot("C", "Monday", 1, 10, 12)
    ensures SumOver([a, b, c], EarlyLateCost) == 4 && SumOver([a, b, c], TutorialCost) == 0
  {
    assert [a, b, c] == [a, b] + [c];
    SumOverTwo(a, b, EarlyLateCost);
    SumOverAppend([a, b], [c], EarlyLateCost);
    SumOverTwo(a, b, TutorialCost);
    SumOverAppend([a, b], [c], TutorialCost);
    assert !IsTutorial(a) && !IsTutorial(b) && !IsTutorial(c);
  }

  lemma {:induction false} PairsOfThree<T>(a: T, b: T, c: T)
    ensures PairsFrom([a, b, c], 0) == [(a, b)] + [(a, c)] + [(b, c)]
  {
    var s := [a, b, c];
    assert s[3..] == [] && s[2..] == [c] && s[1..] == [b, c];
    assert PairsFrom(s, 2) == [];
    assert PairsFrom(s, 1) == [(b, c)];
  }

  lemma {:induction false} CountOnePair(p: LecturePair, related: (LectureSlot, LectureSlot) -> bool)
    ensures CountPairsWhere([p], related) == if related(p.0, p.1) then 1 else 0
  {
    assert [p][..0] == [];
  }

  lemma {:induction false} CountThreePairs(p: LecturePair, q: LecturePair, r: LecturePair, related: (LectureSlot, LectureSlot) -> bool)
    ensures CountPairsWhere([p] + [q] + [r], related)
         == (if related(p.0, p.1) then 1 else 0) + (if related(q.0, q.1) then 1 else 0)
            + (if related(r.0, r.1) then 1 else 0)
  {
    CountOnePair(p, related);
    CountOnePair(q, related);
    CountOnePair(r, related);
    CountPairsWhereAppend([p], [q], related);
    CountPairsWhereAppend([p] + [q], [r], related);
  }

  lemma {:induction false} SumOverTwo(x: LectureSlot, y: LectureSlot, score: LectureSlot -> int)
    ensures SumOver([x, y], score) == score(x) + score(y)
  {
    assert [x, y][..1] == [x];
    assert [x][..0] == [];
    assert SumOver([x], score) == score(x);
  }

  /** When every lecture is on day, that day has all of them and every other day none. */
  lemma {:induction false} OnlyOneDay(lectures: seq<LectureSlot>, day: string, other: string)
    requires forall i :: 0 <= i < |lectures| ==> lectures[i].dayOfWeek == day
    ensures GetLecturesOnDay(lectures, day) == lectures
    ensures other != day ==> GetLecturesOnDay(lectures, other) == []
    decreases |lectures|
  {
    if lectures != [] {
      var init := lectures[..|lectures| - 1];
      OnlyOneDay(init, day, other);
      PrefixSnoc(lectures, |lectures| - 1);
    }
  }

  /** No day among days has exactly one lecture when all lectures, two or more, share one day. */
  lemma {:induction false} OneDaySchedule(lectures: seq<LectureSlot>, day: string, days: seq<string>)
    requires 2 <= |lectures|
    requires forall i :: 0 <= i < |lectures| ==> lectures[i].dayOfWeek == day
    ensures SingleLectureDays(lectures, days) == 0
    decreases |days|
  {
    if days != [] {
      OneDaySchedule(lectures, day, days[..|days| - 1]);
      OnlyOneDay(lectures, day, days[|days| - 1]);
    }
  }

  // ---------------------------------------------------------------------------------------
  // The order of the lectures does not matter

  ghost predicate Symmetric(related: (LectureSlot, LectureSlot) -> bool)
  {
    forall a, b :: related(a, b) == related(b, a)
  }

  /** 1 for each lecture y with related(x, y). */
  function RelatedTo(x: LectureSlot, related: (LectureSlot, LectureSlot) -> bool): (f: LectureSlot -> int)
    ensures forall y :: f(y) == if related(x, y) then 1 else 0
  {
    (y: LectureSlot) => if related(x, y) then 1 else 0
  }

  /** The number of lectures in ys related to x. */
  function Degree(x: LectureSlot, ys: seq<LectureSlot>, related: (LectureSlot, LectureSlot) -> bool): int
  {
    SumOver(ys, RelatedTo(x, related))
  }

  /** The related pairs counted first lecture first: those of lectures[0], then the rest. */
  function FrontCount(lectures: seq<LectureSlot>, related: (LectureSlot, LectureSlot) -> bool): int
    decreases |lectures|
  {
    if lectures == [] then 0 else Degree(lectures[0], lectures[1..], related) + FrontCount(lectures[1..], related)
  }

  lemma {:induction false} CountPairsWithIsDegree(x: LectureSlot, ys: seq<LectureSlot>,
                                                  related: (LectureSlot, LectureSlot) -> bool)
    ensures CountPairsWhere(PairsWith(x, ys), related) == Degree(x, ys, related)
    decreases |ys|
  {
    if ys != [] {
      var init, last := ys[..|ys| - 1], ys[|ys| - 1];
      assert ys == init + [last];
      CountPairsWithIsDegree(x, init, related);
      PairsWithSnoc(x, init, last);
      CountPairsWhereAppend(PairsWith(x, init), [(x, last)], related);
      CountOnePair((x, last), related);
    }
  }

  lemma {:induction false} CountPairsFromIsFrontCount(lectures: seq<LectureSlot>, pos: nat,
                                                      related: (LectureSlot, LectureSlot) -> bool)
    requires pos <= |lectures|
    ensures CountPairsWhere(PairsFrom(lectures, pos), related) == FrontCount(lectures[pos..], related)
    decreases |lectures| - pos
  {
    if pos < |lectures| {
      CountPairsFromIsFrontCount(lectures, pos + 1, related);
      CountPairsWithIsDegree(lectures[pos], lectures[pos + 1..], related);
      CountPairsWhereAppend(PairsWith(lectures[pos], lectures[pos + 1..]), PairsFrom(lectures, pos + 1), related);
      assert lectures[pos..][1..] == lectures[pos + 1..];
    } else {
      assert lectures[pos..] == [];
    }
  }

  /** Taking one lecture x out of the middle: its related pairs plus those of the others. */
  lemma {:induction false} FrontCountExtract(a: seq<LectureSlot>, x: LectureSlot, b: seq<LectureSlot>,
                                             related: (LectureSlot, LectureSlot) -> bool)
    requires Symmetric(related)
    ensures FrontCount(a + [x] + b, related) == Degree(x, a + b, related) + FrontCount(a + b, related)
    decreases |a|
  {
    if a == [] {
      assert a + [x] + b == [x] + b && a + b == b;
      FrontCountCons(x, b, related);
    } else {
      var y, rest := a[0], a[1..];
      assert a + [x] + b == [y] + (rest + [x] + b);
      assert a + b == [y] + (rest + b);
      FrontCountCons(y, rest + [x] + b, related);
      FrontCountCons(y, rest + b, related);
      FrontCountExtract(rest, x, b, related);
      DegreeInsert(y, rest, x, b, related);
      SumOverCons(y, rest + b, RelatedTo(x, related));
      assert related(x, y) == related(y, x);
    }
  }

  lemma {:induction false} FrontCountCons(y: LectureSlot, s: seq<LectureSlot>, related: (LectureSlot, LectureSlot) -> bool)
    ensures FrontCount([y] + s, related) == Degree(y, s, related) + FrontCount(s, related)
  {
    assert ([y] + s)[1..] == s;
  }

  /** Adding x among the others adds one to y's degree exactly when y and x are related. */
  lemma {:induction false} DegreeInsert(y: LectureSlot, rest: seq<LectureSlot>, x: LectureSlot, b: seq<LectureSlot>,
                                        related: (LectureSlot, LectureSlot) -> bool)
    ensures Degree(y, rest + [x] + b, related) == Degree(y, rest + b, related) + if related(y, x) then 1 else 0
  {
    var f := RelatedTo(y, related);
    assert rest + [x] + b == rest + ([x] + b);
    SumOverAppend(rest, [x] + b, f);
    SumOverCons(x, b, f);
    SumOverAppend(rest, b, f);
  }

  lemma {:induction false} FrontCountPermutation(xs: seq<LectureSlot>, ys: seq<LectureSlot>,
                                                 related: (LectureSlot, LectureSlot) -> bool)
    requires Symmetric(related)
    requires multiset(xs) == multiset(ys)
    ensures FrontCount(xs, related) == FrontCount(ys, related)
    decreases |xs|
  {
    if xs == [] {
      assert |ys| == |multiset(ys)| == 0;
    } else {
      var x := xs[0];
      var k := FindRemoved(xs, ys, 0);
      assert RemoveAt(xs, 0) == xs[1..];
      FrontCountPermutation(xs[1..], RemoveAt(ys, k), related);
      SumOverPermutation(xs[1..], RemoveAt(ys, k), RelatedTo(x, related));
      SplitAround(ys, k);
      FrontCountExtract(ys[..k], x, ys[k + 1..], related);
    }
  }

  /** The number of overlapping pairs and of back-to-back pairs depends only on which lectures
      there are, not on their order. */
  lemma {:induction false} PairCountsPermutation(xs: seq<LectureSlot>, ys: seq<LectureSlot>)
    requires multiset(xs) == multiset(ys)
    ensures OverlapCount(xs) == OverlapCount(ys)
    ensures B2BCount(xs) == B2BCount(ys)
  {
    forall a, b ensures IsOverlapping(a, b) == IsOverlapping(b, a) && IsB2B(a, b) == IsB2B(b, a) {
      PairRelations(a, b);
    }
    assert xs[0..] == xs && ys[0..] == ys;
    CountPairsFromIsFrontCount(xs, 0, IsOverlapping);
    CountPairsFromIsFrontCount(ys, 0, IsOverlapping);
    FrontCountPermutation(xs, ys, IsOverlapping);
    CountPairsFromIsFrontCount(xs, 0, IsB2B);
    CountPairsFromIsFrontCount(ys, 0, IsB2B);
    FrontCountPermutation(xs, ys, IsB2B);
  }

  /** 1 for each lecture on day. */
  function OnDay(day: string): (f: LectureSlot -> int)
    ensures forall y :: f(y) == if y.dayOfWeek == day then 1 else 0
  {
    (y: LectureSlot) => if y.dayOfWeek == day then 1 else 0
  }

  lemma {:induction false} LecturesOnDayCount(lectures: seq<LectureSlot>, day: string)
    ensures |GetLecturesOnDay(lectures, day)| == SumOver(lectures, OnDay(day))
    decreases |lectures|
  {
    if lectures != [] {
      LecturesOnDayCount(lectures[..|lectures| - 1], day);
    }
  }

  lemma {:induction false} SingleLectureDaysPermutation(xs: seq<LectureSlot>, ys: seq<LectureSlot>, days: seq<string>)
    requires multiset(xs) == multiset(ys)
    ensures SingleLectureDays(xs, days) == SingleLectureDays(ys, days)
    decreases |days|
  {
    if days != [] {
      var day := days[|days| - 1];
      SingleLectureDaysPermutation(xs, ys, days[..|days| - 1]);
      LecturesOnDayCount(xs, day);
      LecturesOnDayCount(ys, day);
      SumOverPermutation(xs, ys, OnDay(day));
    }
  }

  /** get_total_penalty does not depend on the order of the lectures: reordering courses or the
      slots of a package gives the same total. */
  lemma {:induction false} TotalPenaltyPermutation(xs: seq<LectureSlot>, ys: seq<LectureSlot>)
    requires multiset(xs) == multiset(ys)
    ensures TotalPenalty(xs) == TotalPenalty(ys)
  {
    PairCountsPermutation(xs, ys);
    SumOverPermutation(xs, ys, EarlyLateCost);
    SumOverPermutation(xs, ys, TutorialCost);
    SingleLectureDaysPermutation(xs, ys, DaysOfTheWeek);
    assert forall x :: x in xs <==> x in ys by {
      forall x ensures x in xs <==> x in ys {
        assert x in xs <==> x in multiset(xs);
        assert x in ys <==> x in multiset(ys);
      }
    }
  }
}
