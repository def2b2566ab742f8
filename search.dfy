/** timetable_generator_v2.py: enumerate one package per course, score each complete
    timetable, keep those within MaxConsideration, and report the best ones. */
module Search {
  import opened TimeModel
  import opened CourseTypes
  import opened Penalty
  import opened Sequences

  // ---------------------------------------------------------------------------------------
  // Flattening a selection

  /** unpackage_all_courses: the slots of every package, package by package. */
  method UnpackageAllCourses(selection: CourseSelection) returns (lectures: Lectures)
    ensures lectures == Concat(selection)
    ensures |lectures| == TotalLength(selection)
  {
    lectures := [];
    for i := 0 to |selection|
      invariant lectures == Concat(selection[..i])
    {
      ghost var before := lectures;
      for j := 0 to |selection[i]|
        invariant lectures == before + selection[i][..j]
      {
        lectures := lectures + [selection[i][j]];
      }
      assert selection[i][..|selection[i]|] == selection[i];
      assert selection[..i + 1][..i] == selection[..i];
    }
    assert selection[..|selection|] == selection;
    ConcatLength(selection);
  }

  /** A slot is in the flattened selection iff one of the chosen packages holds it. */
  lemma {:induction false} UnpackagedMember(selection: CourseSelection, slot: LectureSlot)
    ensures slot in Concat(selection) <==> exists i :: 0 <= i < |selection| && slot in selection[i]
  {
    ConcatMember(selection, slot);
  }

  // ---------------------------------------------------------------------------------------
  // itertools.product

  /** [x] + t for every t of tails, in order. */
  function ConsAll<T>(x: T, tails: seq<seq<T>>): (r: seq<seq<T>>)
    ensures |r| == |tails|
    ensures forall j :: 0 <= j < |tails| ==> r[j] == [x] + tails[j]
  {
    seq(|tails|, j requires 0 <= j < |tails| => [x] + tails[j])
  }

  /** ConsAll for each head in turn: the heads vary slowest. */
  function PrefixAll<T>(heads: seq<T>, tails: seq<seq<T>>): (r: seq<seq<T>>)
    ensures |r| == |heads| * |tails|
    decreases |heads|
  {
    if heads == [] then [] else ConsAll(heads[0], tails) + PrefixAll(heads[1..], tails)
  }

  /** product(*lists): every way of choosing one element of each list, the first list varying
      slowest and the last fastest; the product of no lists is one empty choice. */
  function Product<T>(lists: seq<seq<T>>): seq<seq<T>>
    decreases |lists|
  {
    if lists == [] then [[]] else PrefixAll(lists[0], Product(lists[1..]))
  }

  /** The product of the lengths of the lists. */
  function LengthProduct<T>(lists: seq<seq<T>>): nat
    decreases |lists|
  {
    if lists == [] then 1 else |lists[0]| * LengthProduct(lists[1..])
  }

  lemma {:induction false} PrefixAllAt<T>(heads: seq<T>, tails: seq<seq<T>>, i: nat, j: nat)
    requires i < |heads| && j < |tails|
    ensures i * |tails| + j < |PrefixAll(heads, tails)|
    ensures PrefixAll(heads, tails)[i * |tails| + j] == [heads[i]] + tails[j]
    decreases |heads|
  {
    if i > 0 {
      PrefixAllAt(heads[1..], tails, i - 1, j);
      assert i * |tails| + j == |tails| + ((i - 1) * |tails| + j);
    }
  }

  lemma {:induction false} PrefixAllMember<T>(heads: seq<T>, tails: seq<seq<T>>, s: seq<T>)
    ensures s in PrefixAll(heads, tails) <==> s != [] && s[0] in heads && s[1..] in tails
    decreases |heads|
  {
    if heads != [] {
      PrefixAllMember(heads[1..], tails, s);
      var c := ConsAll(heads[0], tails);
      if s in c {
        var j :| 0 <= j < |c| && c[j] == s;
        assert s[1..] == tails[j];
      }
      if s != [] && s[0] == heads[0] && s[1..] in tails {
        var j :| 0 <= j < |tails| && tails[j] == s[1..];
        assert c[j] == s;
      }
      assert s != [] && s[0] in heads <==> s != [] && (s[0] == heads[0] || s[0] in heads[1..]) by {
        assert heads == [heads[0]] + heads[1..];
      }
    }
  }

  /** The product has one choice per combination of positions. */
  lemma {:induction false} ProductLength<T>(lists: seq<seq<T>>)
    ensures |Product(lists)| == LengthProduct(lists)
    decreases |lists|
  {
    if lists != [] {
      ProductLength(lists[1..]);
    }
  }

  /** The product is empty exactly when one of the lists is. */
  lemma {:induction false} ProductEmpty<T>(lists: seq<seq<T>>)
    ensures Product(lists) == [] <==> exists i :: 0 <= i < |lists| && lists[i] == []
    decreases |lists|
  {
    if lists != [] {
      ProductEmpty(lists[1..]);
      ProductLength(lists[1..]);
      if exists i :: 0 <= i < |lists[1..]| && lists[1..][i] == [] {
        var i :| 0 <= i < |lists[1..]| && lists[1..][i] == [];
        assert lists[i + 1] == [];
      }
      if exists i :: 0 <= i < |lists| && lists[i] == [] {
        var i :| 0 <= i < |lists| && lists[i] == [];
        if i > 0 {
          assert lists[1..][i - 1] == [];
        }
      }
    }
  }

  /** The choices are exactly the sequences holding, at each position i, an element of lists[i]. */
  lemma {:induction false} ProductMember<T>(lists: seq<seq<T>>, s: seq<T>)
    ensures s in Product(lists) <==> |s| == |lists| && forall i :: 0 <= i < |s| ==> s[i] in lists[i]
    decreases |lists|
  {
    if lists != [] {
      PrefixAllMember(lists[0], Product(lists[1..]), s);
      if s != [] {
        ProductMember(lists[1..], s[1..]);
      }
      if s != [] && |s| == |lists| {
        if forall i :: 0 <= i < |s| ==> s[i] in lists[i] {
          assert s[0] in lists[0];
          forall i | 0 <= i < |s[1..]|
            ensures s[1..][i] in lists[1..][i]
          {
            assert s[i + 1] in lists[i + 1];
          }
        }
        if s[0] in lists[0] && forall i :: 0 <= i < |s[1..]| ==> s[1..][i] in lists[1..][i] {
          forall i | 0 <= i < |s|
            ensures s[i] in lists[i]
          {
            if i > 0 {
              assert s[1..][i - 1] in lists[1..][i - 1];
            }
          }
        }
      }
    }
  }

  /** The order of the product: with M choices for the later lists, choice i * M + j takes
      element i of the first list followed by choice j of the later lists. */
  lemma {:induction false} ProductOrder<T>(lists: seq<seq<T>>, i: nat, j: nat)
    requires lists != [] && i < |lists[0]| && j < |Product(lists[1..])|
    ensures i * |Product(lists[1..])| + j < |Product(lists)|
    ensures Product(lists)[i * |Product(lists[1..])| + j] == [lists[0][i]] + Product(lists[1..])[j]
  {
    PrefixAllAt(lists[0], Product(lists[1..]), i, j);
  }

  lemma {:induction false} PrefixAllNoDuplicates<T>(heads: seq<T>, tails: seq<seq<T>>)
    requires NoDuplicates(heads) && NoDuplicates(tails)
    ensures NoDuplicates(PrefixAll(heads, tails))
    decreases |heads|
  {
    if heads != [] {
      PrefixAllNoDuplicates(heads[1..], tails);
      var c, rest := ConsAll(heads[0], tails), PrefixAll(heads[1..], tails);
      var r := c + rest;
      forall a, b | 0 <= a < b < |r|
        ensures r[a] != r[b]
      {
        if b < |c| {
          assert r[a][1..] == tails[a] && r[b][1..] == tails[b];
        } else if a < |c| {
          assert r[a][0] == heads[0];
          assert r[b] in rest;
          PrefixAllMember(heads[1..], tails, r[b]);
          var k :| 0 <= k < |heads[1..]| && heads[1..][k] == r[b][0];
          assert heads[k + 1] != heads[0];
        } else {
          assert r[a] == rest[a - |c|] && r[b] == rest[b - |c|];
        }
      }
    }
  }

  /** When no option list repeats an element, no choice appears twice in the product. */
  lemma {:induction false} ProductNoDuplicates<T>(lists: seq<seq<T>>)
    requires forall i :: 0 <= i < |lists| ==> NoDuplicates(lists[i])
    ensures NoDuplicates(Product(lists))
    decreases |lists|
  {
    if lists != [] {
      forall i | 0 <= i < |lists[1..]|
        ensures NoDuplicates(lists[1..][i])
      {
        assert lists[1..][i] == lists[i + 1];
      }
      ProductNoDuplicates(lists[1..]);
      PrefixAllNoDuplicates(lists[0], Product(lists[1..]));
    }
  }

  // ---------------------------------------------------------------------------------------
  // Scoring selections

  /** A selection is kept when its total penalty is at most MaxConsideration. */
  predicate Kept(selection: CourseSelection)
  {
    TotalPenalty(Concat(selection)) <= MaxConsideration
  }

  /** The entry recorded for a kept selection: its total penalty and its lectures. */
  function Rating(selection: CourseSelection): RatedCourseSelection
  {
    (TotalPenalty(Concat(selection)), Concat(selection))
  }

  /** What add_selection_results appends for one selection. */
  function Rated(selection: CourseSelection): seq<RatedCourseSelection>
  {
    if Kept(selection) then [Rating(selection)] else []
  }

  /** The entries add_selection_results appends for each selection in turn. */
  function RateAll(selections: seq<CourseSelection>): seq<RatedCourseSelection>
    decreases |selections|
  {
    if selections == [] then []
    else RateAll(selections[..|selections| - 1]) + Rated(selections[|selections| - 1])
  }

  /** The list of rated selections that the generator fills in place. */
  class RatedSelections {
    var entries: seq<RatedCourseSelection>

    constructor ()
      ensures entries == []
    {
      entries := [];
    }
  }

  /** add_selection_results: appends (penalty, lectures) when the flattened selection's total is
      at most MaxConsideration, and otherwise leaves the list as it was. */
  method AddSelectionResults(allSelections: RatedSelections, selection: CourseSelection)
    modifies allSelections
    ensures var lectures := Concat(selection);
            if TotalPenalty(lectures) <= MaxConsideration
            then allSelections.entries == old(allSelections.entries) + [(TotalPenalty(lectures), lectures)]
            else allSelections.entries == old(allSelections.entries)
  {
    var lectures := UnpackageAllCourses(selection);
    var penalty := GetTotalPenalty(lectures);
    if penalty <= MaxConsideration {
      var rescored := GetTotalPenalty(lectures);
      allSelections.entries := allSelections.entries + [(rescored, lectures)];
    }
  }

  /** The entries are exactly the ratings of the kept selections: each carries the total
      penalty of its own lectures, and that total is at most MaxConsideration. */
  lemma {:induction false} RateAllMember(selections: seq<CourseSelection>, e: RatedCourseSelection)
    ensures e in RateAll(selections) <==> exists s :: s in selections && Kept(s) && e == Rating(s)
    ensures e in RateAll(selections) ==> e.0 == TotalPenalty(e.1) <= MaxConsideration
    decreases |selections|
  {
    if selections != [] {
      var init, last := selections[..|selections| - 1], selections[|selections| - 1];
      RateAllMember(init, e);
      RatedMember(last, e);
      RatingsSnoc(selections, e);
    }
  }

  /** What one selection contributes: its rating, when it is kept. */
  lemma {:induction false} RatedMember(s: CourseSelection, e: RatedCourseSelection)
    ensures e in Rated(s) <==> Kept(s) && e == Rating(s)
    ensures e in Rated(s) ==> e.0 == TotalPenalty(e.1) <= MaxConsideration
  {
  }

  lemma {:induction false} RatingsSnoc(selections: seq<CourseSelection>, e: RatedCourseSelection)
    requires selections != []
    ensures var init, last := selections[..|selections| - 1], selections[|selections| - 1];
            (exists s :: s in selections && Kept(s) && e == Rating(s))
            <==> (exists s :: s in init && Kept(s) && e == Rating(s)) || (Kept(last) && e == Rating(last))
    ensures var init, last := selections[..|selections| - 1], selections[|selections| - 1];
            e in RateAll(selections) <==> e in RateAll(init) || e in Rated(last)
  {
    var init, last := selections[..|selections| - 1], selections[|selections| - 1];
    assert selections == init + [last];
    if exists s :: s in selections && Kept(s) && e == Rating(s) {
      var s :| s in selections && Kept(s) && e == Rating(s);
      if s != last {
        assert s in init;
      }
    }
  }

  /** The entries follow the order of the selections they rate. */
  lemma {:induction false} RateAllSubsequence(a: seq<CourseSelection>, b: seq<CourseSelection>)
    requires Subsequence(a, b)
    ensures Subsequence(RateAll(a), RateAll(b))
    decreases |b|
  {
    if b != [] {
      var bInit, bLast := b[..|b| - 1], b[|b| - 1];
      var r := Rated(bLast);
      if a != [] && a[|a| - 1] == bLast && Subsequence(a[..|a| - 1], bInit) {
        var aInit := a[..|a| - 1];
        assert a == aInit + [bLast];
        RateAllSubsequence(aInit, bInit);
        if r != [] {
          assert (RateAll(aInit) + r)[..|RateAll(aInit)|] == RateAll(aInit);
          assert (RateAll(bInit) + r)[..|RateAll(bInit)|] == RateAll(bInit);
        } else {
          assert RateAll(aInit) + r == RateAll(aInit) && RateAll(bInit) + r == RateAll(bInit);
        }
      } else {
        RateAllSubsequence(a, bInit);
        if r != [] {
          assert (RateAll(bInit) + r)[..|RateAll(bInit)|] == RateAll(bInit);
        } else {
          assert RateAll(bInit) + r == RateAll(bInit);
        }
      }
    }
  }

  // ---------------------------------------------------------------------------------------
  // generate_all_selections

  /** The key under which a selection is remembered as processed. */
  function SelectionKey(selection: CourseSelection): CourseSelection
  {
    selection
  }

  /** The selections generate_all_selections scores: the product of the courses' options,
      each key only the first time it comes up. */
  function Candidates(options: seq<seq<LecturePackage>>): seq<CourseSelection>
  {
    DedupBy(Product(options), SelectionKey)
  }

  lemma {:induction false} GenerateStep(done: seq<CourseSelection>, selection: CourseSelection)
    ensures KeysOf(done + [selection], SelectionKey) == KeysOf(done, SelectionKey) + {SelectionKey(selection)}
    ensures SelectionKey(selection) in KeysOf(done, SelectionKey)
            ==> DedupBy(done + [selection], SelectionKey) == DedupBy(done, SelectionKey)
    ensures SelectionKey(selection) !in KeysOf(done, SelectionKey)
            ==> RateAll(DedupBy(done + [selection], SelectionKey))
                == RateAll(DedupBy(done, SelectionKey)) + Rated(selection)
  {
    DedupBySnoc(done, selection, SelectionKey);
    var d := DedupBy(done, SelectionKey);
    assert (d + [selection])[..|d|] == d;
  }

  lemma {:induction false} ScoredStep(done: seq<CourseSelection>, selection: CourseSelection,
                                      before: seq<RatedCourseSelection>, after: seq<RatedCourseSelection>)
    requires before == RateAll(DedupBy(done, SelectionKey))
    requires SelectionKey(selection) !in KeysOf(done, SelectionKey)
    requires var lectures := Concat(selection);
             if TotalPenalty(lectures) <= MaxConsideration
             then after == before + [(TotalPenalty(lectures), lectures)]
             else after == before
    ensures after == RateAll(DedupBy(done + [selection], SelectionKey))
  {
    GenerateStep(done, selection);
  }

  /** generate_all_selections: walks the product of the courses' options in order, skips a
      selection whose key was already processed, and rates the others. */
  method GenerateAllSelections(courses: CourseOptions) returns (allSelections: RatedSelections)
    requires courses.Valid()
    ensures fresh(allSelections)
    ensures allSelections.entries == RateAll(Candidates(courses.Values()))
  {
    allSelections := new RatedSelections();
    var processed: set<CourseSelection> := {};
    var product := Product(courses.Values());
    for k := 0 to |product|
      invariant allSelections.entries == RateAll(DedupBy(product[..k], SelectionKey))
      invariant processed == KeysOf(product[..k], SelectionKey)
    {
      var selection := product[k];
      PrefixSnoc(product, k);
      GenerateStep(product[..k], selection);
      if SelectionKey(selection) in processed {
        continue;
      }
      ghost var before := allSelections.entries;
      AddSelectionResults(allSelections, selection);
      ScoredStep(product[..k], selection, before, allSelections.entries);
      processed := processed + {SelectionKey(selection)};
    }
    assert product[..|product|] == product;
  }

  /** The entries generate_all_selections returns are exactly the ratings of the kept choices
      of the product: each carries the total penalty of its own lectures, at most
      MaxConsideration, and no kept choice is missing. */
  lemma {:induction false} GeneratedEntries(options: seq<seq<LecturePackage>>, e: RatedCourseSelection)
    ensures e in RateAll(Candidates(options)) <==> exists s :: s in Product(options) && Kept(s) && e == Rating(s)
    ensures e in RateAll(Candidates(options)) ==> e.0 == TotalPenalty(e.1) <= MaxConsideration
  {
    var product := Product(options);
    RateAllMember(Candidates(options), e);
    DedupByKeys(product, SelectionKey);
    forall s | s in product
      ensures s in Candidates(options)
    {
      assert SelectionKey(s) in KeysOf(product, SelectionKey);
    }
    forall s | s in Candidates(options)
      ensures s in product
    {
      DedupByMember(product, SelectionKey, s);
    }
  }

  /** A course with no options leaves nothing to choose: no selection is generated. */
  lemma {:induction false} NoOptionsNoSelections(options: seq<seq<LecturePackage>>)
    requires exists i :: 0 <= i < |options| && options[i] == []
    ensures Candidates(options) == []
    ensures RateAll(Candidates(options)) == []
  {
    ProductEmpty(options);
  }

  /** With no courses at all the product holds one empty choice, which has no lectures and a
      total of 0, so it is kept. */
  lemma {:induction false} NoCoursesOneEmptySelection()
    ensures Candidates([]) == [[]]
    ensures RateAll(Candidates([])) == [(0, [])]
  {
    assert Concat<LectureSlot>([]) == [];
    assert GetLecturesOnDay([], "Friday") == [];
    assert SingleLectureDays([], DaysOfTheWeek) == 0 by {
      OneDayNone(DaysOfTheWeek);
    }
    var none: seq<CourseSelection> := [[]];
    assert none[..0] == [];
    assert DedupBy(none, SelectionKey) == none;
    assert RateAll(none) == Rated([]);
  }

  lemma {:induction false} OneDayNone(days: seq<string>)
    ensures SingleLectureDays([], days) == 0
    decreases |days|
  {
    if days != [] {
      OneDayNone(days[..|days| - 1]);
    }
  }

  /** No selection is scored twice, and the scored selections, and so the entries, come in
      the order of the product. */
  lemma {:induction false} CandidatesInProductOrder(options: seq<seq<LecturePackage>>)
    ensures NoDuplicates(Candidates(options))
    ensures Subsequence(Candidates(options), Product(options))
    ensures Subsequence(RateAll(Candidates(options)), RateAll(Product(options)))
  {
    var product := Product(options);
    DedupByDistinctKeys(product, SelectionKey);
    DedupByIsSubsequence(product, SelectionKey);
    RateAllSubsequence(Candidates(options), product);
  }

  /** When no course lists the same package twice (as the catalog reader guarantees), no
      choice of the product is skipped. */
  lemma {:induction false} DistinctOptionsNothingSkipped(options: seq<seq<LecturePackage>>)
    requires forall i :: 0 <= i < |options| ==> NoDuplicates(options[i])
    ensures Candidates(options) == Product(options)
  {
    ProductNoDuplicates(options);
    DedupByKeepsAll(Product(options), SelectionKey);
  }

  // ---------------------------------------------------------------------------------------
  // Ranking and reporting

  /** Greatest penalty first. */
  ghost predicate NonIncreasing(xs: seq<RatedCourseSelection>)
  {
    forall i, j :: 0 <= i < j < |xs| ==> xs[i].0 >= xs[j].0
  }

  /** x placed after every entry of sorted whose penalty is at least x's. */
  function InsertByPenalty(sorted: seq<RatedCourseSelection>, x: RatedCourseSelection): seq<RatedCourseSelection>
    decreases |sorted|
  {
    if sorted == [] then [x]
    else if sorted[0].0 >= x.0 then [sorted[0]] + InsertByPenalty(sorted[1..], x)
    else [x] + sorted
  }

  /** list.sort(key=lambda x: x[0], reverse=True): a stable sort, greatest penalty first. */
  function SortByPenalty(xs: seq<RatedCourseSelection>): seq<RatedCourseSelection>
    decreases |xs|
  {
    if xs == [] then [] else InsertByPenalty(SortByPenalty(xs[..|xs| - 1]), xs[|xs| - 1])
  }

  /** The entries whose penalty is p, in order. */
  function WithPenalty(xs: seq<RatedCourseSelection>, p: int): seq<RatedCourseSelection>
    decreases |xs|
  {
    if xs == [] then []
    else (if xs[0].0 == p then [xs[0]] else []) + WithPenalty(xs[1..], p)
  }

  lemma {:induction false} InsertByPenaltyMultiset(sorted: seq<RatedCourseSelection>, x: RatedCourseSelection)
    ensures multiset(InsertByPenalty(sorted, x)) == multiset(sorted) + multiset{x}
    decreases |sorted|
  {
    if sorted != [] && sorted[0].0 >= x.0 {
      InsertByPenaltyMultiset(sorted[1..], x);
      assert sorted == [sorted[0]] + sorted[1..];
    }
  }

  lemma {:induction false} InsertByPenaltySorted(sorted: seq<RatedCourseSelection>, x: RatedCourseSelection)
    requires NonIncreasing(sorted)
    ensures NonIncreasing(InsertByPenalty(sorted, x))
    decreases |sorted|
  {
    if sorted == [] {
    } else if sorted[0].0 >= x.0 {
      NonIncreasingTail(sorted);
      var rest := InsertByPenalty(sorted[1..], x);
      InsertByPenaltySorted(sorted[1..], x);
      InsertByPenaltyMultiset(sorted[1..], x);
      MultisetBound(rest, sorted[1..], x, sorted[0].0);
      ConsNonIncreasing(sorted[0], rest);
    } else {
      NonIncreasingTail(sorted);
      ConsNonIncreasing(x, sorted);
    }
  }

  lemma {:induction false} ConsNonIncreasing(y: RatedCourseSelection, ys: seq<RatedCourseSelection>)
    requires NonIncreasing(ys)
    requires forall k :: 0 <= k < |ys| ==> ys[k].0 <= y.0
    ensures NonIncreasing([y] + ys)
  {
    var r := [y] + ys;
    forall i, j | 0 <= i < j < |r|
      ensures r[i].0 >= r[j].0
    {
      assert r[j] == ys[j - 1];
      if i > 0 {
        assert r[i] == ys[i - 1];
      }
    }
  }

  /** Entries bounded by bound stay bounded when they are rearranged and x is added. */
  lemma {:induction false} MultisetBound(rest: seq<RatedCourseSelection>, others: seq<RatedCourseSelection>,
                                         x: RatedCourseSelection, bound: int)
    requires multiset(rest) == multiset(others) + multiset{x}
    requires forall i :: 0 <= i < |others| ==> others[i].0 <= bound
    requires x.0 <= bound
    ensures forall k :: 0 <= k < |rest| ==> rest[k].0 <= bound
  {
    forall k | 0 <= k < |rest|
      ensures rest[k].0 <= bound
    {
      assert rest[k] in multiset(rest);
      if rest[k] != x {
        assert rest[k] in multiset(others);
        var i :| 0 <= i < |others| && others[i] == rest[k];
      }
    }
  }

  /** The entries of penalty p in y followed by ys. */
  lemma {:induction false} WithPenaltyCons(y: RatedCourseSelection, ys: seq<RatedCourseSelection>, p: int)
    ensures WithPenalty([y] + ys, p) == WithPenalty([y], p) + WithPenalty(ys, p)
    ensures WithPenalty([y], p) == if y.0 == p then [y] else []
  {
    assert ([y] + ys)[1..] == ys;
    assert [y][1..] == [];
  }

  lemma {:induction false} WithPenaltyAppend(a: seq<RatedCourseSelection>, b: seq<RatedCourseSelection>, p: int)
    ensures WithPenalty(a + b, p) == WithPenalty(a, p) + WithPenalty(b, p)
    decreases |a|
  {
    if a == [] {
      assert a + b == b;
    } else {
      var y := a[0];
      AppendAssoc([y], a[1..], b);
      assert a == [y] + a[1..];
      WithPenaltyAppend(a[1..], b, p);
      WithPenaltyCons(y, a[1..] + b, p);
      WithPenaltyCons(y, a[1..], p);
      AppendAssoc(WithPenalty([y], p), WithPenalty(a[1..], p), WithPenalty(b, p));
    }
  }

  lemma {:induction false} WithPenaltyNone(xs: seq<RatedCourseSelection>, p: int)
    requires forall i :: 0 <= i < |xs| ==> xs[i].0 < p
    ensures WithPenalty(xs, p) == []
    decreases |xs|
  {
    if xs != [] {
      WithPenaltyNone(xs[1..], p);
    }
  }

  lemma {:induction false} NonIncreasingTail(sorted: seq<RatedCourseSelection>)
    requires NonIncreasing(sorted) && sorted != []
    ensures NonIncreasing(sorted[1..])
    ensures forall i :: 0 <= i < |sorted| ==> sorted[i].0 <= sorted[0].0
  {
    forall i, j | 0 <= i < j < |sorted[1..]|
      ensures sorted[1..][i].0 >= sorted[1..][j].0
    {
      assert sorted[1..][i] == sorted[i + 1] && sorted[1..][j] == sorted[j + 1];
    }
  }

  /** Inserting x keeps the entries of each penalty in their order, x after those already there. */
  lemma {:induction false} InsertByPenaltyStable(sorted: seq<RatedCourseSelection>, x: RatedCourseSelection, p: int)
    requires NonIncreasing(sorted)
    ensures WithPenalty(InsertByPenalty(sorted, x), p) == WithPenalty(sorted, p) + WithPenalty([x], p)
    decreases |sorted|
  {
    if sorted == [] {
      WithPenaltyCons(x, [], p);
      assert [x] + [] == [x];
    } else if sorted[0].0 >= x.0 {
      NonIncreasingTail(sorted);
      InsertByPenaltyStable(sorted[1..], x, p);
      StableKeep(sorted, x, p);
    } else {
      NonIncreasingTail(sorted);
      StableFront(sorted, x, p);
    }
  }

  lemma {:induction false} StableKeep(sorted: seq<RatedCourseSelection>, x: RatedCourseSelection, p: int)
    requires sorted != [] && sorted[0].0 >= x.0
    requires WithPenalty(InsertByPenalty(sorted[1..], x), p) == WithPenalty(sorted[1..], p) + WithPenalty([x], p)
    ensures WithPenalty(InsertByPenalty(sorted, x), p) == WithPenalty(sorted, p) + WithPenalty([x], p)
  {
    var y := sorted[0];
    var rest := InsertByPenalty(sorted[1..], x);
    assert InsertByPenalty(sorted, x) == [y] + rest;
    assert sorted == [y] + sorted[1..];
    WithPenaltyCons(y, rest, p);
    WithPenaltyCons(y, sorted[1..], p);
    AppendAssoc(WithPenalty([y], p), WithPenalty(sorted[1..], p), WithPenalty([x], p));
  }

  lemma {:induction false} StableFront(sorted: seq<RatedCourseSelection>, x: RatedCourseSelection, p: int)
    requires sorted != [] && sorted[0].0 < x.0
    requires forall i :: 0 <= i < |sorted| ==> sorted[i].0 <= sorted[0].0
    ensures WithPenalty(InsertByPenalty(sorted, x), p) == WithPenalty(sorted, p) + WithPenalty([x], p)
  {
    assert InsertByPenalty(sorted, x) == [x] + sorted;
    WithPenaltyCons(x, sorted, p);
    if x.0 == p {
      WithPenaltyNone(sorted, p);
    }
  }

  /** The sort orders by penalty, greatest first, keeps every entry, and keeps entries of equal
      penalty in their original order. */
  lemma {:induction false} SortByPenaltyCorrect(xs: seq<RatedCourseSelection>, p: int)
    ensures NonIncreasing(SortByPenalty(xs))
    ensures multiset(SortByPenalty(xs)) == multiset(xs)
    ensures WithPenalty(SortByPenalty(xs), p) == WithPenalty(xs, p)
    decreases |xs|
  {
    if xs != [] {
      var init, last := xs[..|xs| - 1], xs[|xs| - 1];
      SortByPenaltyCorrect(init, p);
      InsertByPenaltySorted(SortByPenalty(init), last);
      InsertByPenaltyMultiset(SortByPenalty(init), last);
      InsertByPenaltyStable(SortByPenalty(init), last, p);
      assert xs == init + [last];
      WithPenaltyAppend(init, [last], p);
    }
  }

  /** all_selections[-max_output:]: Python reads -m as an index from the end, clamped to the
      list; -0 is 0, so a max_output of 0 gives the whole list, and a negative max_output
      drops that many entries from the front. */
  function ReportSlice(xs: seq<RatedCourseSelection>, maxOutput: int): seq<RatedCourseSelection>
  {
    if maxOutput > 0 then xs[(if |xs| > maxOutput then |xs| - maxOutput else 0)..]
    else if maxOutput == 0 then xs
    else xs[(if -maxOutput < |xs| then -maxOutput else |xs|)..]
  }

  /** On a list sorted greatest penalty first, a positive max_output reports the last
      min(max_output, len) entries, and none of them has a greater penalty than any entry left
      unreported; max_output 0 reports everything. */
  lemma {:induction false} ReportSliceBest(xs: seq<RatedCourseSelection>, maxOutput: int)
    requires NonIncreasing(xs)
    ensures maxOutput >= 1 ==> |ReportSlice(xs, maxOutput)| == if |xs| < maxOutput then |xs| else maxOutput
    ensures ReportSlice(xs, maxOutput) == xs[|xs| - |ReportSlice(xs, maxOutput)|..]
    ensures forall i, j :: 0 <= i < |xs| - |ReportSlice(xs, maxOutput)| <= j < |xs| ==> xs[j].0 <= xs[i].0
    ensures maxOutput == 0 ==> ReportSlice(xs, maxOutput) == xs
  {
  }

  /** output_all_selections: sorts the list in place, greatest penalty first, reports the
      selections of the slice all_selections[-max_output:] in order (notEnough is whether it
      adds the note that there are not enough timetables). */
  method OutputAllSelections(allSelections: RatedSelections, maxOutput: int)
    returns (reported: seq<RatedCourseSelection>, notEnough: bool)
    modifies allSelections
    ensures allSelections.entries == SortByPenalty(old(allSelections.entries))
    ensures reported == ReportSlice(allSelections.entries, maxOutput)
    ensures notEnough <==> |allSelections.entries| < maxOutput
  {
    allSelections.entries := SortByPenalty(allSelections.entries);
    reported := ReportSlice(allSelections.entries, maxOutput);
    notEnough := |allSelections.entries| < maxOutput;
  }

  /** What output_all_selections reports, for a positive max_output: min(max_output, len)
      entries of the list, none with a greater penalty than an entry it leaves out, and the
      notice exactly when fewer than max_output entries exist. */
  lemma {:induction false} ReportedAreLeastPenalties(xs: seq<RatedCourseSelection>, maxOutput: int)
    requires maxOutput >= 1
    ensures var sorted := SortByPenalty(xs);
            var reported := ReportSlice(sorted, maxOutput);
            var left := sorted[..|sorted| - |reported|];
            && |reported| == (if |xs| < maxOutput then |xs| else maxOutput)
            && multiset(left) + multiset(reported) == multiset(xs)
            && forall r, u :: r in reported && u in left ==> r.0 <= u.0
  {
    var sorted := SortByPenalty(xs);
    SortByPenaltyCorrect(xs, 0);
    ReportSliceBest(sorted, maxOutput);
    var reported := ReportSlice(sorted, maxOutput);
    SplitSorted(sorted, |sorted| - |reported|);
  }

  lemma {:induction false} SplitSorted(sorted: seq<RatedCourseSelection>, k: nat)
    requires NonIncreasing(sorted) && k <= |sorted|
    ensures multiset(sorted[..k]) + multiset(sorted[k..]) == multiset(sorted)
    ensures forall r, u :: r in sorted[k..] && u in sorted[..k] ==> r.0 <= u.0
  {
    assert sorted == sorted[..k] + sorted[k..];
    forall r, u | r in sorted[k..] && u in sorted[..k]
      ensures r.0 <= u.0
    {
      var j :| k <= j < |sorted| && sorted[j] == r;
      var i :| 0 <= i < k && sorted[i] == u;
    }
  }
}
