/** The suggested follow-up questions: fixed strategy filters and one
    question for each of the first five locations. */
module SuggestedQuestions {
  import opened Strings
  import opened Portfolio
  import opened Locations

  const GeneralQuestions: seq<string> := [
    "Show me only results that do not include Sublease",
    "Show me scenarios with low capital spend",
    "Want to see strategies where Agile Scenarios are considered",
    "I would like to consider Scenarios without any consolidation of locations"
  ]

  const FixedLocationQuestions: seq<string> := [
    "Would like to see strategies where I don't exit any location"
  ]

  /** How many locations get a question of their own. */
  const MaxLocations := 5

  function Min(a: int, b: int): int {
    if a <= b then a else b
  }

  /** The first five entries of the sorted location listing. */
  function Top(all: seq<string>): (r: seq<string>)
    ensures |r| == Min(MaxLocations, |all|)
    ensures r == all[..|r|]
  {
    all[..Min(MaxLocations, |all|)]
  }

  /** `getAvailableLocations`: the same column search and location set as
      the strategic form, sorted and cut to five. */
  method GetAvailableLocations(p: PortfolioData) returns (top: seq<string>)
    ensures top == Top(SortedSet(LocationSet(p.data, LocationColumn(p.headers))))
  {
    var col := FindLocationColumn(p.headers);
    var seen := CollectLocations(p.data, col);
    var sorted := SortLocations(seen);
    StrictlySortedUnique(sorted, SortedSet(LocationSet(p.data, col)));
    top := sorted[..Min(MaxLocations, |sorted|)];
  }

  /** The shown locations are the five smallest: at most five, sorted,
      all in the set, exactly five when the set has at least five, and
      every location left out sorts after every one shown. */
  lemma TopAreSmallest(s: set<string>)
    ensures |Top(SortedSet(s))| <= MaxLocations
    ensures StrictlySorted(Top(SortedSet(s)))
    ensures forall x :: x in Top(SortedSet(s)) ==> x in s
    ensures |s| >= MaxLocations ==> |Top(SortedSet(s))| == MaxLocations
    ensures forall x, y :: x in s && x !in Top(SortedSet(s)) && y in Top(SortedSet(s)) ==> Less(y, x)
  {
    var all := SortedSet(s);
    var top := Top(all);
    assert forall j :: 0 <= j < |top| ==> top[j] == all[j];
    TopSize(s);
    TopBeforeRest(all);
  }

  lemma TopSize(s: set<string>)
    ensures |s| == |SortedSet(s)|
  {
    var all := SortedSet(s);
    StrictlySortedDistinct(all);
    DistinctCardinality(all);
    assert (set x | x in all) == s;
  }

  lemma TopBeforeRest(all: seq<string>)
    requires StrictlySorted(all)
    ensures forall x, y :: x in all && x !in Top(all) && y in Top(all) ==> Less(y, x)
  {
    var top := Top(all);
    forall x, y | x in all && x !in top && y in top ensures Less(y, x) {
      var i :| 0 <= i < |all| && all[i] == x;
      var j :| 0 <= j < |top| && top[j] == y;
      assert all[j] == y;
    }
  }

  /** A duplicate-free listing has exactly as many entries as its set. */
  lemma {:induction false} DistinctCardinality(xs: seq<string>)
    requires Distinct(xs)
    ensures |set x | x in xs| == |xs|
  {
    if xs != [] {
      var rest := xs[1..];
      assert Distinct(rest) by {
        forall i, j | 0 <= i < j < |rest| ensures rest[i] != rest[j] {
          assert rest[i] == xs[i + 1] && rest[j] == xs[j + 1];
        }
      }
      DistinctCardinality(rest);
      assert xs[0] !in rest by {
        forall k | 0 <= k < |rest| ensures rest[k] != xs[0] {
          assert rest[k] == xs[k + 1];
        }
      }
      assert (set x | x in xs) == {xs[0]} + (set x | x in rest);
    }
  }

  const QuestionPrefix := "What would be the top Scenarios if we were not to keep/exit "

  /** The question a location's button sends. */
  function LocationQuestion(location: string): (q: string)
    ensures |q| == |QuestionPrefix| + |location| + 1
    ensures StartsWithAt(q, 0, QuestionPrefix) && EndsWith(q, "?")
  {
    QuestionPrefix + location + "?"
  }

  /** Reading the location back out of its question. */
  function LocationOf(q: string): string
    requires |q| >= |QuestionPrefix| + 1
  {
    q[|QuestionPrefix|..|q| - 1]
  }

  /** The question names its location: it can be read back, so distinct
      locations give distinct questions. */
  lemma LocationQuestionRoundTrip(location: string)
    ensures LocationOf(LocationQuestion(location)) == location
  {
    var q := LocationQuestion(location);
    assert q[|QuestionPrefix|..|q| - 1] == location;
  }

  lemma LocationQuestionInjective(a: string, b: string)
    requires LocationQuestion(a) == LocationQuestion(b)
    ensures a == b
  {
    LocationQuestionRoundTrip(a);
    LocationQuestionRoundTrip(b);
  }

  /** The "Specific Location Analysis" section is rendered. */
  predicate ShowsLocationSection(locations: seq<string>) {
    |locations| > 0
  }

  /** The section appears exactly when some row of the data has a
      non-blank string cell in the location column. */
  lemma LocationSectionShown(p: PortfolioData)
    ensures ShowsLocationSection(Top(SortedSet(LocationSet(p.data, LocationColumn(p.headers))))) <==>
            exists i :: 0 <= i < |p.data| && IsLocationCell(p.data[i], LocationColumn(p.headers))
  {
    var col := LocationColumn(p.headers);
    var s := LocationSet(p.data, col);
    var all := SortedSet(s);
    if exists i :: 0 <= i < |p.data| && IsLocationCell(p.data[i], col) {
      var i :| 0 <= i < |p.data| && IsLocationCell(p.data[i], col);
      LocationSetHas(p.data, col, i);
      assert Trim(p.data[i][col].text) in all;
    }
  }

  /** Every question a button of the panel sends, in display order. */
  function PanelQuestions(locations: seq<string>): (r: seq<string>)
    ensures |r| == |GeneralQuestions| + |FixedLocationQuestions| + |locations|
    ensures r[..|GeneralQuestions| + |FixedLocationQuestions|] == GeneralQuestions + FixedLocationQuestions
    ensures forall i :: 0 <= i < |locations| ==> r[|GeneralQuestions| + |FixedLocationQuestions| + i] == LocationQuestion(locations[i])
  {
    GeneralQuestions + FixedLocationQuestions + seq(|locations|, i requires 0 <= i < |locations| => LocationQuestion(locations[i]))
  }
}
