/** The strategic-planning form: objective and keep/exit location toggles,
    the validity gate and the question that is submitted. */
module PredefinedQuestions {
  import opened Wrappers
  import opened Strings
  import opened Portfolio
  import opened Locations

  const StrategicObjectives: seq<string> := [
    "Rightsize",
    "Reduce expense",
    "Save money but with low capital/Capex cost",
    "Consolidation",
    "Make space more efficient (densify)",
    "Flexibility"
  ]

  const ObjectivesLead := "My primary strategic objectives are"
  const KeepLead := "I would like to keep these locations"
  const ExitLead := "I would like to exit these locations"
  const Closing := "Please provide strategic recommendations based on these preferences."

  /** `extractLocations`: the location column, its trimmed non-blank string
      cells without duplicates, sorted. */
  method ExtractLocations(p: PortfolioData) returns (locations: seq<string>)
    ensures StrictlySorted(locations)
    ensures locations == SortedSet(LocationSet(p.data, LocationColumn(p.headers)))
  {
    var col := FindLocationColumn(p.headers);
    var seen := CollectLocations(p.data, col);
    locations := SortLocations(seen);
    StrictlySortedUnique(locations, SortedSet(LocationSet(p.data, col)));
  }

  /** `prev.filter(v => v !== x)`. */
  function Without(xs: seq<string>, x: string): (r: seq<string>)
    ensures x !in r
    ensures forall y :: y != x ==> (y in r <==> y in xs)
    ensures x !in xs ==> r == xs
    ensures |r| <= |xs|
  {
    if xs == [] then []
    else if xs[0] == x then Without(xs[1..], x)
    else [xs[0]] + Without(xs[1..], x)
  }

  /** `filter` keeps the surviving entries in their order: it works entry
      by entry, dropping `x` and keeping every other value. */
  lemma {:induction false} WithoutAppend(a: seq<string>, b: seq<string>, x: string)
    ensures Without(a + b, x) == Without(a, x) + Without(b, x)
  {
    if a != [] {
      assert (a + b)[0] == a[0];
      assert (a + b)[1..] == a[1..] + b;
      WithoutAppend(a[1..], b, x);
      var h := if a[0] == x then [] else [a[0]];
      assert Without(a + b, x) == h + Without(a[1..] + b, x);
      assert Without(a, x) == h + Without(a[1..], x);
      assert h + (Without(a[1..], x) + Without(b, x)) == (h + Without(a[1..], x)) + Without(b, x);
    } else {
      assert a + b == b;
    }
  }

  lemma WithoutSingle(y: string, x: string)
    ensures Without([y], x) == if y == x then [] else [y]
  {
    assert [y][1..] == [];
  }

  /** Filtering keeps a list duplicate-free, and removes exactly one entry
      from a duplicate-free list that holds `x`. */
  lemma {:induction false} WithoutDistinct(xs: seq<string>, x: string)
    requires Distinct(xs)
    ensures Distinct(Without(xs, x))
    ensures x in xs ==> |Without(xs, x)| == |xs| - 1
  {
    if xs != [] {
      assert Distinct(xs[1..]) by {
        forall i, j | 0 <= i < j < |xs[1..]| ensures xs[1..][i] != xs[1..][j] {
          assert xs[1..][i] == xs[i + 1] && xs[1..][j] == xs[j + 1];
        }
      }
      WithoutDistinct(xs[1..], x);
      assert xs[0] !in xs[1..] by {
        forall k | 0 <= k < |xs[1..]| ensures xs[1..][k] != xs[0] {
          assert xs[1..][k] == xs[k + 1];
        }
      }
      if xs[0] != x {
        var rest := Without(xs[1..], x);
        assert xs[0] !in rest;
        forall i, j | 0 <= i < j < |[xs[0]] + rest| ensures ([xs[0]] + rest)[i] != ([xs[0]] + rest)[j] {
          if i == 0 {
            assert ([xs[0]] + rest)[j] == rest[j - 1];
          } else {
            assert ([xs[0]] + rest)[i] == rest[i - 1] && ([xs[0]] + rest)[j] == rest[j - 1];
          }
        }
      }
    }
  }

  /** The updater of `handleObjectiveToggle` and of the toggled side of
      `handleLocationToggle`: remove if present, otherwise append. */
  function Toggle(xs: seq<string>, x: string): (r: seq<string>)
    ensures x in r <==> x !in xs
    ensures forall y :: y != x ==> (y in r <==> y in xs)
    ensures x !in xs ==> r == xs + [x]
    ensures x in xs ==> r == Without(xs, x)
  {
    if x in xs then Without(xs, x) else xs + [x]
  }

  /** Toggling keeps a list duplicate-free. */
  lemma ToggleDistinct(xs: seq<string>, x: string)
    requires Distinct(xs)
    ensures Distinct(Toggle(xs, x))
  {
    WithoutDistinct(xs, x);
  }

  /** Toggling twice gives back the same entries; a list that lacked the
      entry is restored exactly. */
  lemma ToggleTwice(xs: seq<string>, x: string)
    requires Distinct(xs)
    ensures forall y :: y in Toggle(Toggle(xs, x), x) <==> y in xs
    ensures Distinct(Toggle(Toggle(xs, x), x))
    ensures x !in xs ==> Toggle(Toggle(xs, x), x) == xs
  {
    ToggleDistinct(xs, x);
    ToggleDistinct(Toggle(xs, x), x);
    if x !in xs {
      WithoutAppended(xs, x);
    }
  }

  lemma {:induction false} WithoutAppended(xs: seq<string>, x: string)
    requires x !in xs
    ensures Without(xs + [x], x) == xs
  {
    if xs != [] {
      assert (xs + [x])[1..] == xs[1..] + [x];
      WithoutAppended(xs[1..], x);
      assert xs == [xs[0]] + xs[1..];
    }
  }

  datatype Side = Keep | Exit

  /** The keep and exit lists after `handleLocationToggle(location, side)`:
      the chosen side is toggled, the location is filtered out of the other. */
  function ToggleLocation(keep: seq<string>, exit: seq<string>, location: string, side: Side): (r: (seq<string>, seq<string>))
    ensures side == Keep ==> location !in r.1 && (location in r.0 <==> location !in keep)
    ensures side == Exit ==> location !in r.0 && (location in r.1 <==> location !in exit)
    ensures forall y :: y != location ==> (y in r.0 <==> y in keep) && (y in r.1 <==> y in exit)
  {
    match side
    case Keep => (Toggle(keep, location), Without(exit, location))
    case Exit => (Without(keep, location), Toggle(exit, location))
  }

  ghost predicate Disjoint(keep: seq<string>, exit: seq<string>) {
    forall y :: y in keep ==> y !in exit
  }

  /** No location is ever both kept and exited. */
  lemma ToggleLocationDisjoint(keep: seq<string>, exit: seq<string>, location: string, side: Side)
    requires Disjoint(keep, exit)
    ensures Disjoint(ToggleLocation(keep, exit, location, side).0, ToggleLocation(keep, exit, location, side).1)
  {
    var r := ToggleLocation(keep, exit, location, side);
    forall y | y in r.0 ensures y !in r.1 {
      if y != location {
        assert y in keep;
      }
    }
  }

  /** `isFormValid`. */
  predicate IsFormValid(objectives: seq<string>, keep: seq<string>, exit: seq<string>) {
    |objectives| > 0 || |keep| > 0 || |exit| > 0
  }

  /** One sentence of the question: `"<lead>: a, b. "`, or nothing for an
      empty list. */
  function Clause(lead: string, items: seq<string>): (r: string)
    ensures r == "" <==> |items| == 0
    ensures |items| > 0 ==> StartsWithAt(r, 0, lead + ": ")
  {
    if |items| == 0 then "" else lead + ": " + Join(items, ", ") + ". "
  }

  /** The formatted question `handleSubmit` passes to `onSubmit`. */
  function Question(objectives: seq<string>, keep: seq<string>, exit: seq<string>): string {
    Clause(ObjectivesLead, objectives) + Clause(KeepLead, keep) + Clause(ExitLead, exit) + Closing
  }

  /** `handleSubmit`: the question is built clause by clause and handed on
      only when it is not empty. */
  method HandleSubmit(objectives: seq<string>, keep: seq<string>, exit: seq<string>) returns (submitted: Option<string>)
    ensures submitted.Some? <==> IsFormValid(objectives, keep, exit)
    ensures submitted.Some? ==> submitted.value == Question(objectives, keep, exit)
  {
    var a, b, c := Clause(ObjectivesLead, objectives), Clause(KeepLead, keep), Clause(ExitLead, exit);
    var formatted := "";
    if |objectives| > 0 {
      formatted := formatted + a;
    }
    assert formatted == a;
    if |keep| > 0 {
      formatted := formatted + b;
    }
    assert formatted == a + b;
    if |exit| > 0 {
      formatted := formatted + c;
    }
    assert formatted == a + b + c;
    if formatted != "" {
      formatted := formatted + Closing;
      submitted := Some(formatted);
    } else {
      submitted := None;
    }
  }

  /** The question ends with the closing request. */
  lemma QuestionEndsWithClosing(objectives: seq<string>, keep: seq<string>, exit: seq<string>)
    ensures EndsWith(Question(objectives, keep, exit), Closing)
  {
    var q := Question(objectives, keep, exit);
    var front := Clause(ObjectivesLead, objectives) + Clause(KeepLead, keep) + Clause(ExitLead, exit);
    assert q == front + Closing;
    assert q[|q| - |Closing|..] == Closing;
  }

  /** The question opens with the first non-empty list's lead-in, in the
      fixed order objectives, keep, exit. */
  lemma QuestionOpening(objectives: seq<string>, keep: seq<string>, exit: seq<string>)
    ensures |objectives| > 0 ==> StartsWithAt(Question(objectives, keep, exit), 0, ObjectivesLead + ": ")
    ensures |objectives| == 0 && |keep| > 0 ==> StartsWithAt(Question(objectives, keep, exit), 0, KeepLead + ": ")
    ensures |objectives| == 0 && |keep| == 0 && |exit| > 0 ==> StartsWithAt(Question(objectives, keep, exit), 0, ExitLead + ": ")
    ensures !IsFormValid(objectives, keep, exit) ==> Question(objectives, keep, exit) == Closing
  {
    var a, b, c := Clause(ObjectivesLead, objectives), Clause(KeepLead, keep), Clause(ExitLead, exit);
    if |objectives| > 0 {
      StartsWithAppend(a, b, ObjectivesLead + ": ");
      StartsWithAppend(a + b, c, ObjectivesLead + ": ");
      StartsWithAppend(a + b + c, Closing, ObjectivesLead + ": ");
    } else if |keep| > 0 {
      assert a + b == b;
      StartsWithAppend(b, c, KeepLead + ": ");
      StartsWithAppend(b + c, Closing, KeepLead + ": ");
    } else if |exit| > 0 {
      assert a + b + c == c;
      StartsWithAppend(c, Closing, ExitLead + ": ");
    } else {
      assert a + b + c == "";
    }
  }

  /** Every selected objective and location is named in the question. */
  lemma QuestionMentions(objectives: seq<string>, keep: seq<string>, exit: seq<string>, x: string)
    requires x in objectives || x in keep || x in exit
    ensures Contains(Question(objectives, keep, exit), x)
  {
    var a, b, c := Clause(ObjectivesLead, objectives), Clause(KeepLead, keep), Clause(ExitLead, exit);
    if x in objectives {
      ClauseMentions(ObjectivesLead, objectives, x);
      ContainsAppend(a, b, x);
      ContainsAppend(a + b, c, x);
    } else if x in keep {
      ClauseMentions(KeepLead, keep, x);
      ContainsPrepend(a, b, x);
      ContainsAppend(a + b, c, x);
    } else {
      ClauseMentions(ExitLead, exit, x);
      ContainsPrepend(a + b, c, x);
    }
    ContainsAppend(a + b + c, Closing, x);
  }

  lemma ClauseMentions(lead: string, items: seq<string>, x: string)
    requires x in items
    ensures Contains(Clause(lead, items), x)
  {
    var i :| 0 <= i < |items| && items[i] == x;
    JoinContains(items, ", ", i);
    ContainsPrepend(lead + ": ", Join(items, ", "), x);
    ContainsAppend(lead + ": " + Join(items, ", "), ". ", x);
  }

  /** A single objective and nothing else: "My primary strategic
      objectives are: Rightsize. " followed by the closing request. */
  lemma QuestionExample()
    ensures Question(["Rightsize"], [], []) == ObjectivesLead + ": Rightsize. " + Closing
  {
    assert Join(["Rightsize"], ", ") == "Rightsize";
    assert Clause(KeepLead, []) == "" && Clause(ExitLead, []) == "";
    assert ": " + "Rightsize" + ". " == ": Rightsize. ";
    assert Clause(ObjectivesLead, ["Rightsize"]) == ObjectivesLead + ": Rightsize. ";
  }

  /** The form: the available locations and the three selections.
      The dropdown open/closed flags are not modelled. */
  class StrategicForm {
    var availableLocations: seq<string>
    var selectedObjectives: seq<string>
    var locationsToKeep: seq<string>
    var locationsToExit: seq<string>

    /** Selections built by the toggles stay duplicate-free and keep and
        exit never share a location. */
    ghost predicate Valid()
      reads this
    {
      Distinct(selectedObjectives) && Distinct(locationsToKeep) && Distinct(locationsToExit) &&
      Disjoint(locationsToKeep, locationsToExit)
    }

    /** Mounting the form: empty selections, locations extracted from the
        portfolio. */
    constructor (p: PortfolioData)
      ensures Valid()
      ensures availableLocations == SortedSet(LocationSet(p.data, LocationColumn(p.headers)))
      ensures selectedObjectives == [] && locationsToKeep == [] && locationsToExit == []
    {
      var locations := ExtractLocations(p);
      availableLocations := locations;
      selectedObjectives := [];
      locationsToKeep := [];
      locationsToExit := [];
    }

    /** `handleObjectiveToggle`. */
    method ObjectiveToggle(objective: string)
      requires Valid()
      modifies this
      ensures Valid()
      ensures selectedObjectives == Toggle(old(selectedObjectives), objective)
      ensures availableLocations == old(availableLocations)
      ensures locationsToKeep == old(locationsToKeep) && locationsToExit == old(locationsToExit)
    {
      ToggleDistinct(selectedObjectives, objective);
      selectedObjectives := Toggle(selectedObjectives, objective);
    }

    /** `handleLocationToggle`. */
    method LocationToggle(location: string, side: Side)
      requires Valid()
      modifies this
      ensures Valid()
      ensures (locationsToKeep, locationsToExit) == ToggleLocation(old(locationsToKeep), old(locationsToExit), location, side)
      ensures availableLocations == old(availableLocations) && selectedObjectives == old(selectedObjectives)
    {
      ToggleLocationDisjoint(locationsToKeep, locationsToExit, location, side);
      if side == Keep {
        ToggleDistinct(locationsToKeep, location);
        WithoutDistinct(locationsToExit, location);
        locationsToKeep := Toggle(locationsToKeep, location);
        locationsToExit := Without(locationsToExit, location);
      } else {
        ToggleDistinct(locationsToExit, location);
        WithoutDistinct(locationsToKeep, location);
        locationsToExit := Toggle(locationsToExit, location);
        locationsToKeep := Without(locationsToKeep, location);
      }
    }

    /** `handleSubmit` on the current selections. */
    method Submit() returns (submitted: Option<string>)
      ensures submitted.Some? <==> IsFormValid(selectedObjectives, locationsToKeep, locationsToExit)
      ensures submitted.Some? ==> submitted.value == Question(selectedObjectives, locationsToKeep, locationsToExit)
    {
      submitted := HandleSubmit(selectedObjectives, locationsToKeep, locationsToExit);
    }
  }
}
