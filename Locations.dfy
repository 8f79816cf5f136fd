/** The location-column heuristic and the location list shared, as copies of
    the same code, by src/components/PredefinedQuestions.tsx
    (`extractLocations`) and src/components/SuggestedQuestions.tsx
    (`getAvailableLocations`). */
module Locations {
  import opened Strings
  import opened Portfolio

  /** The candidate header fragments, in priority order. */
  const LocationColumnNames: seq<string> := [
    "location", "locations", "site", "sites", "city", "cities",
    "address", "addresses", "building", "buildings", "property",
    "properties", "facility", "facilities", "office", "offices"
  ]

  /** `header.toLowerCase().includes(name.toLowerCase())`. */
  predicate HeaderMatches(header: string, name: string) {
    Contains(ToLower(header), ToLower(name))
  }

  /** `headers.findIndex(...)`: the leftmost header matching `name`, or -1. */
  function FindIndex(headers: seq<string>, name: string): (r: int)
    ensures -1 <= r < |headers|
    ensures r == -1 <==> forall h :: 0 <= h < |headers| ==> !HeaderMatches(headers[h], name)
    ensures r >= 0 ==> HeaderMatches(headers[r], name)
    ensures r >= 0 ==> forall h :: 0 <= h < r ==> !HeaderMatches(headers[h], name)
  {
    if |headers| == 0 then -1
    else if HeaderMatches(headers[0], name) then 0
    else
      var k := FindIndex(headers[1..], name);
      if k == -1 then -1 else k + 1
  }

  /** The header index found for the first candidate of `names`, from the
      `k`-th on, that some header matches; -1 when none does. */
  function FirstHit(headers: seq<string>, names: seq<string>, k: nat): (r: int)
    requires k <= |names|
    ensures -1 <= r < |headers|
    decreases |names| - k
  {
    if k == |names| then -1
    else
      var i := FindIndex(headers, names[k]);
      if i != -1 then i else FirstHit(headers, names, k + 1)
  }

  /** The column `extractLocations` and `getAvailableLocations` read. */
  function LocationColumn(headers: seq<string>): nat {
    var i := FirstHit(headers, LocationColumnNames, 0);
    if i == -1 then 0 else i
  }

  /** No header contains any candidate. */
  ghost predicate NoCandidateMatches(headers: seq<string>, names: seq<string>) {
    forall k, h :: 0 <= k < |names| && 0 <= h < |headers| ==>
      !HeaderMatches(headers[h], names[k])
  }

  /** Column `col` is the leftmost header matching candidate `k`, and no
      header matches any candidate listed before `k`. */
  ghost predicate ChosenFor(headers: seq<string>, names: seq<string>, k: int, col: int) {
    && 0 <= k < |names|
    && 0 <= col < |headers|
    && HeaderMatches(headers[col], names[k])
    && (forall h :: 0 <= h < col ==> !HeaderMatches(headers[h], names[k]))
    && (forall j, h :: 0 <= j < k && 0 <= h < |headers| ==>
          !HeaderMatches(headers[h], names[j]))
  }

  lemma {:induction false} FirstHitSpec(headers: seq<string>, names: seq<string>, k: nat)
    requires k <= |names|
    requires forall j, h :: 0 <= j < k && 0 <= h < |headers| ==>
               !HeaderMatches(headers[h], names[j])
    ensures FirstHit(headers, names, k) == -1 ==> NoCandidateMatches(headers, names)
    ensures FirstHit(headers, names, k) != -1 ==>
              exists j :: ChosenFor(headers, names, j, FirstHit(headers, names, k))
    decreases |names| - k
  {
    if k < |names| {
      var i := FindIndex(headers, names[k]);
      if i != -1 {
        assert ChosenFor(headers, names, k, i);
      } else {
        FirstHitSpec(headers, names, k + 1);
      }
    }
  }

  /** At most one column is chosen: the candidate that decides is the first
      one any header matches, and its leftmost match is unique. */
  lemma ChosenUnique(headers: seq<string>, names: seq<string>, k: int, col: int, k': int, col': int)
    requires ChosenFor(headers, names, k, col) && ChosenFor(headers, names, k', col')
    ensures k == k' && col == col'
  {
    if k' < k {
      NotBefore(headers, names, k, col, k', col');
    } else if k < k' {
      NotBefore(headers, names, k', col', k, col);
    } else if col' < col {
      NotLeftOf(headers, names, k, col, col');
    } else if col < col' {
      NotLeftOf(headers, names, k', col', col);
    }
  }

  lemma NotBefore(headers: seq<string>, names: seq<string>, k: int, col: int, j: int, h: int)
    requires ChosenFor(headers, names, k, col) && 0 <= j < k && 0 <= h < |headers|
    ensures !HeaderMatches(headers[h], names[j])
  {
  }

  lemma NotLeftOf(headers: seq<string>, names: seq<string>, k: int, col: int, h: int)
    requires ChosenFor(headers, names, k, col) && 0 <= h < col
    ensures !HeaderMatches(headers[h], names[k])
  {
  }

  /** The column choice, stated without the search: the fallback to column 0,
      and otherwise the leftmost header matching the first candidate that
      any header matches. */
  lemma LocationColumnSpec(headers: seq<string>)
    ensures NoCandidateMatches(headers, LocationColumnNames) ==> LocationColumn(headers) == 0
    ensures !NoCandidateMatches(headers, LocationColumnNames) ==>
              exists k :: ChosenFor(headers, LocationColumnNames, k, LocationColumn(headers))
  {
    FirstHitSpec(headers, LocationColumnNames, 0);
    var i := FirstHit(headers, LocationColumnNames, 0);
    if i != -1 {
      var k :| ChosenFor(headers, LocationColumnNames, k, i);
      assert LocationColumn(headers) == i;
    }
  }

  /** A column chosen for a candidate is the one used: candidate priority
      wins over column position. */
  lemma LocationColumnChosen(headers: seq<string>, k: int, col: int)
    requires ChosenFor(headers, LocationColumnNames, k, col)
    ensures LocationColumn(headers) == col
  {
    LocationColumnSpec(headers);
    assert !NoCandidateMatches(headers, LocationColumnNames) by {
      assert HeaderMatches(headers[col], LocationColumnNames[k]);
    }
    var k' :| ChosenFor(headers, LocationColumnNames, k', LocationColumn(headers));
    ChosenUnique(headers, LocationColumnNames, k, col, k', LocationColumn(headers));
  }

  /** The column is a header index whenever there are headers. */
  lemma LocationColumnInRange(headers: seq<string>)
    ensures |headers| > 0 ==> LocationColumn(headers) < |headers|
  {
    LocationColumnSpec(headers);
  }

  /** A "location" header beats an earlier "site" header. */
  lemma LocationBeatsEarlierSite()
    ensures LocationColumn(["Site", "Location"]) == 1
  {
    var headers := ["Site", "Location"];
    assert ToLower(headers[1]) == "location";
    assert ToLower(LocationColumnNames[0]) == "location";
    assert StartsWithAt(ToLower(headers[1]), 0, "location");
    assert !HeaderMatches(headers[0], "location");
    LocationColumnChosen(headers, 0, 1);
  }

  /** A column `extractLocations` keeps: a string cell with non-blank text. */
  predicate IsLocationCell(row: seq<Cell>, col: nat) {
    col < |row| && row[col].Str? && Trim(row[col].text) != ""
  }

  /** The trimmed, non-blank string cells of column `col`. */
  function LocationSet(data: seq<seq<Cell>>, col: nat): set<string> {
    set row: seq<Cell> | row in data && IsLocationCell(row, col) :: Trim(row[col].text)
  }

  /** What the location set holds: exactly the trimmed text of the string
      cells of the column that are not blank. Numeric, missing and blank
      cells contribute nothing. */
  lemma LocationSetMembers(data: seq<seq<Cell>>, col: nat, x: string)
    ensures x in LocationSet(data, col) <==>
              exists i :: 0 <= i < |data| && col < |data[i]| && data[i][col].Str? &&
                          Trim(data[i][col].text) != "" && x == Trim(data[i][col].text)
    ensures x in LocationSet(data, col) ==> x != "" && Trim(x) == x
  {
    if x in LocationSet(data, col) {
      var row: seq<Cell> :| row in data && IsLocationCell(row, col) && x == Trim(row[col].text);
      TrimIdempotent(row[col].text);
    }
  }

  /** Every trimmed location cell of row `i` is in the set. */
  lemma LocationSetHas(data: seq<seq<Cell>>, col: nat, i: int)
    requires 0 <= i < |data| && IsLocationCell(data[i], col)
    ensures Trim(data[i][col].text) in LocationSet(data, col)
  {
    assert data[i] in data;
  }

  /** The set is bounded by any set that holds the trimmed text of every
      location cell of the column. */
  lemma LocationSetBound(data: seq<seq<Cell>>, col: nat, d: set<string>)
    requires forall i :: 0 <= i < |data| && IsLocationCell(data[i], col) ==> Trim(data[i][col].text) in d
    ensures LocationSet(data, col) <= d
  {
    forall x | x in LocationSet(data, col) ensures x in d {
      var row: seq<Cell> :| row in data && IsLocationCell(row, col) && x == Trim(row[col].text);
      var i :| 0 <= i < |data| && data[i] == row;
    }
  }

  ghost predicate IsMinimum(m: string, s: set<string>) {
    m in s && forall y :: y in s && y != m ==> Less(m, y)
  }

  lemma {:induction false} MinimumExists(s: set<string>)
    requires s != {}
    ensures exists m :: IsMinimum(m, s)
    decreases |s|
  {
    var x :| x in s;
    if s == {x} {
      assert IsMinimum(x, s);
    } else {
      MinimumExists(s - {x});
      var m :| IsMinimum(m, s - {x});
      if Less(x, m) {
        forall y | y in s && y != x ensures Less(x, y) {
          if y != m {
            LessTransitive(x, m, y);
          }
        }
        assert IsMinimum(x, s);
      } else {
        LessTotal(x, m);
        assert IsMinimum(m, s);
      }
    }
  }

  /** `Array.from(set).sort()`: the elements of a set in ascending order. */
  ghost function SortedSet(s: set<string>): (r: seq<string>)
    ensures StrictlySorted(r)
    ensures forall x :: x in r <==> x in s
    decreases |s|
  {
    if s == {} then []
    else
      MinimumExists(s);
      var m :| IsMinimum(m, s);
      var rest := SortedSet(s - {m});
      assert forall j :: 0 <= j < |rest| ==> rest[j] in rest;
      assert forall j :: 0 <= j < |rest| ==> Less(m, rest[j]);
      [m] + rest
  }

  /** The Set of `extractLocations`, in insertion order: the distinct
      trimmed, non-blank string cells of column `col`. */
  method CollectLocations(data: seq<seq<Cell>>, col: nat) returns (seen: seq<string>)
    ensures Distinct(seen)
    ensures forall x :: x in seen <==> x in LocationSet(data, col)
  {
    seen := [];
    for i := 0 to |data|
      invariant Distinct(seen)
      invariant forall x :: x in seen <==> x in LocationSet(data[..i], col)
    {
      var row := data[i];
      assert data[..i + 1] == data[..i] + [row];
      if col < |row| && row[col].Str? && Trim(row[col].text) != "" {
        var location := Trim(row[col].text);
        if location !in seen {
          seen := seen + [location];
        }
      }
    }
    assert data[..|data|] == data;
  }

  /** The column search of `extractLocations`: candidates in the outer loop,
      `findIndex` over the headers inside, the first hit wins. */
  method FindLocationColumn(headers: seq<string>) returns (col: nat)
    ensures col == LocationColumn(headers)
  {
    var index := -1;
    var k := 0;
    while k < |LocationColumnNames|
      invariant 0 <= k <= |LocationColumnNames|
      invariant index == -1
      invariant FirstHit(headers, LocationColumnNames, k) == FirstHit(headers, LocationColumnNames, 0)
    {
      index := FindIndex(headers, LocationColumnNames[k]);
      if index != -1 {
        break;
      }
      k := k + 1;
    }
    if index == -1 {
      index := 0;
    }
    col := index;
  }

  /** `Array.prototype.sort` on distinct strings, as insertion into an
      ascending sequence. */
  method SortLocations(xs: seq<string>) returns (r: seq<string>)
    requires Distinct(xs)
    ensures StrictlySorted(r)
    ensures forall x :: x in r <==> x in xs
  {
    r := [];
    for i := 0 to |xs|
      invariant StrictlySorted(r)
      invariant forall x :: x in r <==> x in xs[..i]
    {
      var x := xs[i];
      assert x !in r;
      var j := 0;
      while j < |r| && Less(r[j], x)
        invariant 0 <= j <= |r|
        invariant forall k :: 0 <= k < j ==> Less(r[k], x)
      {
        j := j + 1;
      }
      if j < |r| {
        LessTotal(r[j], x);
        forall k | j < k < |r| ensures Less(x, r[k]) {
          LessTransitive(x, r[j], r[k]);
        }
      }
      r := r[..j] + [x] + r[j..];
      assert xs[..i + 1] == xs[..i] + [x];
    }
    assert xs[..|xs|] == xs;
  }

}

/** Worked examples about the location listing. */
module LocationExamples {
  import opened Strings
  import opened Portfolio
  import opened Locations

  /** Trimming only, no case folding, and a case-sensitive order: upper-case
      letters sort before lower-case ones. */
  lemma LocationsExample()
    ensures SortedSet(LocationSet([[Str("  NYC  ")], [Str("LA")], [Str("nyc")]], 0)) == ["LA", "NYC", "nyc"]
  {
    var data := [[Str("  NYC  ")], [Str("LA")], [Str("nyc")]];
    ExampleLocationSet(data);
    ExampleListingSorted();
    StrictlySortedUnique(["LA", "NYC", "nyc"], SortedSet(LocationSet(data, 0)));
  }

  lemma ExampleLocationSet(data: seq<seq<Cell>>)
    requires data == [[Str("  NYC  ")], [Str("LA")], [Str("nyc")]]
    ensures LocationSet(data, 0) == {"NYC", "LA", "nyc"}
  {
    ExampleLocationsPresent(data);
    ExampleLocationsOnly(data);
  }

  lemma ExampleLocationsPresent(data: seq<seq<Cell>>)
    requires data == [[Str("  NYC  ")], [Str("LA")], [Str("nyc")]]
    ensures {"NYC", "LA", "nyc"} <= LocationSet(data, 0)
  {
    ExampleTrims();
    assert IsLocationCell(data[0], 0) && IsLocationCell(data[1], 0) && IsLocationCell(data[2], 0);
    LocationSetHas(data, 0, 0);
    LocationSetHas(data, 0, 1);
    LocationSetHas(data, 0, 2);
  }

  lemma ExampleLocationsOnly(data: seq<seq<Cell>>)
    requires data == [[Str("  NYC  ")], [Str("LA")], [Str("nyc")]]
    ensures LocationSet(data, 0) <= {"NYC", "LA", "nyc"}
  {
    forall i | 0 <= i < |data| && IsLocationCell(data[i], 0)
      ensures Trim(data[i][0].text) in {"NYC", "LA", "nyc"}
    {
      ExampleCellTrim(data, i);
    }
    LocationSetBound(data, 0, {"NYC", "LA", "nyc"});
  }

  lemma ExampleCellTrim(data: seq<seq<Cell>>, i: int)
    requires data == [[Str("  NYC  ")], [Str("LA")], [Str("nyc")]]
    requires 0 <= i < 3
    ensures Trim(data[i][0].text) in {"NYC", "LA", "nyc"}
  {
    var t := data[i][0].text;
    if i == 0 {
      assert t == "  NYC  ";
      ExampleTrimPadded();
    } else if i == 1 {
      assert t == "LA";
      ExampleTrimWord(t);
    } else {
      assert t == "nyc";
      ExampleTrimWord(t);
    }
  }

  lemma ExampleTrims()
    ensures Trim("  NYC  ") == "NYC" && Trim("LA") == "LA" && Trim("nyc") == "nyc"
  {
    ExampleTrimPadded();
    ExampleTrimPlain();
  }

  lemma ExampleTrimPlain()
    ensures Trim("LA") == "LA" && Trim("nyc") == "nyc"
  {
    ExampleTrimWord("LA");
    ExampleTrimWord("nyc");
  }

  /** A word that starts and ends with a letter is its own trim. */
  lemma ExampleTrimWord(w: string)
    requires |w| > 0 && 'A' <= w[0] <= 'z' && 'A' <= w[|w| - 1] <= 'z'
    ensures Trim(w) == w
  {
    TrimUnpadded(w);
  }

  lemma ExampleTrimPadded()
    ensures Trim("  NYC  ") == "NYC"
  {
    assert !IsSpace('N') && !IsSpace('C');
    assert TrimStart("NYC  ") == "NYC  ";
    assert " NYC  "[1..] == "NYC  ";
    assert TrimStart(" NYC  ") == "NYC  ";
    assert "  NYC  "[1..] == " NYC  ";
    assert TrimEnd("NYC") == "NYC";
    assert "NYC "[..3] == "NYC";
    assert TrimEnd("NYC ") == "NYC";
    assert "NYC  "[..4] == "NYC ";
  }

  lemma ExampleListingSorted()
    ensures StrictlySorted(["LA", "NYC", "nyc"])
  {
    assert Less("LA", "NYC") && Less("NYC", "nyc") && Less("LA", "nyc");
  }
}
