/** The upload decoder (src/utils/fileParser.ts): the HTML escaper, and how
    the records a spreadsheet or CSV library yields become a table. */
module FileParser {
  import opened Wrappers
  import opened Strings
  import opened Portfolio

  // ---------------------------------------------------------------------
  // escapeHtml

  /** The five characters the escaper replaces. */
  predicate IsSpecial(c: char) {
    c == '&' || c == '<' || c == '>' || c == '"' || c == '\''
  }

  /** The characters that can open or close markup or an attribute value. */
  predicate IsMarkup(c: char) {
    c == '<' || c == '>' || c == '"' || c == '\''
  }

  /** The replacement map, extended by the identity on other characters. */
  function Entity(c: char): string {
    match c
    case '&' => "&amp;"
    case '<' => "&lt;"
    case '>' => "&gt;"
    case '"' => "&quot;"
    case '\'' => "&#039;"
    case _ => [c]
  }

  /** `escapeHtml`: one left-to-right replace of every special character by
      its entity. The result is never shorter than the text and holds no
      markup character. */
  function EscapeHtml(text: string): (r: string)
    ensures |r| >= |text|
    ensures forall j :: 0 <= j < |r| ==> !IsMarkup(r[j])
  {
    if text == [] then "" else Entity(text[0]) + EscapeHtml(text[1..])
  }

  /** Escaping works character by character, in order. */
  lemma {:induction false} EscapeAppend(a: string, b: string)
    ensures EscapeHtml(a + b) == EscapeHtml(a) + EscapeHtml(b)
  {
    if a != [] {
      assert (a + b)[0] == a[0];
      assert (a + b)[1..] == a[1..] + b;
      EscapeAppend(a[1..], b);
      assert EscapeHtml(a + b) == Entity(a[0]) + EscapeHtml(a[1..] + b);
      assert EscapeHtml(a) == Entity(a[0]) + EscapeHtml(a[1..]);
      assert Entity(a[0]) + (EscapeHtml(a[1..]) + EscapeHtml(b)) == (Entity(a[0]) + EscapeHtml(a[1..])) + EscapeHtml(b);
    } else {
      assert a + b == b;
    }
  }

  /** A text with no special character is returned unchanged, and a text
      with one comes back strictly longer, so escaping is the identity
      exactly on such texts. */
  lemma {:induction false} EscapeUnchanged(text: string)
    ensures EscapeHtml(text) == text <==> forall j :: 0 <= j < |text| ==> !IsSpecial(text[j])
  {
    if forall j :: 0 <= j < |text| ==> !IsSpecial(text[j]) {
      EscapePlain(text);
    } else {
      var j :| 0 <= j < |text| && IsSpecial(text[j]);
      EscapeGrows(text, j);
    }
  }

  lemma {:induction false} EscapePlain(text: string)
    requires forall j :: 0 <= j < |text| ==> !IsSpecial(text[j])
    ensures EscapeHtml(text) == text
  {
    if text != [] {
      assert !IsSpecial(text[0]);
      EscapePlain(text[1..]);
    }
  }

  lemma {:induction false} EscapeGrows(text: string, j: nat)
    requires j < |text| && IsSpecial(text[j])
    ensures |EscapeHtml(text)| > |text|
  {
    if j > 0 {
      EscapeGrows(text[1..], j - 1);
    }
  }

  /** Decoding the five entities, left to right. */
  function Unescape(s: string): (r: string)
    ensures |r| <= |s|
    decreases |s|
  {
    if s == [] then ""
    else if StartsWithAt(s, 0, "&amp;") then "&" + Unescape(s[5..])
    else if StartsWithAt(s, 0, "&lt;") then "<" + Unescape(s[4..])
    else if StartsWithAt(s, 0, "&gt;") then ">" + Unescape(s[4..])
    else if StartsWithAt(s, 0, "&quot;") then "\"" + Unescape(s[6..])
    else if StartsWithAt(s, 0, "&#039;") then "'" + Unescape(s[6..])
    else [s[0]] + Unescape(s[1..])
  }

  /** The escaping is a single pass: an `&` one replacement introduces is
      not escaped again, so decoding the entities gives the text back. */
  lemma {:induction false} UnescapeEscape(text: string)
    ensures Unescape(EscapeHtml(text)) == text
  {
    if text != [] {
      UnescapeEntity(text[0], EscapeHtml(text[1..]));
      UnescapeEscape(text[1..]);
    }
  }

  lemma UnescapeEntity(c: char, rest: string)
    ensures Unescape(Entity(c) + rest) == [c] + Unescape(rest)
  {
    var e := Entity(c);
    var s := e + rest;
    assert s[|e|..] == rest;
    if !IsSpecial(c) {
      assert s[0] == c;
      assert !StartsWithAt(s, 0, "&amp;") && !StartsWithAt(s, 0, "&lt;") && !StartsWithAt(s, 0, "&gt;") by {
        if |s| >= 4 { assert s[0..4][0] == c; }
        if |s| >= 5 { assert s[0..5][0] == c; }
      }
      assert !StartsWithAt(s, 0, "&quot;") && !StartsWithAt(s, 0, "&#039;") by {
        if |s| >= 6 { assert s[0..6][0] == c; }
      }
    } else if c == '&' {
      assert s[0..5] == e;
    } else if c == '<' || c == '>' {
      assert s[0..4] == e;
      assert !StartsWithAt(s, 0, "&amp;") by {
        if |s| >= 5 { assert s[0..5][1] == e[1]; }
      }
    } else {
      assert s[0..6] == e;
      assert !StartsWithAt(s, 0, "&amp;") && !StartsWithAt(s, 0, "&lt;") && !StartsWithAt(s, 0, "&gt;") by {
        assert s[0..4][1] == e[1] && s[0..5][1] == e[1];
      }
    }
  }

  // ---------------------------------------------------------------------
  // parseFile

  /** A CSV row some cell of which is not blank after trimming. */
  predicate HasContent(row: seq<string>) {
    exists i :: 0 <= i < |row| && Trim(row[i]) != ""
  }

  /** The blank-row filter of the CSV path: exactly the rows with content
      are kept. */
  function NonBlankRows(rows: seq<seq<string>>): (r: seq<seq<string>>)
    ensures |r| <= |rows|
    ensures forall row :: row in r <==> row in rows && HasContent(row)
  {
    if rows == [] then []
    else (if HasContent(rows[0]) then [rows[0]] else []) + NonBlankRows(rows[1..])
  }

  /** The kept rows stay in their order: filtering commutes with
      concatenation. */
  lemma {:induction false} NonBlankRowsAppend(a: seq<seq<string>>, b: seq<seq<string>>)
    ensures NonBlankRows(a + b) == NonBlankRows(a) + NonBlankRows(b)
  {
    if a != [] {
      assert (a + b)[0] == a[0];
      assert (a + b)[1..] == a[1..] + b;
      NonBlankRowsAppend(a[1..], b);
      var h := if HasContent(a[0]) then [a[0]] else [];
      assert NonBlankRows(a + b) == h + NonBlankRows(a[1..] + b);
      assert NonBlankRows(a) == h + NonBlankRows(a[1..]);
      assert h + (NonBlankRows(a[1..]) + NonBlankRows(b)) == (h + NonBlankRows(a[1..])) + NonBlankRows(b);
    } else {
      assert a + b == b;
    }
  }

  /** Rows that all have content are all kept. */
  lemma {:induction false} NonBlankRowsKeepAll(rows: seq<seq<string>>)
    requires forall i :: 0 <= i < |rows| ==> HasContent(rows[i])
    ensures NonBlankRows(rows) == rows
  {
    if rows != [] {
      assert HasContent(rows[0]);
      NonBlankRowsKeepAll(rows[1..]);
    }
  }

  /** The CSV cells, typed as table cells. */
  function StrRows(rows: seq<seq<string>>): (r: seq<seq<Cell>>)
    ensures |r| == |rows|
    ensures forall i :: 0 <= i < |rows| ==> |r[i]| == |rows[i]| && forall j :: 0 <= j < |rows[i]| ==> r[i][j] == Str(rows[i][j])
  {
    seq(|rows|, i requires 0 <= i < |rows| => seq(|rows[i]|, j requires 0 <= j < |rows[i]| => Str(rows[i][j])))
  }

  const UnsupportedFormat := "Unsupported file format"
  const ParsingError := "File parsing error: "
  const ReadingError := "File reading error"

  /** `parseFile`. The file reader, the workbook library and the CSV
      library are not modelled; their outcomes are the parameters:
      `readOk` is whether the reader loaded the file, `sheet` is the
      first sheet's records or the message of the error the workbook
      library threw (`None` for a thrown value that is not an `Error`), and
      `csv` is the records the CSV library delivered, blank lines skipped,
      or the message it reported. */
  method ParseFile(name: string, readOk: bool, sheet: Result<seq<seq<Cell>>, Option<string>>,
                   csv: Result<seq<seq<string>>, string>) returns (r: Result<PortfolioData, string>)
    ensures !readOk ==> r == Failure(ReadingError)
    ensures readOk && EndsWith(name, ".xlsx") ==>
      match sheet
      case Failure(None) => r == Failure(ParsingError + "Unknown error")
      case Failure(Some(m)) => r == Failure(ParsingError + m)
      case Success(records) =>
        r.Success? &&
        (|records| == 0 ==> r.value == PortfolioData([], [])) &&
        (|records| > 0 ==> |r.value.headers| == |records[0]| &&
                           (forall i :: 0 <= i < |records[0]| ==> r.value.headers[i] == CellText(records[0][i])) &&
                           r.value.data == records[1..])
    ensures readOk && !EndsWith(name, ".xlsx") && EndsWith(name, ".csv") ==>
      match csv
      case Failure(m) => r == Failure("CSV parsing error: " + m)
      case Success(records) =>
        (|records| == 0 ==> r == Success(PortfolioData([], []))) &&
        (|records| > 0 ==> r == Success(PortfolioData(records[0], StrRows(NonBlankRows(records[1..])))))
    ensures readOk && !EndsWith(name, ".xlsx") && !EndsWith(name, ".csv") ==> r == Failure(UnsupportedFormat)
  {
    if !readOk {
      return Failure(ReadingError);
    }
    var headers: seq<string> := [];
    var parsedData: seq<seq<Cell>> := [];
    if EndsWith(name, ".xlsx") {
      if sheet.Failure? {
        var message := if sheet.error.Some? then sheet.error.value else "Unknown error";
        return Failure(ParsingError + message);
      }
      var jsonData := sheet.value;
      if |jsonData| > 0 {
        headers := seq(|jsonData[0]|, i requires 0 <= i < |jsonData[0]| => CellText(jsonData[0][i]));
        parsedData := jsonData[1..];
      }
      r := Success(PortfolioData(headers, parsedData));
    } else if EndsWith(name, ".csv") {
      if csv.Failure? {
        return Failure("CSV parsing error: " + csv.error);
      }
      var csvData := csv.value;
      if |csvData| > 0 {
        headers := csvData[0];
        parsedData := StrRows(NonBlankRows(csvData[1..]));
      }
      r := Success(PortfolioData(headers, parsedData));
    } else {
      r := Failure(UnsupportedFormat);
    }
  }

  /** On the CSV path every data row has a non-blank cell, and every
      non-blank record after the header is among the data rows. */
  lemma CsvRowsHaveContent(records: seq<seq<string>>)
    requires |records| > 0
    ensures forall row :: row in NonBlankRows(records[1..]) ==> HasContent(row) && row in records[1..]
    ensures forall i :: 1 <= i < |records| && HasContent(records[i]) ==> records[i] in NonBlankRows(records[1..])
  {
    var rest := records[1..];
    forall i | 1 <= i < |records| && HasContent(records[i]) ensures records[i] in NonBlankRows(rest) {
      assert records[i] == rest[i - 1];
    }
  }
}
