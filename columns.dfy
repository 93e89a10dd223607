/** Header matching: findColumnIndex (app.js), validateRequiredColumns
    (data-processor.js) and the isHeaderRow test of processLoadedData
    (ui-controller.js). */
module Columns {

  import opened JsValues
  import opened JsText
  import opened Seqs

  const TimestampKeywords: seq<string> := ["tslocal", "timestamp", "datetime"]
  const DateKeywords: seq<string> := ["date", "day", "날짜"]
  const TimeKeywords: seq<string> := ["time", "시간"]
  const LatKeywords: seq<string> := ["lat", "latitude", "위도"]
  const LngKeywords: seq<string> := ["lng", "longitude", "경도"]

  /** The normalised text of a header cell; a falsy header has none. */
  function HeaderText(e: Engine, h: Value): Option<string> {
    if Truthy(h) then Some(Normalize(ToStr(e, h))) else None
  }

  /** The findIndex callback of findColumnIndex. */
  predicate HeaderMatches(e: Engine, h: Value, keyword: string, exact: bool) {
    HeaderText(e, h).Some? &&
    (if exact then HeaderText(e, h).value == keyword else Contains(HeaderText(e, h).value, keyword))
  }

  /** `headers.findIndex(...)` with that callback: the first matching position, or -1. */
  function FindIndex(e: Engine, headers: seq<Value>, keyword: string, exact: bool): (i: int)
    ensures -1 <= i < |headers|
  {
    FindFirst(headers, Matcher(e, keyword, exact))
  }

  /** The findIndex callback as a value. */
  function Matcher(e: Engine, keyword: string, exact: bool): Value -> bool {
    (h: Value) => HeaderMatches(e, h, keyword, exact)
  }

  /** findIndex gives -1 exactly when no header matches, and otherwise the
      first header that matches. */
  lemma FindIndexSpec(e: Engine, headers: seq<Value>, keyword: string, exact: bool)
    ensures var i := FindIndex(e, headers, keyword, exact);
      (i == -1 <==> forall j | 0 <= j < |headers| :: !HeaderMatches(e, headers[j], keyword, exact)) &&
      (i >= 0 ==> HeaderMatches(e, headers[i], keyword, exact) &&
                  forall j | 0 <= j < i :: !HeaderMatches(e, headers[j], keyword, exact))
  {
    var p := Matcher(e, keyword, exact);
    FindFirstSpec(headers, p);
    forall j | 0 <= j < |headers| ensures p(headers[j]) == HeaderMatches(e, headers[j], keyword, exact) {
    }
  }

  /** What findColumnIndex returns: the position found for the earliest
      keyword that matches some header, or -1. */
  function ColumnIndex(e: Engine, headers: seq<Value>, keywords: seq<string>, exact: bool): (i: int)
    ensures -1 <= i < |headers|
    decreases |keywords|
  {
    if keywords == [] then -1
    else
      var i := FindIndex(e, headers, keywords[0], exact);
      if i != -1 then i else ColumnIndex(e, headers, keywords[1..], exact)
  }

  /** ColumnIndex is -1 exactly when no keyword matches any header. */
  lemma {:induction false} ColumnIndexNone(e: Engine, headers: seq<Value>, keywords: seq<string>, exact: bool)
    ensures ColumnIndex(e, headers, keywords, exact) == -1 <==>
      forall k, j | 0 <= k < |keywords| && 0 <= j < |headers| :: !HeaderMatches(e, headers[j], keywords[k], exact)
    decreases |keywords|
  {
    if keywords != [] {
      var rest := keywords[1..];
      var first := FindIndex(e, headers, keywords[0], exact);
      FindIndexSpec(e, headers, keywords[0], exact);
      if first == -1 {
        ColumnIndexNone(e, headers, rest, exact);
        if ColumnIndex(e, headers, rest, exact) == -1 {
          forall k, j | 0 <= k < |keywords| && 0 <= j < |headers|
            ensures !HeaderMatches(e, headers[j], keywords[k], exact) {
            if k > 0 { assert keywords[k] == rest[k - 1]; }
          }
        } else {
          var k, j :| 0 <= k < |rest| && 0 <= j < |headers| && HeaderMatches(e, headers[j], rest[k], exact);
          assert rest[k] == keywords[k + 1];
        }
      } else {
        assert HeaderMatches(e, headers[first], keywords[0], exact);
      }
    }
  }

  /** A found column is the first match of keyword k, and no keyword before
      k matches any header. */
  lemma {:induction false} ColumnIndexFirst(e: Engine, headers: seq<Value>, keywords: seq<string>, exact: bool)
    returns (k: nat)
    requires ColumnIndex(e, headers, keywords, exact) >= 0
    ensures k < |keywords| && ColumnIndex(e, headers, keywords, exact) == FindIndex(e, headers, keywords[k], exact)
    ensures forall k' | 0 <= k' < k :: FindIndex(e, headers, keywords[k'], exact) == -1
    decreases |keywords|
  {
    var rest := keywords[1..];
    if FindIndex(e, headers, keywords[0], exact) == -1 {
      var k0 := ColumnIndexFirst(e, headers, rest, exact);
      k := k0 + 1;
      forall k' | 0 <= k' < k ensures FindIndex(e, headers, keywords[k'], exact) == -1 {
        if k' > 0 { assert keywords[k'] == rest[k' - 1]; }
      }
      assert keywords[k] == rest[k0];
    } else {
      k := 0;
    }
  }

  /** findColumnIndex: try the keywords in order and return at the first hit. */
  method FindColumnIndex(e: Engine, headers: seq<Value>, keywords: seq<string>, exact: bool)
    returns (index: int)
    ensures index == ColumnIndex(e, headers, keywords, exact)
  {
    var k := 0;
    while k < |keywords|
      invariant 0 <= k <= |keywords|
      invariant ColumnIndex(e, headers, keywords, exact) == ColumnIndex(e, headers, keywords[k..], exact)
    {
      var i := FindIndex(e, headers, keywords[k], exact);
      if i != -1 {
        return i;
      }
      assert keywords[k..][1..] == keywords[k + 1..];
      k := k + 1;
    }
    return -1;
  }

  /** The result of validateRequiredColumns. */
  datatype Validation =
    | Invalid(error: string)
    | Valid(tsIndex: int, dateIndex: int, timeIndex: int, latIndex: int, lngIndex: int)

  const RequiredColumnsError: string :=
    "필수 컬럼(시간, 위도, 경도)을 찾을 수 없습니다. [ts_local/timestamp/datetime] 또는 [date/날짜]와 [time/시간] 조합, 그리고 [lat/latitude/위도], [lng/longitude/경도] 중 하나를 포함해야 합니다."

  /** validateRequiredColumns. The bounds of the indices are part of its
      contract; what the indices are is ValidateRequiredColumnsSpec. */
  function ValidateRequiredColumns(e: Engine, headers: seq<Value>): (v: Validation)
    ensures v.Invalid? ==> v.error == RequiredColumnsError
    ensures v.Valid? ==>
      -1 <= v.tsIndex < |headers| && -1 <= v.dateIndex < |headers| && -1 <= v.timeIndex < |headers| &&
      0 <= v.latIndex < |headers| && 0 <= v.lngIndex < |headers| &&
      (v.tsIndex != -1 || (v.dateIndex != -1 && v.timeIndex != -1))
  {
    var tsIndex := ColumnIndex(e, headers, TimestampKeywords, false);
    var dateIndex := ColumnIndex(e, headers, DateKeywords, false);
    var timeIndex := ColumnIndex(e, headers, TimeKeywords, false);
    var latIndex := ColumnIndex(e, headers, LatKeywords, false);
    var lngIndex := ColumnIndex(e, headers, LngKeywords, false);
    var hasTimestamp := tsIndex != -1 || (dateIndex != -1 && timeIndex != -1);
    if !hasTimestamp || latIndex == -1 || lngIndex == -1 then Invalid(RequiredColumnsError)
    else Valid(tsIndex, dateIndex, timeIndex, latIndex, lngIndex)
  }

  /** The headers are valid iff a timestamp column, or both a date and a time
      column, and a latitude and a longitude column are found; the indices
      returned are those findColumnIndex gives for the fixed keyword lists. */
  lemma ValidateRequiredColumnsSpec(e: Engine, headers: seq<Value>)
    ensures ValidateRequiredColumns(e, headers).Valid? <==>
      (ColumnIndex(e, headers, TimestampKeywords, false) != -1 ||
       (ColumnIndex(e, headers, DateKeywords, false) != -1 && ColumnIndex(e, headers, TimeKeywords, false) != -1)) &&
      ColumnIndex(e, headers, LatKeywords, false) != -1 && ColumnIndex(e, headers, LngKeywords, false) != -1
    ensures var v := ValidateRequiredColumns(e, headers);
      v.Valid? ==>
        v.tsIndex == ColumnIndex(e, headers, TimestampKeywords, false) &&
        v.dateIndex == ColumnIndex(e, headers, DateKeywords, false) &&
        v.timeIndex == ColumnIndex(e, headers, TimeKeywords, false) &&
        v.latIndex == ColumnIndex(e, headers, LatKeywords, false) &&
        v.lngIndex == ColumnIndex(e, headers, LngKeywords, false)
  {
  }

  /** A normalised cell of isHeaderRow; a falsy cell becomes the empty string. */
  function LowerCell(e: Engine, cell: Value): string {
    if Truthy(cell) then Normalize(ToStr(e, cell)) else ""
  }

  /** `lowerRow.some(cell => keywords.some(kw => cell.includes(kw)))`. */
  predicate SomeCellHas(e: Engine, row: seq<Value>, keywords: seq<string>) {
    exists j, k | 0 <= j < |row| && 0 <= k < |keywords| :: Contains(LowerCell(e, row[j]), keywords[k])
  }

  /** isHeaderRow of processLoadedData. */
  predicate IsHeaderRow(e: Engine, row: seq<Value>) {
    |row| != 0 &&
    (SomeCellHas(e, row, TimestampKeywords) ||
     (SomeCellHas(e, row, DateKeywords) && SomeCellHas(e, row, TimeKeywords))) &&
    SomeCellHas(e, row, LatKeywords) && SomeCellHas(e, row, LngKeywords)
  }

  lemma CellMatch(e: Engine, cell: Value, keyword: string)
    requires keyword != []
    ensures Contains(LowerCell(e, cell), keyword) <==> HeaderMatches(e, cell, keyword, false)
  {
    if !Truthy(cell) { ContainsEmpty(keyword); }
  }

  /** For non-empty keywords, a cell test of isHeaderRow finds a cell exactly
      when findColumnIndex finds a column. */
  lemma SomeCellHasIff(e: Engine, row: seq<Value>, keywords: seq<string>)
    requires [] !in keywords
    ensures SomeCellHas(e, row, keywords) <==> ColumnIndex(e, row, keywords, false) != -1
  {
    ColumnIndexNone(e, row, keywords, false);
    if SomeCellHas(e, row, keywords) {
      var j, k :| 0 <= j < |row| && 0 <= k < |keywords| && Contains(LowerCell(e, row[j]), keywords[k]);
      CellMatch(e, row[j], keywords[k]);
    }
    if ColumnIndex(e, row, keywords, false) != -1 {
      var k, j :| 0 <= k < |keywords| && 0 <= j < |row| && HeaderMatches(e, row[j], keywords[k], false);
      CellMatch(e, row[j], keywords[k]);
    }
  }

  /** The row test that splits a CSV into sheets and the column check applied
      to each sheet's header agree: a row is a header row exactly when it would
      pass validateRequiredColumns. */
  lemma IsHeaderRowIffValid(e: Engine, row: seq<Value>)
    ensures IsHeaderRow(e, row) <==> ValidateRequiredColumns(e, row).Valid?
  {
    SomeCellHasIff(e, row, TimestampKeywords);
    SomeCellHasIff(e, row, DateKeywords);
    SomeCellHasIff(e, row, TimeKeywords);
    SomeCellHasIff(e, row, LatKeywords);
    SomeCellHasIff(e, row, LngKeywords);
    ValidateRequiredColumnsSpec(e, row);
  }

  /** `headers.findIndex(h => h && h.toString() === name)`: the exact lookup
      used for grouping columns. */
  function ExactColumn(e: Engine, headers: seq<Value>, name: string): (i: int)
    ensures -1 <= i < |headers|
  {
    FindFirst(headers, NameMatcher(e, name))
  }

  /** The callback `h => h && h.toString() === name` as a value. */
  function NameMatcher(e: Engine, name: string): Value -> bool {
    (h: Value) => Truthy(h) && ToStr(e, h) == name
  }

  /** The exact lookup finds the first truthy header that prints as name, and
      -1 when there is none. */
  lemma ExactColumnSpec(e: Engine, headers: seq<Value>, name: string)
    ensures var i := ExactColumn(e, headers, name);
      (i >= 0 ==> Truthy(headers[i]) && ToStr(e, headers[i]) == name) &&
      forall j | 0 <= j < |headers| && (i == -1 || j < i) :: !(Truthy(headers[j]) && ToStr(e, headers[j]) == name)
  {
    var p := NameMatcher(e, name);
    FindFirstSpec(headers, p);
    forall j | 0 <= j < |headers| ensures p(headers[j]) == (Truthy(headers[j]) && ToStr(e, headers[j]) == name) {
    }
  }
}
