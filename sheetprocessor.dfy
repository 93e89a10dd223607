/** processSheetData and convertLocationData (data-processor.js) and
    sortLocationsByTime (group-controller.js, ui-controller.js): rows of a sheet
    become location records, unusable ones are dropped, and the rest are put
    in time order. */
module SheetProcessor {

  import opened JsValues
  import opened JsText
  import opened Seqs
  import opened StableSort
  import opened Calendar
  import opened Temporal
  import opened Columns

  /** A location record. `lat`/`lng` are None when parseFloat gave NaN;
      `sheetName` is None for records built by convertLocationData. */
  datatype Location = Location(
    timestamp: Value,
    date: Value,
    time: Value,
    lat: Option<real>,
    lng: Option<real>,
    rawData: seq<Value>,
    convertedData: seq<Value>,
    headers: seq<Value>,
    rowIndex: int,
    sheetName: Option<string>)

  /** A date (or time) cell after the `typeof x === 'number'` conversion:
      a number becomes the KST date (or clock) text of that serial, anything
      else stays. None is the RangeError thrown for an unrepresentable date. */
  function KstPart(e: Engine, v: Value, datePart: bool): (r: Option<Value>)
    ensures r.Some? && !v.Num? ==> r.value == v
    ensures r.Some? && v.Num? ==> r.value.Text? && |r.value.s| == (if datePart then 10 else 8)
    ensures r.None? ==> v.Num? && SerialToKst(e, v.n).None?
    ensures v.Num? ==> (r.Some? <==> SerialToKst(e, v.n).Some?)
    ensures v.Num? && r.Some? ==>
      r.value == Text(if datePart then SerialToKst(e, v.n).value.date else SerialToKst(e, v.n).value.time)
  {
    match v
    case Num(n) =>
      (match SerialToKst(e, n)
       case None => None
       case Some(k) => Some(Text(if datePart then k.date else k.time)))
    case _ => Some(v)
  }

  /** On a host in Korea Standard Time a numeric date cell becomes the
      `YYYY-MM-DD` text of the serial's own day, and a numeric time cell the
      `HH:MM:SS` text of its seconds of the day (years 100..9999, clock below
      24:00:00). */
  lemma KstPartOfSerial(e: Engine, n: real)
    requires e.zoneOffsetMs == KstOffsetMs
    requires TotalSeconds(n) < 86400
    requires 100 <= CivilFromDays(SerialDays(n)).year <= 9999
    ensures var date := CivilFromDays(SerialDays(n));
      var c := SplitSeconds(TotalSeconds(n));
      KstPart(e, Num(n), true) == Some(Text(DateText(date))) &&
      KstPart(e, Num(n), false) == Some(Text(ClockText(Fields(date, c.hours, c.minutes, c.seconds, 0))))
  {
    SerialToKstText(e, n);
  }

  /** What the header loop does to one cell: `Some(None)` leaves it,
      `Some(Some(v))` writes v, and None is the TypeError of calling
      toLowerCase on a numeric header or the RangeError of the conversion. */
  function DateCellRewrite(e: Engine, header: Value, cell: Value): (r: Option<Option<Value>>)
    ensures !Truthy(header) ==> r == Some(None)
  {
    match header
    case Undefined => Some(None)
    case Num(n) => if n == 0.0 then Some(None) else None
    case Text(s) =>
      if s == [] || !Contains(Lower(s), "date") then Some(None)
      else
        match ToNumber(e, cell)
        case None => Some(None)
        case Some(n) =>
          if n > 40000.0 then
            (match SerialToKst(e, n)
             case None => None
             case Some(k) => Some(Some(Text(k.date))))
          else Some(None)
  }

  /** A cell is rewritten only under a "date" header holding a number above
      40000, and then to a 10-character date; the rewrite throws only for a
      truthy numeric header or a serial whose conversion throws. */
  lemma DateCellRewriteSpec(e: Engine, header: Value, cell: Value)
    ensures var r := DateCellRewrite(e, header, cell);
      r.Some? && r.value.Some? ==>
        header.Text? && Contains(Lower(header.s), "date") &&
        ToNumber(e, cell).Some? && ToNumber(e, cell).value > 40000.0 &&
        r.value.value.Text? && |r.value.value.s| == 10
    ensures var r := DateCellRewrite(e, header, cell);
      r.None? ==>
        Truthy(header) &&
        (header.Num? || (header.Text? && ToNumber(e, cell).Some? && SerialToKst(e, ToNumber(e, cell).value).None?))
  {
  }

  /** What the header loop does to one cell, given its header and the cell. */
  type CellRewrite = (Value, Value) -> Option<Option<Value>>

  /** The rewrite processSheetData applies. */
  function DateRewrite(e: Engine): CellRewrite {
    (header: Value, cell: Value) => DateCellRewrite(e, header, cell)
  }

  /** The copy of row after the header loop, with rewrite rw, has visited
      headers[..k]. */
  function RewritePrefix(rw: CellRewrite, headers: seq<Value>, row: seq<Value>, k: nat): (r: Option<seq<Value>>)
    requires k <= |headers|
    ensures r.Some? ==> |r.value| == |row|
  {
    if k == 0 then Some(row)
    else ApplyRewrite(RewritePrefix(rw, headers, row, k - 1), k - 1, rw(headers[k - 1], Lookup(row, k - 1)))
  }

  /** One step of the header loop on the copy built so far. A header past the
      end of the row reads an undefined cell, which DateCellRewrite never
      rewrites, so the copy never grows. */
  function ApplyRewrite(acc: Option<seq<Value>>, idx: nat, change: Option<Option<Value>>): (r: Option<seq<Value>>)
    ensures r.Some? ==> acc.Some? && |r.value| == |acc.value|
  {
    match acc
    case None => None
    case Some(a) =>
      match change
      case None => None
      case Some(None) => Some(a)
      case Some(Some(v)) => if idx < |a| then Some(a[idx := v]) else Some(a)
  }

  /** The header loop of processSheetData: copy the row, then overwrite each
      cell under a "date" header that holds a serial above 40000 by its KST
      date. */
  method RewriteDateCells(e: Engine, headers: seq<Value>, row: seq<Value>) returns (r: Option<seq<Value>>)
    ensures r == RewritePrefix(DateRewrite(e), headers, row, |headers|)
  {
    var rw := DateRewrite(e);
    var converted := row;
    var idx := 0;
    while idx < |headers|
      invariant 0 <= idx <= |headers|
      invariant RewritePrefix(rw, headers, row, idx) == Some(converted)
    {
      var change := rw(headers[idx], Lookup(row, idx));
      assert RewritePrefix(rw, headers, row, idx + 1) == ApplyRewrite(Some(converted), idx, change);
      match change {
        case None =>
          RewritePrefixStuck(rw, headers, row, idx + 1, |headers|);
          return None;
        case Some(None) =>
        case Some(Some(v)) =>
          if idx < |converted| {
            converted := converted[idx := v];
          }
      }
      idx := idx + 1;
    }
    return Some(converted);
  }

  /** Once a header's rewrite has thrown, the loop's outcome stays an exception. */
  lemma {:induction false} RewritePrefixStuck(rw: CellRewrite, headers: seq<Value>, row: seq<Value>, k: nat, m: nat)
    requires k <= m <= |headers|
    requires RewritePrefix(rw, headers, row, k).None?
    ensures RewritePrefix(rw, headers, row, m).None?
    decreases m
  {
    if m > k {
      RewritePrefixStuck(rw, headers, row, k, m - 1);
    }
  }

  /** The header loop throws exactly when some header's rewrite throws. */
  lemma {:induction false} RewritePrefixFails(rw: CellRewrite, headers: seq<Value>, row: seq<Value>, k: nat)
    requires k <= |headers|
    ensures RewritePrefix(rw, headers, row, k).None? <==>
      exists j | 0 <= j < k :: rw(headers[j], Lookup(row, j)).None?
  {
    if k > 0 {
      RewritePrefixFails(rw, headers, row, k - 1);
      var prev := RewritePrefix(rw, headers, row, k - 1);
      var change := rw(headers[k - 1], Lookup(row, k - 1));
      assert RewritePrefix(rw, headers, row, k) == ApplyRewrite(prev, k - 1, change);
      if prev.None? {
        var j :| 0 <= j < k - 1 && rw(headers[j], Lookup(row, j)).None?;
        assert 0 <= j < k;
      } else if change.None? {
        assert 0 <= k - 1 < k;
      } else {
        assert RewritePrefix(rw, headers, row, k).Some?;
      }
    }
  }

  /** Cell j of the copy after the loop has visited headers[..k]: the rewrite
      of its own header when there is one, otherwise the raw cell. */
  function CellAfter(rw: CellRewrite, headers: seq<Value>, row: seq<Value>, k: nat, j: nat): Value
    requires k <= |headers| && j < |row|
  {
    if j < k && rw(headers[j], row[j]).Some? && rw(headers[j], row[j]).value.Some?
    then rw(headers[j], row[j]).value.value
    else row[j]
  }

  /** When the header loop completes, every cell is either untouched or
      rewritten by its own header. */
  lemma {:induction false} RewritePrefixCells(rw: CellRewrite, headers: seq<Value>, row: seq<Value>, k: nat)
    requires k <= |headers|
    requires RewritePrefix(rw, headers, row, k).Some?
    ensures forall j | 0 <= j < |row| :: RewritePrefix(rw, headers, row, k).value[j] == CellAfter(rw, headers, row, k, j)
  {
    if k > 0 {
      var prev := RewritePrefix(rw, headers, row, k - 1);
      var change := rw(headers[k - 1], Lookup(row, k - 1));
      assert RewritePrefix(rw, headers, row, k) == ApplyRewrite(prev, k - 1, change);
      assert prev.Some? && change.Some?;
      RewritePrefixCells(rw, headers, row, k - 1);
      var now := RewritePrefix(rw, headers, row, k).value;
      forall j | 0 <= j < |row| ensures now[j] == CellAfter(rw, headers, row, k, j) {
        if j == k - 1 {
          assert Lookup(row, j) == row[j];
        } else {
          assert now[j] == prev.value[j] == CellAfter(rw, headers, row, k - 1, j);
        }
      }
    }
  }

  /** `a[i] = v` on a JavaScript array: a negative index sets a named property
      that no element read sees, and an index past the end grows the array,
      leaving holes that read as undefined. */
  function ArraySet(a: seq<Value>, i: int, v: Value): (r: seq<Value>)
    ensures i < 0 ==> r == a
    ensures i >= 0 ==> |r| == (if i < |a| then |a| else i + 1) && r[i] == v
    ensures i >= 0 ==> forall j | 0 <= j < |r| && j != i :: r[j] == Lookup(a, j)
  {
    if i < 0 then a
    else if i < |a| then a[i := v]
    else a + seq(i - |a|, _ => Undefined) + [v]
  }

  function Max(a: int, b: int): int {
    if a < b then b else a
  }

  /** convertLocationData: one record from one data row, without the
      date/time write-back and without a sheet name. */
  function ConvertLocationData(e: Engine, row: seq<Value>, headers: seq<Value>, cols: Validation, index: nat)
    : (r: Option<Location>)
    requires cols.Valid?
    ensures r.Some? ==>
      r.value.rawData == row && r.value.headers == headers && r.value.rowIndex == index + 2 &&
      r.value.sheetName.None? && |r.value.convertedData| == |row| &&
      r.value.lat == ParseFloat(e, Lookup(row, cols.latIndex)) &&
      r.value.lng == ParseFloat(e, Lookup(row, cols.lngIndex))
    ensures r.Some? && cols.tsIndex != -1 ==> r.value.timestamp == Lookup(row, cols.tsIndex)
    ensures r.Some? && cols.tsIndex == -1 ==>
      r.value.timestamp == Text(ToStr(e, r.value.date) + " " + ToStr(e, r.value.time))
    ensures r.Some? ==>
      Some(r.value.date) == KstPart(e, Lookup(row, cols.dateIndex), true) &&
      Some(r.value.time) == KstPart(e, Lookup(row, cols.timeIndex), false) &&
      Some(r.value.convertedData) == RewritePrefix(DateRewrite(e), headers, row, |headers|)
    ensures r.None? <==>
      KstPart(e, Lookup(row, cols.dateIndex), true).None? ||
      KstPart(e, Lookup(row, cols.timeIndex), false).None? ||
      RewritePrefix(DateRewrite(e), headers, row, |headers|).None?
  {
    var date :- KstPart(e, Lookup(row, cols.dateIndex), true);
    var time :- KstPart(e, Lookup(row, cols.timeIndex), false);
    var timestamp := if cols.tsIndex != -1 then Lookup(row, cols.tsIndex)
                     else Text(ToStr(e, date) + " " + ToStr(e, time));
    var converted :- RewritePrefix(DateRewrite(e), headers, row, |headers|);
    Some(Location(timestamp, date, time,
                  ParseFloat(e, Lookup(row, cols.latIndex)), ParseFloat(e, Lookup(row, cols.lngIndex)),
                  row, converted, headers, index + 2, None))
  }

  /** On a host in Korea Standard Time a record built from numeric date and
      time cells holds the date text of the date cell's serial and the clock
      text of the time cell's serial. */
  lemma RecordKstTexts(e: Engine, row: seq<Value>, headers: seq<Value>, cols: Validation, index: nat,
                       dateSerial: real, timeSerial: real)
    requires cols.Valid? && ConvertLocationData(e, row, headers, cols, index).Some?
    requires e.zoneOffsetMs == KstOffsetMs
    requires Lookup(row, cols.dateIndex) == Num(dateSerial) && Lookup(row, cols.timeIndex) == Num(timeSerial)
    requires TotalSeconds(dateSerial) < 86400 && 100 <= CivilFromDays(SerialDays(dateSerial)).year <= 9999
    requires TotalSeconds(timeSerial) < 86400 && 100 <= CivilFromDays(SerialDays(timeSerial)).year <= 9999
    ensures var l := ConvertLocationData(e, row, headers, cols, index).value;
      var c := SplitSeconds(TotalSeconds(timeSerial));
      l.date == Text(DateText(CivilFromDays(SerialDays(dateSerial)))) &&
      l.time == Text(ClockText(Fields(CivilFromDays(SerialDays(timeSerial)), c.hours, c.minutes, c.seconds, 0)))
  {
    KstPartOfSerial(e, dateSerial);
    KstPartOfSerial(e, timeSerial);
  }

  /** The map callback of processSheetData: convertLocationData, then the
      converted date and time written back at their columns, and the sheet
      name attached. */
  function ConvertRow(e: Engine, headers: seq<Value>, row: seq<Value>, cols: Validation, index: nat, sheetName: string)
    : (r: Option<Location>)
    requires cols.Valid?
    ensures r.Some? <==> ConvertLocationData(e, row, headers, cols, index).Some?
    ensures r.Some? ==>
      r.value.rawData == row && r.value.rowIndex == index + 2 && r.value.sheetName == Some(sheetName) &&
      |r.value.convertedData| == Max(|row|, Max(cols.dateIndex + 1, cols.timeIndex + 1))
  {
    var l :- ConvertLocationData(e, row, headers, cols, index);
    Some(l.(convertedData := ArraySet(ArraySet(l.convertedData, cols.dateIndex, l.date), cols.timeIndex, l.time),
            sheetName := Some(sheetName)))
  }

  /** The map callback of processSheetData, applied to a data row and its
      position among the data rows. */
  type RowConverter = (seq<Value>, nat) -> Option<Location>

  function SheetConverter(e: Engine, headers: seq<Value>, cols: Validation, sheetName: string): RowConverter
    requires cols.Valid?
  {
    (row: seq<Value>, index: nat) => ConvertRow(e, headers, row, cols, index, sheetName)
  }

  /** `rows.map(callback)`; None when some row throws. */
  function MapRows(convert: RowConverter, rows: seq<seq<Value>>): (r: Option<seq<Location>>)
    ensures r.Some? ==> |r.value| == |rows|
    decreases |rows|
  {
    if rows == [] then Some([])
    else
      var prefix :- MapRows(convert, rows[..|rows| - 1]);
      var last :- convert(rows[|rows| - 1], |rows| - 1);
      Some(prefix + [last])
  }

  /** Record i is the callback's result on row i, and the map throws exactly
      when the callback throws on some row. */
  lemma {:induction false} MapRowsSpec(convert: RowConverter, rows: seq<seq<Value>>)
    ensures var r := MapRows(convert, rows);
      r.Some? ==> forall i | 0 <= i < |rows| :: convert(rows[i], i) == Some(r.value[i])
    ensures MapRows(convert, rows).None? <==> exists i | 0 <= i < |rows| :: convert(rows[i], i).None?
    decreases |rows|
  {
    if rows != [] {
      var init := rows[..|rows| - 1];
      MapRowsSpec(convert, init);
      assert forall i | 0 <= i < |init| :: rows[i] == init[i];
      if MapRows(convert, init).None? {
        var i :| 0 <= i < |init| && convert(init[i], i).None?;
        assert convert(rows[i], i).None?;
      }
    }
  }

  lemma MapRowsAtIndex(convert: RowConverter, rows: seq<seq<Value>>, k: nat)
    requires MapRows(convert, rows).Some? && k < |rows|
    ensures convert(rows[k], k) == Some(MapRows(convert, rows).value[k])
  {
    MapRowsSpec(convert, rows);
  }

  /** The filter of processSheetData. */
  predicate Usable(l: Location) {
    l.lat.Some? && l.lng.Some? && Truthy(l.timestamp)
  }

  /** `new Date(a) - new Date(b)`; a NaN result counts as 0 for the sort. */
  function TimeDiff(e: Engine, a: Value, b: Value): int {
    match (DateValue(e, a), DateValue(e, b))
    case (Some(x), Some(y)) => x - y
    case _ => 0
  }

  /** Dates compared as Date objects (a comparison with NaN is false), then
      times as strings. */
  function DateThenTime(e: Engine, a: Location, b: Location): int {
    var da := DateValue(e, a.date);
    var db := DateValue(e, b.date);
    if da.Some? && db.Some? && da.value > db.value then 1
    else if da.Some? && db.Some? && da.value < db.value then -1
    else StrCompare(ToStr(e, a.time), ToStr(e, b.time))
  }

  /** The comparator of processSheetData. */
  function SheetOrder(e: Engine, byTimestamp: bool): (Location, Location) -> int {
    (a: Location, b: Location) => if byTimestamp then TimeDiff(e, a.timestamp, b.timestamp) else DateThenTime(e, a, b)
  }

  /** The comparator of sortLocationsByTime. */
  function TimeOrder(e: Engine): (Location, Location) -> int {
    (a: Location, b: Location) =>
      if Truthy(a.timestamp) && Truthy(b.timestamp) then TimeDiff(e, a.timestamp, b.timestamp)
      else DateThenTime(e, a, b)
  }

  /** The data rows of a sheet: everything after the header row. */
  function DataRows(sheet: seq<seq<Value>>): seq<seq<Value>> {
    if sheet == [] then [] else sheet[1..]
  }

  function HeaderRow(sheet: seq<seq<Value>>): seq<Value> {
    if sheet == [] then [] else sheet[0]
  }

  /** processSheetData: map, filter, sort. None is an exception thrown while
      converting some row. */
  function ProcessSheetData(e: Engine, sheet: seq<seq<Value>>, cols: Validation, sheetName: string)
    : (r: Option<seq<Location>>)
    requires cols.Valid?
    ensures r.Some? ==> |r.value| <= |DataRows(sheet)|
  {
    match MapRows(SheetConverter(e, HeaderRow(sheet), cols, sheetName), DataRows(sheet))
    case None => None
    case Some(records) =>
      var kept := Filter(records, Usable);
      var sorted := SortBy(kept, SheetOrder(e, cols.tsIndex != -1));
      assert |sorted| == |multiset(sorted)| == |multiset(kept)| == |kept|;
      Some(sorted)
  }

  /** sortLocationsByTime: a sorted copy; the input array is not touched. */
  function SortLocationsByTime(e: Engine, locations: seq<Location>): (r: seq<Location>)
    ensures multiset(r) == multiset(locations)
  {
    SortBy(locations, TimeOrder(e))
  }

  // ------------------------------------------------------------ properties

  /** In date+time mode the timestamp is `"${date} ${time}"`, never empty, so
      only the coordinates can make the filter drop a record. */
  lemma DateTimeModeKeepsTimestamp(e: Engine, row: seq<Value>, headers: seq<Value>, cols: Validation, index: nat,
                                   sheetName: string)
    requires cols.Valid? && cols.tsIndex == -1
    requires ConvertRow(e, headers, row, cols, index, sheetName).Some?
    ensures Truthy(ConvertRow(e, headers, row, cols, index, sheetName).value.timestamp)
    ensures var l := ConvertRow(e, headers, row, cols, index, sheetName).value;
            Usable(l) <==> l.lat.Some? && l.lng.Some?
  {
    var l0 := ConvertLocationData(e, row, headers, cols, index).value;
    assert |ToStr(e, l0.date) + " " + ToStr(e, l0.time)| > 0;
  }

  /** Cell j of the header loop's copy: it differs from the raw cell only under
      a header containing "date" (ASCII case-insensitive) where the cell is a
      number above 40000, and every such cell holds that serial's KST date. */
  predicate RewrittenAt(e: Engine, headers: seq<Value>, row: seq<Value>, cells: seq<Value>, j: nat)
    requires j < |row| && j < |cells|
  {
    var underDate := j < |headers| && headers[j].Text? && Contains(Lower(headers[j].s), "date") &&
                     ToNumber(e, row[j]).Some? && ToNumber(e, row[j]).value > 40000.0;
    (cells[j] != row[j] ==> underDate) &&
    (underDate ==>
       SerialToKst(e, ToNumber(e, row[j]).value).Some? &&
       cells[j] == Text(SerialToKst(e, ToNumber(e, row[j]).value).value.date))
  }

  /** The header loop's copy, cell by cell. */
  lemma RewrittenCells(e: Engine, headers: seq<Value>, row: seq<Value>)
    requires RewritePrefix(DateRewrite(e), headers, row, |headers|).Some?
    ensures forall j | 0 <= j < |row| ::
      RewrittenAt(e, headers, row, RewritePrefix(DateRewrite(e), headers, row, |headers|).value, j)
  {
    forall j | 0 <= j < |row|
      ensures RewrittenAt(e, headers, row, RewritePrefix(DateRewrite(e), headers, row, |headers|).value, j)
    {
      RewrittenCell(e, headers, row, j);
    }
  }

  lemma RewrittenCell(e: Engine, headers: seq<Value>, row: seq<Value>, j: nat)
    requires RewritePrefix(DateRewrite(e), headers, row, |headers|).Some?
    requires j < |row|
    ensures RewrittenAt(e, headers, row, RewritePrefix(DateRewrite(e), headers, row, |headers|).value, j)
  {
    var rw := DateRewrite(e);
    var cells := RewritePrefix(rw, headers, row, |headers|).value;
    RewritePrefixCells(rw, headers, row, |headers|);
    assert cells[j] == CellAfter(rw, headers, row, |headers|, j);
    if j < |headers| {
      RewritePrefixFails(rw, headers, row, |headers|);
      assert Lookup(row, j) == row[j];
      assert rw(headers[j], row[j]) == DateCellRewrite(e, headers[j], row[j]);
      assert DateCellRewrite(e, headers[j], row[j]).Some?;
      RewrittenValue(e, headers[j], row[j], cells[j]);
    }
  }

  /** One cell the header loop did not throw on: the value it leaves differs
      from the cell only under a "date" header over a number above 40000, and
      is then that serial's KST date. */
  lemma RewrittenValue(e: Engine, header: Value, cell: Value, out: Value)
    requires DateCellRewrite(e, header, cell).Some?
    requires out == if DateCellRewrite(e, header, cell).value.Some? then DateCellRewrite(e, header, cell).value.value else cell
    ensures var underDate := header.Text? && Contains(Lower(header.s), "date") &&
                             ToNumber(e, cell).Some? && ToNumber(e, cell).value > 40000.0;
      (out != cell ==> underDate) &&
      (underDate ==> SerialToKst(e, ToNumber(e, cell).value).Some? &&
                     out == Text(SerialToKst(e, ToNumber(e, cell).value).value.date))
  {
    if header.Text? && header.s == [] {
      assert Lower(header.s) == [];
      assert !Contains(Lower(header.s), "date");
    }
  }

  /** processSheetData's write-back touches only the date and time columns,
      which then hold the converted date and time. */
  lemma WriteBackCells(e: Engine, row: seq<Value>, headers: seq<Value>, cols: Validation, index: nat,
                       sheetName: string)
    requires cols.Valid?
    requires ConvertRow(e, headers, row, cols, index, sheetName).Some?
    ensures var l := ConvertRow(e, headers, row, cols, index, sheetName).value;
            var l0 := ConvertLocationData(e, row, headers, cols, index).value;
      (forall j | 0 <= j < |row| && j != cols.dateIndex && j != cols.timeIndex ::
         l.convertedData[j] == l0.convertedData[j]) &&
      (cols.timeIndex >= 0 ==> l.convertedData[cols.timeIndex] == l.time) &&
      (cols.dateIndex >= 0 && cols.dateIndex != cols.timeIndex ==> l.convertedData[cols.dateIndex] == l.date)
  {
    var l0 := ConvertLocationData(e, row, headers, cols, index).value;
    var l := ConvertRow(e, headers, row, cols, index, sheetName).value;
    var once := ArraySet(l0.convertedData, cols.dateIndex, l0.date);
    assert l.convertedData == ArraySet(once, cols.timeIndex, l0.time);
    forall j | 0 <= j < |row| && j != cols.dateIndex && j != cols.timeIndex
      ensures l.convertedData[j] == l0.convertedData[j]
    {
      assert Lookup(once, j) == once[j];
    }
  }

  /** A cell of a record's convertedData differs from the raw cell only at the
      date or time column, or under a "date" header where the raw cell is a
      number above 40000 and now holds that serial's KST date. */
  lemma ConvertedDataCells(e: Engine, row: seq<Value>, headers: seq<Value>, cols: Validation, index: nat,
                           sheetName: string)
    requires cols.Valid?
    requires ConvertRow(e, headers, row, cols, index, sheetName).Some?
    ensures var l := ConvertRow(e, headers, row, cols, index, sheetName).value;
      forall j | 0 <= j < |row| && j != cols.dateIndex && j != cols.timeIndex && l.convertedData[j] != row[j] ::
        j < |headers| && headers[j].Text? && Contains(Lower(headers[j].s), "date") &&
        ToNumber(e, row[j]).Some? && ToNumber(e, row[j]).value > 40000.0 &&
        SerialToKst(e, ToNumber(e, row[j]).value).Some? &&
        l.convertedData[j] == Text(SerialToKst(e, ToNumber(e, row[j]).value).value.date)
  {
    var l := ConvertRow(e, headers, row, cols, index, sheetName).value;
    var l0 := ConvertLocationData(e, row, headers, cols, index).value;
    assert RewritePrefix(DateRewrite(e), headers, row, |headers|) == Some(l0.convertedData);
    WriteBackCells(e, row, headers, cols, index, sheetName);
    forall j | 0 <= j < |row| && j != cols.dateIndex && j != cols.timeIndex && l.convertedData[j] != row[j]
      ensures RewrittenAt(e, headers, row, l0.convertedData, j)
    {
      RewrittenCell(e, headers, row, j);
    }
  }

  /** Every record processSheetData returns passed the filter and comes from
      the data row it names: the header row never yields a record, and
      `rowIndex` is the row's position in the sheet plus one. */
  lemma ProcessSheetDataRecords(e: Engine, sheet: seq<seq<Value>>, cols: Validation, sheetName: string)
    requires cols.Valid?
    requires ProcessSheetData(e, sheet, cols, sheetName).Some?
    ensures var r := ProcessSheetData(e, sheet, cols, sheetName).value;
      forall l | l in r ::
        Usable(l) && 2 <= l.rowIndex <= |sheet| && l.rawData == sheet[l.rowIndex - 1] &&
        l.sheetName == Some(sheetName) &&
        ConvertRow(e, HeaderRow(sheet), DataRows(sheet)[l.rowIndex - 2], cols, l.rowIndex - 2, sheetName) == Some(l)
  {
    forall l | l in ProcessSheetData(e, sheet, cols, sheetName).value
      ensures Usable(l) && 2 <= l.rowIndex <= |sheet| && l.rawData == sheet[l.rowIndex - 1] &&
              l.sheetName == Some(sheetName) &&
              ConvertRow(e, HeaderRow(sheet), DataRows(sheet)[l.rowIndex - 2], cols, l.rowIndex - 2, sheetName) == Some(l)
    {
      ProcessedRecord(e, sheet, cols, sheetName, l);
    }
  }

  /** The facts of ProcessSheetDataRecords about one returned record. */
  lemma ProcessedRecord(e: Engine, sheet: seq<seq<Value>>, cols: Validation, name: string, l: Location)
    requires cols.Valid? && ProcessSheetData(e, sheet, cols, name).Some?
    requires l in ProcessSheetData(e, sheet, cols, name).value
    ensures Usable(l) && l.sheetName == Some(name) && 2 <= l.rowIndex <= |sheet| && l.rawData == sheet[l.rowIndex - 1]
    ensures ConvertRow(e, HeaderRow(sheet), DataRows(sheet)[l.rowIndex - 2], cols, l.rowIndex - 2, name) == Some(l)
  {
    var records := MapRows(SheetConverter(e, HeaderRow(sheet), cols, name), DataRows(sheet)).value;
    assert multiset(ProcessSheetData(e, sheet, cols, name).value) == multiset(Filter(records, Usable));
    var i := KeptMember(records, ProcessSheetData(e, sheet, cols, name).value, l);
    MapRowsAt(e, sheet, cols, name, i);
    var row := DataRows(sheet)[i];
    assert ConvertRow(e, HeaderRow(sheet), row, cols, i, name) == Some(l);
    assert l.rawData == row && l.rowIndex == i + 2;
    assert row == sheet[i + 1];
  }

  /** The row facts of ProcessedRecord alone, without the conversion. */
  lemma ProcessedRow(e: Engine, sheet: seq<seq<Value>>, cols: Validation, name: string, l: Location)
    requires cols.Valid? && ProcessSheetData(e, sheet, cols, name).Some?
    requires l in ProcessSheetData(e, sheet, cols, name).value
    ensures Usable(l) && l.sheetName == Some(name) && 2 <= l.rowIndex <= |sheet| && l.rawData == sheet[l.rowIndex - 1]
  {
    ProcessedRecord(e, sheet, cols, name, l);
  }

  /** A returned record is a usable record of some data row. */
  lemma KeptMember(records: seq<Location>, r: seq<Location>, l: Location) returns (i: nat)
    requires multiset(r) == multiset(Filter(records, Usable)) && l in r
    ensures i < |records| && records[i] == l && Usable(l)
  {
    assert l in multiset(r);
    assert l in Filter(records, Usable);
    FilterMembers(records, Usable);
    i :| 0 <= i < |records| && records[i] == l;
  }

  /** Every usable record of a data row is returned, exactly once, and no
      conversion threw for any data row (data row k is row k + 1 of the sheet). */
  lemma ProcessSheetDataComplete(e: Engine, sheet: seq<seq<Value>>, cols: Validation, sheetName: string)
    requires cols.Valid?
    requires ProcessSheetData(e, sheet, cols, sheetName).Some?
    ensures var r := ProcessSheetData(e, sheet, cols, sheetName).value;
      forall k | 0 <= k < |DataRows(sheet)| ::
        var l := ConvertRow(e, HeaderRow(sheet), DataRows(sheet)[k], cols, k, sheetName);
        l.Some? && (Usable(l.value) <==> l.value in r) &&
        (Usable(l.value) ==> multiset(r)[l.value] == 1)
  {
    var records := MapRows(SheetConverter(e, HeaderRow(sheet), cols, sheetName), DataRows(sheet)).value;
    var r := ProcessSheetData(e, sheet, cols, sheetName).value;
    assert multiset(r) == multiset(Filter(records, Usable));
    MapRowsRowIndex(e, sheet, cols, sheetName);
    forall k | 0 <= k < |DataRows(sheet)|
      ensures var l := ConvertRow(e, HeaderRow(sheet), DataRows(sheet)[k], cols, k, sheetName);
        l.Some? && (Usable(l.value) <==> l.value in r) &&
        (Usable(l.value) ==> multiset(r)[l.value] == 1)
    {
      MapRowsAt(e, sheet, cols, sheetName, k);
      KeptOnce(records, r, k);
    }
  }

  /** The records of the data rows are numbered from 2. */
  lemma MapRowsRowIndex(e: Engine, sheet: seq<seq<Value>>, cols: Validation, sheetName: string)
    requires cols.Valid? && MapRows(SheetConverter(e, HeaderRow(sheet), cols, sheetName), DataRows(sheet)).Some?
    ensures var records := MapRows(SheetConverter(e, HeaderRow(sheet), cols, sheetName), DataRows(sheet)).value;
      forall k | 0 <= k < |records| :: records[k].rowIndex == k + 2
  {
    var convert := SheetConverter(e, HeaderRow(sheet), cols, sheetName);
    var records := MapRows(convert, DataRows(sheet)).value;
    forall k | 0 <= k < |records| ensures records[k].rowIndex == k + 2 {
      MapRowsAtIndex(convert, DataRows(sheet), k);
      ConverterApplies(e, HeaderRow(sheet), cols, sheetName, DataRows(sheet)[k], k);
    }
  }

  /** Data row k yields record k. */
  lemma MapRowsAt(e: Engine, sheet: seq<seq<Value>>, cols: Validation, sheetName: string, k: nat)
    requires cols.Valid? && MapRows(SheetConverter(e, HeaderRow(sheet), cols, sheetName), DataRows(sheet)).Some?
    requires k < |DataRows(sheet)|
    ensures ConvertRow(e, HeaderRow(sheet), DataRows(sheet)[k], cols, k, sheetName) ==
            Some(MapRows(SheetConverter(e, HeaderRow(sheet), cols, sheetName), DataRows(sheet)).value[k])
  {
    MapRowsAtIndex(SheetConverter(e, HeaderRow(sheet), cols, sheetName), DataRows(sheet), k);
    ConverterApplies(e, HeaderRow(sheet), cols, sheetName, DataRows(sheet)[k], k);
  }

  lemma ConverterApplies(e: Engine, headers: seq<Value>, cols: Validation, sheetName: string, row: seq<Value>, index: nat)
    requires cols.Valid?
    ensures SheetConverter(e, headers, cols, sheetName)(row, index) == ConvertRow(e, headers, row, cols, index, sheetName)
  {
  }

  /** A record of a distinct-rowIndex list is kept by the filter, once, exactly
      when it is usable. */
  lemma KeptOnce(records: seq<Location>, r: seq<Location>, j: nat)
    requires j < |records|
    requires forall k | 0 <= k < |records| :: records[k].rowIndex == k + 2
    requires multiset(r) == multiset(Filter(records, Usable))
    ensures Usable(records[j]) <==> records[j] in r
    ensures Usable(records[j]) ==> multiset(r)[records[j]] == 1
  {
    var kept := Filter(records, Usable);
    FilterMembers(records, Usable);
    var l := records[j];
    if Usable(l) {
      assert l in multiset(kept);
      RowIndexUnique(records, kept, j);
    } else {
      assert l !in multiset(kept);
    }
  }

  /** Records carry distinct rowIndex values, so each appears once. */
  lemma RowIndexUnique(records: seq<Location>, kept: seq<Location>, i: nat)
    requires i < |records|
    requires forall k | 0 <= k < |records| :: records[k].rowIndex == k + 2
    requires kept == Filter(records, Usable)
    ensures multiset(kept)[records[i]] <= 1
  {
    RowIndexUniqueFrom(records, Usable, i);
  }

  lemma {:induction false} RowIndexUniqueFrom(records: seq<Location>, p: Location -> bool, i: nat)
    requires i < |records|
    requires forall k | 0 <= k < |records| :: records[k].rowIndex == k + 2 + (records[0].rowIndex - 2)
    ensures multiset(Filter(records, p))[records[i]] <= 1
    decreases |records|
  {
    var rest := records[1..];
    if i == 0 {
      FilterMembers(rest, p);
      assert forall k | 0 <= k < |rest| :: rest[k].rowIndex == records[k + 1].rowIndex;
      assert records[0] !in Filter(rest, p);
      assert multiset(Filter(rest, p))[records[0]] == 0;
    } else {
      if |rest| > 0 {
        RowIndexUniqueFrom(rest, p, i - 1);
      }
      assert rest[i - 1] == records[i];
      assert records[0] != records[i] by {
        assert records[i].rowIndex == records[0].rowIndex + i;
      }
    }
    assert Filter(records, p) == (if p(records[0]) then [records[0]] else []) + Filter(rest, p);
  }

  // --------------------------------------------------------------- ordering

  /** When every timestamp parses, ordering by `new Date(a) - new Date(b)` is a
      consistent total preorder. */
  lemma TimestampOrderIsPreorder(e: Engine, xs: seq<Location>)
    requires forall l | l in xs :: DateValue(e, l.timestamp).Some?
    ensures TotalPreorderOn(SheetOrder(e, true), xs)
  {
    var cmp := SheetOrder(e, true);
    forall a, b | a in xs && b in xs ensures cmp(a, b) <= 0 || cmp(b, a) <= 0 {
      assert cmp(a, b) == DateValue(e, a.timestamp).value - DateValue(e, b.timestamp).value;
      assert cmp(b, a) == DateValue(e, b.timestamp).value - DateValue(e, a.timestamp).value;
    }
    forall a, b, c | a in xs && b in xs && c in xs && cmp(a, b) <= 0 && cmp(b, c) <= 0 ensures cmp(a, c) <= 0 {
      assert cmp(a, b) == DateValue(e, a.timestamp).value - DateValue(e, b.timestamp).value;
      assert cmp(b, c) == DateValue(e, b.timestamp).value - DateValue(e, c.timestamp).value;
      assert cmp(a, c) == DateValue(e, a.timestamp).value - DateValue(e, c.timestamp).value;
    }
  }

  /** A location's date+time sort key, where the date parses: the comparator
      orders by date, then by the time text. */
  lemma DateThenTimeKey(e: Engine, a: Location, b: Location)
    requires DateValue(e, a.date).Some? && DateValue(e, b.date).Some?
    ensures DateThenTime(e, a, b) <= 0 <==>
      DateValue(e, a.date).value < DateValue(e, b.date).value ||
      (DateValue(e, a.date).value == DateValue(e, b.date).value &&
       StrCompare(ToStr(e, a.time), ToStr(e, b.time)) <= 0)
  {
  }

  /** When every date parses, ordering by date and then time text is a
      consistent total preorder. */
  lemma DateOrderIsPreorder(e: Engine, xs: seq<Location>)
    requires forall l | l in xs :: DateValue(e, l.date).Some?
    ensures TotalPreorderOn(SheetOrder(e, false), xs)
  {
    var cmp := SheetOrder(e, false);
    forall a, b | a in xs && b in xs ensures cmp(a, b) <= 0 || cmp(b, a) <= 0 {
      DateThenTimeKey(e, a, b);
      DateThenTimeKey(e, b, a);
      StrCompareAntisymmetric(ToStr(e, a.time), ToStr(e, b.time));
    }
    forall a, b, c | a in xs && b in xs && c in xs && cmp(a, b) <= 0 && cmp(b, c) <= 0 ensures cmp(a, c) <= 0 {
      DateThenTimeKey(e, a, b);
      DateThenTimeKey(e, b, c);
      DateThenTimeKey(e, a, c);
      if DateValue(e, a.date).value == DateValue(e, b.date).value == DateValue(e, c.date).value {
        StrCompareTransitive(ToStr(e, a.time), ToStr(e, b.time), ToStr(e, c.time));
      }
    }
  }

  /** The sort keys processSheetData orders by all parse: timestamps in
      timestamp mode, dates in date+time mode. */
  predicate KeysParse(e: Engine, byTimestamp: bool, xs: seq<Location>) {
    forall l | l in xs :: if byTimestamp then DateValue(e, l.timestamp).Some? else DateValue(e, l.date).Some?
  }

  lemma OrderIsPreorder(e: Engine, byTimestamp: bool, xs: seq<Location>)
    requires KeysParse(e, byTimestamp, xs)
    ensures TotalPreorderOn(SheetOrder(e, byTimestamp), xs)
  {
    if byTimestamp {
      TimestampOrderIsPreorder(e, xs);
    } else {
      DateOrderIsPreorder(e, xs);
    }
  }

  /** The usable records of the sheet, before sorting. */
  function UsableRecords(e: Engine, sheet: seq<seq<Value>>, cols: Validation, sheetName: string): seq<Location>
    requires cols.Valid?
    requires MapRows(SheetConverter(e, HeaderRow(sheet), cols, sheetName), DataRows(sheet)).Some?
  {
    Filter(MapRows(SheetConverter(e, HeaderRow(sheet), cols, sheetName), DataRows(sheet)).value, Usable)
  }

  /** processSheetData's output is in chronological order: by parsed
      timestamp, or by date and then time text. */
  lemma ProcessSheetDataSorted(e: Engine, sheet: seq<seq<Value>>, cols: Validation, sheetName: string)
    requires cols.Valid?
    requires ProcessSheetData(e, sheet, cols, sheetName).Some?
    requires KeysParse(e, cols.tsIndex != -1, UsableRecords(e, sheet, cols, sheetName))
    ensures Sorted(SheetOrder(e, cols.tsIndex != -1), ProcessSheetData(e, sheet, cols, sheetName).value)
  {
    var kept := UsableRecords(e, sheet, cols, sheetName);
    var cmp := SheetOrder(e, cols.tsIndex != -1);
    assert ProcessSheetData(e, sheet, cols, sheetName).value == SortBy(kept, cmp);
    OrderIsPreorder(e, cols.tsIndex != -1, kept);
    SortBySorted(kept, cmp);
  }

  /** Records whose sort keys compare equal keep their row order. */
  lemma ProcessSheetDataStable(e: Engine, sheet: seq<seq<Value>>, cols: Validation, sheetName: string, y: Location)
    requires cols.Valid?
    requires ProcessSheetData(e, sheet, cols, sheetName).Some?
    requires KeysParse(e, cols.tsIndex != -1, UsableRecords(e, sheet, cols, sheetName))
    requires y in UsableRecords(e, sheet, cols, sheetName)
    ensures var same := (z: Location) => Equiv(SheetOrder(e, cols.tsIndex != -1), z, y);
      Filter(ProcessSheetData(e, sheet, cols, sheetName).value, same) ==
        Filter(UsableRecords(e, sheet, cols, sheetName), same)
  {
    var kept := UsableRecords(e, sheet, cols, sheetName);
    var cmp := SheetOrder(e, cols.tsIndex != -1);
    assert ProcessSheetData(e, sheet, cols, sheetName).value == SortBy(kept, cmp);
    OrderIsPreorder(e, cols.tsIndex != -1, kept);
    SortByStable(kept, cmp, y, (z: Location) => Equiv(cmp, z, y));
  }

  /** When every timestamp is truthy and parses, sortLocationsByTime orders by
      parsed timestamp and keeps the input order of equal timestamps. */
  lemma SortLocationsByTimeOrdered(e: Engine, locations: seq<Location>, y: Location)
    requires forall l | l in locations :: Truthy(l.timestamp) && DateValue(e, l.timestamp).Some?
    ensures Sorted(SheetOrder(e, true), SortLocationsByTime(e, locations))
    ensures y in locations ==>
      var same := (z: Location) => Equiv(TimeOrder(e), z, y);
      Filter(SortLocationsByTime(e, locations), same) == Filter(locations, same)
  {
    var cmp := TimeOrder(e);
    TimestampOrderIsPreorder(e, locations);
    assert forall a, b | a in locations && b in locations :: cmp(a, b) == SheetOrder(e, true)(a, b);
    assert TotalPreorderOn(cmp, locations);
    SortBySorted(locations, cmp);
    var r := SortLocationsByTime(e, locations);
    forall i, j | 0 <= i < j < |r| ensures SheetOrder(e, true)(r[i], r[j]) <= 0 {
      assert r[i] in multiset(r) && r[j] in multiset(r);
    }
    if y in locations {
      SortByStable(locations, cmp, y, (z: Location) => Equiv(cmp, z, y));
    }
  }

  /** In timestamp mode, the sortLocationsByTime that processAndDisplayData
      applies to processSheetData's output changes nothing. */
  lemma ResortIsIdentity(e: Engine, sheet: seq<seq<Value>>, cols: Validation, sheetName: string)
    requires cols.Valid? && cols.tsIndex != -1
    requires ProcessSheetData(e, sheet, cols, sheetName).Some?
    requires KeysParse(e, true, UsableRecords(e, sheet, cols, sheetName))
    ensures SortLocationsByTime(e, ProcessSheetData(e, sheet, cols, sheetName).value) ==
            ProcessSheetData(e, sheet, cols, sheetName).value
  {
    var r := ProcessSheetData(e, sheet, cols, sheetName).value;
    ProcessSheetDataSorted(e, sheet, cols, sheetName);
    assert Sorted(SheetOrder(e, true), r);
    forall i, j | 0 <= i < j < |r| ensures TimeOrder(e)(r[i], r[j]) <= 0 {
      ProcessedRow(e, sheet, cols, sheetName, r[i]);
      ProcessedRow(e, sheet, cols, sheetName, r[j]);
      assert SheetOrder(e, true)(r[i], r[j]) <= 0;
    }
    SortByOfSorted(r, TimeOrder(e));
  }
}
