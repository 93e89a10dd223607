# Location tracker map: a verified model of the data pipeline

This project models the browser application `location_tracker_map` in Dafny. The application loads spreadsheet
or CSV rows, turns them into location records, groups them by chosen columns, and draws the selected
groups on a map. The model covers the synchronous logic behind that display:

- header matching and required-column validation (`findColumnIndex`, `validateRequiredColumns`, `isHeaderRow`);
- spreadsheet serial dates (`excelSerialDateToJSDate`, `convertToKST`), over integer day and millisecond counts,
  with the ECMA-262 calendar (`Calendar`) and the `toISOString` format;
- sheet processing (`processSheetData`, `convertLocationData`): map, filter, stable sort;
- group keys (`createGroupKey`), the group hierarchy and default selection of `displayDataAsGroups`,
  `calculateCount`, `buildHierarchicalData` and `createGroupedData`;
- the selection state (selected sheets, selected group keys, grouping columns) as a class `Controller.AppState`,
  with the checkbox handlers, `onGroupColumnChange`, `updateMapDisplay` and `processLoadedData`;
- CSV splitting into sheets at header rows and the union of the column names;
- the small helpers `isEmptyRow`, `getColorForValue`, `calculateTimeDiff`, `darkenColor`, the path colour
  schedule of `createPath` and `createPopupContent`.

JavaScript host built-ins whose algorithms are not part of the code (`parseFloat`, `Number(string)`,
`Date.parse`, number printing, the host's time-zone offset) are fields of an `Engine` value that every
operation takes as a parameter (`JsValues.Engine`). NaN and "Invalid Date" are `None`. A JavaScript exception
(a `TypeError` on a missing header row, `toLowerCase` on a numeric header, the `RangeError` of
`toISOString`) is a `None` outcome, never a precondition. `Array.prototype.sort` is the stable insertion
sort `StableSort.SortBy`. Its result is proved sorted and stable whenever the comparator is a consistent
total preorder on the elements, and under that condition every stable sort gives the same result.

Where the code and its documentation disagree, the model follows the code:
- deselecting one child of a group leaves the parent's selection unchanged while other children stay
  selected (`Selection.UpdateParent`); only "all children" and "no children" change the parent;
- a group checkbox carries the key `parentKey ? parentKey|key : key` (group-controller.js:281), which
  equals the group key of the records only when the top-level value is not empty
  (`Selection.DataKeyIsFullKey`). Under an empty top-level value (group cells such as "|a") the checkbox
  of "a" adds and deletes "a" while the records carry "|a", so that checkbox does not change what is
  shown (`Selection.EmptyTopKeyDiffers`);
- a record's `convertedData` can be longer than `rawData`: the write-back `convertedData[dateIndex] = date`
  grows the array when the date column lies past the row's end (`SheetProcessor.ConvertRow`);
- `processLoadedData` does not clear `selectedGroups` (`Controller.AppState.Load`); only a change of the
  grouping columns does;
- after every group has been deselected, the next redraw selects every group again, because an empty
  selection is read as "nothing chosen yet" (`Selection.DefaultShowsAll`, `Display.ShowRecordsSpec`).

## Model

| member | source | states |
|---|---|---|
| Seqs.FindFirstSpec | app.js:141-146 | `findIndex` returns -1 iff no element satisfies the callback, otherwise the first element that does |
| Columns.FindIndexSpec | app.js:141-145 | a header matches only if it is truthy; the first header whose normalised text equals (exact) or contains the keyword is found, and -1 iff none matches |
| Columns.ColumnIndexNone | app.js:139-149 | findColumnIndex returns -1 iff no keyword matches any header |
| Columns.ColumnIndexFirst | app.js:140-147 | a found column is the first match of some keyword k, and every keyword before k matches nothing |
| Columns.FindColumnIndex | app.js:139-149 | the keyword loop with early return computes ColumnIndex |
| Columns.ValidateRequiredColumns | data-processor.js:180-203 | an invalid result carries exactly the fixed error text; a valid one has lat/lng indices in range and a timestamp column or both date and time columns |
| Columns.ValidateRequiredColumnsSpec | data-processor.js:181-202 | valid iff (timestamp found, or date and time found) and lat and lng found; the five indices are findColumnIndex over the fixed keyword lists |
| Columns.CellMatch | ui-controller.js:240-245 | a non-empty keyword is contained in isHeaderRow's normalised cell iff findColumnIndex's callback accepts that cell |
| Columns.SomeCellHasIff | ui-controller.js:241-245 | a keyword test of isHeaderRow finds a cell iff findColumnIndex finds a column for the same keywords |
| Columns.IsHeaderRowIffValid | ui-controller.js:238-247 | a row is a header row iff it would pass validateRequiredColumns |
| Columns.ExactColumnSpec | ui-controller.js:72 | `h && h.toString() === name` finds the first truthy header printing as name, and -1 when there is none |
| JsText.TrimEmptyIff | app.js:49 | a string trims to "" iff all its characters are JavaScript white space |
| AppHelpers.IsEmptyRowIff | app.js:48-50 | a row is empty iff every cell is falsy or consists of white space only |
| AppHelpers.ToInt32 | app.js:134 | the 32-bit result of `hash << 5` lies in the int32 range and is congruent to the input modulo 2^32 |
| AppHelpers.GetColorForValue | app.js:129-137 | the colour is always a palette entry: `colors[index % 16]` for a falsy value, otherwise the entry of the absolute hash of its text |
| AppHelpers.HoursMinutes | app.js:69-70 | the hours and the remaining minutes (below 60) account for the span to the minute |
| AppHelpers.CalculateTimeDiffMinutes | app.js:66-67 | the minute count is non-negative, and present iff both times parse |
| AppHelpers.TimeDiffSymmetric | app.js:66-71 | the result does not depend on the order of the two times |
| AppHelpers.TimeDiffForm | app.js:69-71 | the text has an hour part iff at least one hour passed; it always ends in "분" and both printed numbers read back as the hours and minutes |
| Temporal.SerialDayCount | app.js:22 | the day count is the serial's whole part minus 25569 |
| Temporal.TotalSeconds | app.js:26-28 | the seconds of the day lie in 0..86400 |
| Temporal.SplitSeconds | app.js:30-34 | hours·3600 + minutes·60 + seconds equals the total; seconds and minutes are below 60 |
| Temporal.LocalDateOfDay | app.js:24 | the local date of the day's midnight exists iff that time value is in range, and it is a valid calendar date |
| Temporal.ClockOfSerial | app.js:26-34 | the hours, minutes and seconds recombine to the seconds of the day, each field is in range, and they are SplitSeconds of TotalSeconds |
| Temporal.ExcelSerialDateToJSDate | app.js:21-37 | the statement-by-statement method computes SerialToInstant, the instant that DayInstant and SerialInstant characterise |
| Temporal.ConvertToKst | app.js:39-46 | a result has a 10-character date and an 8-character time; an Invalid Date has none |
| Temporal.ConvertToKstValid | app.js:40-45 | a time value still valid nine hours later converts to characters 0..10 and 11..19 of the ISO text of the shifted instant |
| Temporal.KstStampText | app.js:39-46 | within years 0..9999 the result is the `YYYY-MM-DD` date and `HH:MM:SS` clock of the instant nine hours later |
| Temporal.IsoInRange | app.js:43-44 | within years 0..9999 the ISO text is date, "T", clock, then milliseconds and "Z" |
| Temporal.DateTextReadsBack | app.js:43 | the date text reads back as the year, the 1-based month and the day |
| Temporal.ClockTextReadsBack | app.js:44 | the clock text reads back as hours, minutes and seconds |
| Temporal.SplitClock | app.js:30-34 | the clock split by the source's subtract-then-divide steps equals SplitSeconds of the total |
| Temporal.LocalDateShifted | app.js:24-36 | the local calendar date of day d's UTC midnight is day d east of UTC and day d - 1 west of it |
| Temporal.DayInstant | app.js:21-37 | whole days d and a second count decode to None iff day d's midnight is out of range, otherwise to the local day (d east of UTC, d - 1 west) at that clock, minus the host offset |
| Temporal.SerialInstant | app.js:21-37 | for a host at or east of UTC and a year outside 0..99, a serial decodes to its own day count times a day plus its seconds of the day, read as local time |
| Temporal.FieldsOfDayClock | app.js:43-44 | the time value of day d at a clock has d's calendar date and exactly that clock as its fields |
| Temporal.DayKstInstant | app.js:21-37 | on a KST host, day d in years 100..9999 at a clock below 24:00:00 decodes to that day and clock in UTC minus nine hours |
| Temporal.DayKst | app.js:21-46 | on a KST host, a day in years 100..9999 and a clock below 24:00:00 convert to that day's `YYYY-MM-DD` text and the clock's `HH:MM:SS` text |
| Temporal.SerialToKstText | app.js:21-46 | on a KST host, a numeric cell in years 100..9999 converts to the serial's own date text and the HH:MM:SS of its seconds of the day |
| Calendar.DayFromYearStep | app.js:24 | DayFromYear advances by the length of each year, leap years included |
| Calendar.YearFromDay | app.js:36 | the year found holds the day |
| Calendar.YearUnique | app.js:36 | only one year holds a given day |
| Calendar.CivilFromDays | app.js:36 | the date found is valid and maps back to the same day number |
| Calendar.CivilRoundTrip | app.js:36 | every valid date is recovered from its day number |
| Calendar.CivilFromDaysParts | app.js:36 | CivilFromDays picks the year and month holding the day |
| Calendar.FieldsOf | app.js:43-44 | the printed fields are in range and recompose the time value |
| JsText.NatToStringRoundTrip | app.js:71 | decimal printing is inverted by reading the digits back |
| JsText.PadNatRoundTrip | app.js:43-44 | a zero-padded number reads back as that number |
| JsText.SplitJoin | data-processor.js:117 | joining separator-free segments with `|` and splitting again gives the segments back |
| JsText.JoinSplit | group-controller.js:490-493 | splitting a key at `|` and joining the pieces gives the key back |
| JsText.StrCompareAntisymmetric | data-processor.js:262 | the time-text comparison is antisymmetric |
| JsText.StrCompareTransitive | data-processor.js:262 | the time-text comparison is transitive |
| SheetProcessor.KstPart | data-processor.js:211-221 | a numeric date (time) cell becomes the date (time) part of convertToKST of its serial, a 10- (8-) character text, and throws exactly when that conversion does; other cells stay |
| SheetProcessor.KstPartOfSerial | data-processor.js:58-68 | on a KST host a numeric date cell becomes the `YYYY-MM-DD` of the serial's own day and a numeric time cell the `HH:MM:SS` of its seconds of the day |
| SheetProcessor.DateCellRewriteSpec | data-processor.js:229-234 | a cell is rewritten only under a "date" header holding a number above 40000, to a 10-character date; the loop throws only for a numeric header or an unconvertible serial |
| SheetProcessor.RewriteDateCells | data-processor.js:226-234 | the header loop over a copy of the row computes RewritePrefix |
| SheetProcessor.RewritePrefixFails | data-processor.js:229-234 | the header loop throws iff some header's rewrite throws |
| SheetProcessor.RewritePrefixCells | data-processor.js:226-234 | after the loop each cell is its own header's rewrite or the raw cell |
| SheetProcessor.RewrittenValue | data-processor.js:229-234 | the value one header-loop step leaves in a cell differs from the cell only under a "date" header over a number above 40000, and is then that serial's KST date |
| SheetProcessor.RewrittenCells | data-processor.js:229-234 | a copied cell differs from the raw cell only under a "date" header where it held a number above 40000, and then holds that serial's KST date |
| SheetProcessor.ArraySet | data-processor.js:237-238 | JavaScript element assignment: a negative index changes no element, a large index grows the array |
| SheetProcessor.ConvertLocationData | data-processor.js:58-95 | a record keeps the raw row and headers, rowIndex = index + 2, lat/lng are parseFloat of their cells; timestamp is the timestamp cell or `"${date} ${time}"`; date and time are the KstPart conversions of their cells and convertedData the header loop's copy; it throws iff one of those three throws |
| SheetProcessor.RecordKstTexts | data-processor.js:58-95 | on a KST host a record built from numeric date and time cells holds the date text of the date serial and the clock text of the time serial |
| SheetProcessor.ConvertRow | data-processor.js:210-251 | the map callback succeeds iff convertLocationData does; it names the sheet, keeps the raw row, and sizes convertedData by the write-back |
| SheetProcessor.WriteBackCells | data-processor.js:236-238 | the write-back changes only the date and time columns, which then hold the converted date and time |
| SheetProcessor.ConvertedDataCells | data-processor.js:226-238 | a convertedData cell differs from the raw cell only at the date/time column or under a "date" header holding a number above 40000 |
| SheetProcessor.MapRowsSpec | data-processor.js:209-210 | record i is the callback's result on data row i; the map throws iff some row throws |
| SheetProcessor.DateTimeModeKeepsTimestamp | data-processor.js:223-253 | in date+time mode the timestamp is never empty, so only the coordinates can drop a record |
| SheetProcessor.ProcessSheetData | data-processor.js:205-264 | the output is no longer than the data rows |
| SheetProcessor.ProcessSheetDataRecords | data-processor.js:209-253 | every record passed the filter, names its sheet and comes from the data row at rowIndex − 1, never the header row |
| SheetProcessor.ProcessSheetDataComplete | data-processor.js:209-253 | every usable record of a data row is returned exactly once, and no row's conversion threw |
| SheetProcessor.ProcessedRecord | data-processor.js:209-253 | one returned record is usable, in range and is the conversion of its own data row |
| SheetProcessor.OrderIsPreorder | data-processor.js:254-263 | when the sort keys parse, the comparator is a consistent total preorder |
| SheetProcessor.DateThenTimeKey | data-processor.js:258-262 | in date+time mode records order by parsed date, then by time text |
| SheetProcessor.ProcessSheetDataSorted | data-processor.js:254-263 | the output is ordered by parsed timestamp, or by date then time text |
| SheetProcessor.ProcessSheetDataStable | data-processor.js:254-263 | records with equal sort keys keep their row order |
| SheetProcessor.SortLocationsByTime | group-controller.js:4-15 | the result is a permutation of the input, which is not changed |
| SheetProcessor.SortLocationsByTimeOrdered | ui-controller.js:4-15 | with truthy, parsable timestamps the result is ordered by timestamp and equal timestamps keep input order |
| SheetProcessor.ResortIsIdentity | ui-controller.js:314 | in timestamp mode re-sorting processSheetData's output changes nothing |
| StableSort.SortBy | data-processor.js:254 | sorting returns a permutation of its input |
| StableSort.SortBySorted | data-processor.js:254-263 | under a consistent comparator the result is sorted |
| StableSort.SortByStable | data-processor.js:254-263 | elements comparing equal keep their input order |
| StableSort.SortByOfSorted | group-controller.js:5 | sorting an already sorted sequence leaves it unchanged |
| GroupKeys.GroupSegment | data-processor.js:99-116 | a falsy cell becomes "Unknown"; a "date" column converts numbers above 40000 to a date, otherwise a "time" column converts positive numbers to a time; other columns print the cell |
| GroupKeys.DateTestWins | data-processor.js:103-110 | a column named with both "date" and "time" is a date column only |
| GroupKeys.GroupSegmentsSpec | data-processor.js:99-117 | segment i is column i's segment of its cell; the key fails iff one segment throws |
| GroupKeys.CreateGroupKey | data-processor.js:98-118 | a key exists iff every segment does |
| GroupKeys.GroupKeySplits | data-processor.js:117 | without `|` inside segments the key splits back into exactly one segment per column |
| Hierarchy.InsertAtItems | group-controller.js:489-505 | inserting a record keeps the tree's depth and appends it to exactly the leaf array at its path |
| Hierarchy.InsertAtRecords | group-controller.js:498-500 | inserting adds exactly that record to the tree's records |
| Hierarchy.BuildGroupHierarchy | group-controller.js:486-506 | the hierarchy loop computes BuildTree and allGroupKeys |
| Hierarchy.BuildTreeLeaves | group-controller.js:488-506 | the leaf array at each path holds exactly the records with that key, in input order |
| Hierarchy.BuildTreeRecords | group-controller.js:488-506 | the tree holds every record exactly once; the top-level count is the number of records |
| Hierarchy.CountIsSize | group-controller.js:45-62 | calculateCount is the number of records in the subtree |
| Hierarchy.AllPrefixKeysMembers | group-controller.js:490-495 | allGroupKeys holds exactly the non-empty prefixes of every key |
| Hierarchy.GroupKeyListed | group-controller.js:493-495 | each record's own key is in allGroupKeys |
| Selection.UpdateParent | group-controller.js:104-151 | no children: unchanged; all children selected: parent added; none: parent removed; some: unchanged |
| Selection.DataKeyIsFullKey | group-controller.js:281 | with a non-empty top-level segment the checkbox key is the node's group key (the `join('\|')` key of group-controller.js:493), and is not empty |
| Selection.EmptyTopKeyDiffers | group-controller.js:281 | under an empty top-level segment the checkbox key differs from the group key the records carry |
| Selection.ToggleGroupEffect | group-controller.js:328-368 | the node's and its direct children's checkbox keys take the new state; the immediate parent is added when all its children's keys are selected, removed when none are, otherwise kept; no other key changes |
| Selection.ParentKeepsSet | group-controller.js:128-149 | the parent's recomputation never undoes a key that took the new state, because the toggled node is one of its children |
| Selection.FullKeyInjective | group-controller.js:493 | distinct separator-free paths have distinct full keys |
| Selection.BuildTreeClean | group-controller.js:490-503 | no key of the hierarchy contains `|` |
| Selection.DefaultShowsAll | group-controller.js:508-513 | with no previous selection every collected record is visible |
| Selection.VisibleIs | group-controller.js:513 | a record is visible iff collected and its key is selected, in order and with its multiplicity |
| GroupCounts.BuildHierarchicalData | group-controller.js:413-436 | the loop computes the fold Hierarchical |
| GroupCounts.AddPathCount | group-controller.js:420-431 | one group raises the count of exactly the nodes its key passes through, by its size |
| GroupCounts.HierarchicalCounts | group-controller.js:413-436 | each node's count is the total size of the groups whose key passes through it |
| GroupCounts.HierarchicalNodes | group-controller.js:413-436 | a node exists exactly where some group key passes |
| Display.CollectLocations | group-controller.js:450-484 | the sheet loop computes CollectRecords |
| Display.TagRecordsSpec | group-controller.js:477-483 | each record keeps its location and carries createGroupKey of its row; tagging fails iff a key fails |
| Display.CollectRecordsSpec | group-controller.js:450-484 | only records of selected sheets are collected, and every record of each selected sheet is |
| Display.SheetRecordsLocations | group-controller.js:456-483 | a sheet with all the columns contributes processSheetData's records, in order |
| Display.CollectedRecordsTagged | group-controller.js:450-484 | every collected record comes from a selected sheet with every column, passed the filter and carries its row's key |
| Display.ShowRecordsSpec | group-controller.js:486-513 | keys in the tree are separator-free; the selection only grows; visible = selected, in order; with nothing selected everything is visible |
| Display.ShowLocations | group-controller.js:486-513 | phases 2 and 3 compute ShowRecords |
| GroupedData.CreateGroupedData | ui-controller.js:68-84 | the nested loops compute the fold Grouped; an empty sheet throws |
| GroupedData.AddSheetRows | ui-controller.js:74-81 | the row loop computes AddRows |
| GroupedData.EveryRowLands | ui-controller.js:70-82 | every data row of every sheet with the column lands, after the header row, in the group of its cell ("Unknown" if falsy) |
| GroupedData.GroupsAreWellFormed | ui-controller.js:70-82 | every group is a header row of a sheet with the column, then data rows whose cell names the group; sheets without the column contribute nothing |
| Loader.FindHeaderIndices | ui-controller.js:253 | the loop computes the positions of the header rows |
| Loader.SegmentSheets | ui-controller.js:258-266 | the segment loop computes Segments |
| Loader.SplitCsv | ui-controller.js:252-271 | the CSV branch computes CsvSheets |
| Loader.CsvSheets | ui-controller.js:252-271 | a CSV load always yields at least one sheet |
| Loader.CsvSheetsCases | ui-controller.js:255-271 | the result is the single "Sheet1" of all non-empty rows, or the segment sheets of the header rows |
| Loader.SegmentShape | ui-controller.js:258-261 | each segment starts with its header row, holds only non-empty rows, and no header row lies inside it |
| Loader.SegmentsNumbered | ui-controller.js:262-264 | each sheet is the segment of header row i, named `Sheet{i+1}`, with more than one row |
| Loader.SegmentsComplete | ui-controller.js:261-264 | every segment with more than one row becomes a sheet |
| Loader.CsvSheetsDistinct | ui-controller.js:256-270 | the sheet names of a CSV load are distinct |
| Loader.CsvSheetsRows | ui-controller.js:256-270 | every sheet holds non-empty rows only |
| Loader.HeaderRowNotEmpty | ui-controller.js:238-247 | a header row is never removed as empty |
| Loader.CollectColumns | ui-controller.js:274-280 | the column loop computes AllColumns |
| Loader.PushHeaders | ui-controller.js:276-278 | the truthy headers of one row are pushed unless already listed |
| Loader.ColumnsOfSpec | ui-controller.js:274-280 | allColumns lists each truthy header of each sheet exactly once, in first-seen order |
| Controller.SheetData | ui-controller.js:186 | `allData[name]` exists iff some loaded sheet has that name, and is that sheet's rows |
| Controller.SelectSheets | ui-controller.js:210-213 | the loop computes VisibleSheets |
| Controller.VisibleSheetsSpec | ui-controller.js:184-187 | the shown sheets are exactly the selected sheets that are loaded, with their own rows |
| Controller.ToggledSheetsSpec | ui-controller.js:119-126 | a sheet toggle selects the sheet iff checked, leaves other sheets, and keeps the set duplicate-free |
| Controller.RefreshedSelection | ui-controller.js:196-216 | the grouping columns are the non-empty selector values; unchanged columns keep the selection; changed columns show every record of the shown sheets |
| Controller.SetEach | group-controller.js:347-354 | the loop over the children adds or deletes each key |
| Controller.AppState.constructor | app.js:12-16 | the globals start empty |
| Controller.AppState.ShowGroups | group-controller.js:439-615 | the controls, selection and drawing are those of displayDataAsGroups; a throw leaves selection and controls unchanged |
| Controller.AppState.ChangeGroupColumns | ui-controller.js:196-227 | the new columns are the non-empty selector values; the selection is dropped iff they changed; the map is redrawn grouped or per sheet |
| Controller.AppState.ToggleSheet | ui-controller.js:119-155 | the sheet is selected iff checked, others unchanged, then the refresh of onGroupColumnChange |
| Controller.AppState.ToggleGroup | group-controller.js:328-370 | the selection becomes Selection.ToggleGroup of the old one; nothing else changes |
| Controller.AppState.UpdateMapDisplay | ui-controller.js:168-194 | without grouping columns nothing changes; otherwise the selected sheets are displayed grouped |
| Controller.AppState.ReadSheets | ui-controller.js:249-272 | a workbook is taken as it is, a CSV file becomes CsvSheets of its rows |
| Controller.AppState.Load | ui-controller.js:230-293 | allData is the workbook or the split CSV, allColumns their union, the first sheet is selected, the columns reset, the group selection kept |
| MapApi.RemoveFirstHash | map-api.js:4 | only the first `#` is removed |
| MapApi.ParseChannel | map-api.js:6-8 | each channel of a `#rrggbb` colour is read back by `parseInt(…, 16)` |
| MapApi.ParseHexPair | map-api.js:6-8 | `parseInt(…, 16)` reads two hex digits as their value |
| MapApi.Darken | map-api.js:10-16 | a NaN channel stays NaN; a number is clamped at 0 |
| MapApi.DarkenColor | map-api.js:2-23 | a missing, empty or non-string colour gives "#000000"; the result always starts with `#` |
| MapApi.ChannelTextPair | map-api.js:18-20 | a channel below 256 prints as a two-digit lower-case pair reading back as the channel |
| MapApi.DarkenColorChannels | map-api.js:2-23 | on `#rrggbb` and percent ≥ 0 the result is `#rrggbb` in lower case, each channel trunc(c·(100 − percent)/100) clamped at 0 |
| MapApi.ScaleBound | map-api.js:10-16 | a darkened channel never exceeds the original; percent 0 keeps it |
| MapApi.Darkness | map-api.js:60 | the darkness of a segment lies in [0, 60) |
| MapApi.DarknessMonotone | map-api.js:60 | later segments are never lighter |
| MapApi.CreatePath | map-api.js:49-79 | fewer than two locations draw nothing; segment i joins locations i and i + 1 in the colour darkened by (i / n)·60 |
| MapApi.Truncate | map-api.js:278-279 | values up to 100 characters stay; longer ones become their first 100 characters and "..." |
| MapApi.TruncateIdempotent | map-api.js:278-279 | truncating twice is truncating once |
| MapApi.ShownValue | map-api.js:277-282 | a cell is shown iff truthy and not blank after truncation, as its truncated text |
| MapApi.LongValueShown | map-api.js:278-282 | a value over 100 characters is always shown |
| MapApi.DetailsUseConverted | map-api.js:276-283 | the detail rows depend only on the headers and convertedData |
| MapApi.DetailsEmpty | map-api.js:276-283 | a location with no shown value has no detail rows |
| MapApi.CreatePopupContent | map-api.js:275-290 | the popup is the row-number title, then the detail rows of the headers in order, then the truncated group name row |
| MapApi.DetailsFromSplit | map-api.js:276-283 | the joined detail rows split at any header into the rows before it and the rows from it on |
| MapApi.DetailsSplit | map-api.js:276-283 | a shown cell contributes exactly its labelled row with the truncated value, between the rows of earlier and later headers |
| MapApi.PopupWithoutDetails | map-api.js:275-290 | a location with no shown value gets a popup of just the title and the group row |

## Left out

- Map drawing: Leaflet and Naver markers, polylines, popups, `fitBounds` and layer bookkeeping are foreign
  library calls. `CreatePath` keeps only the segment end points and colours, and sheet-mode drawing is the
  value `SheetMode` of the sheets to draw.
- The DOM: checkbox widgets, open and closed tree state, the group selector elements (their values are a
  parameter), tabs and status text. The checked state of a checkbox is read as membership in
  `selectedGroups`.
- `setTimeout`: the deferred `updateMapDisplay` after a group toggle is a separate call, `UpdateMapDisplay`.
- I/O: file and URL loading, the XLSX and CSV parsers, geofence data and the static file server.
- Floating-point geodesy: the Haversine distance, path speed and sheet distance totals.
- IEEE-754 rounding: serials, channel scaling and darkness are exact reals. The 1e-7 epsilon of
  `excelSerialDateToJSDate` is kept as an exact addition.
- Host time zones: the zone offset is a single constant (`Engine.zoneOffsetMs`). Daylight-saving changes are
  not modelled.
- `Date.parse`, `parseFloat`, `Number(string)` and number printing are engine parameters. Only the facts in
  `JsValues.WellFormed` are assumed about them.
- MapApi.DarkenColorChannels: `parseInt` of a darkened channel is modelled as truncation. For a percentage so
  close to 100 that a channel scales to a positive value below 10^-6, JavaScript prints that value in
  exponent form and `parseInt` reads its first digit, where the model gives 0. `createPath` only uses
  percentages below 60, and there the two agree.
- Case mapping: `toLowerCase` maps ASCII letters only. Non-ASCII letters in headers are left as they are.
- JsText.StrCompare: `localeCompare` is modelled as lexicographic order of code points. JavaScript collates
  by locale, and even plain code-unit order differs from code-point order when a character above U+FFFF
  meets one in U+E000..U+FFFF. The comparator only orders the `HH:MM:SS` time texts, which are ASCII.
- MapApi.Truncate: strings are sequences of Unicode code points, while `length` and `substring` count
  UTF-16 code units. A text with characters above U+FFFF (emoji) is cut later in the model than in
  JavaScript: 100 emoji are 200 units long there and are cut to 50 emoji and "...". `MapApi.ShownValue`
  and `MapApi.CreatePopupContent` inherit this.
- Object key order: JavaScript lists integer-like property keys first. The model keeps insertion order for
  `allData`, the `visibleSheetData` object built from the selected sheets (ui-controller.js:184-187),
  `createGroupedData`, the hierarchy and the group counts.
- Aliasing: the rows of `allData` are shared with records. No operation mutates a row, so the model uses
  values.
- Mixed-depth keys: keys of different lengths in one hierarchy (a group value containing `|`). When the
  shorter key comes first, its level is an array and the JavaScript walk of the longer key sets a property
  on that array. When the longer key comes first, the level is an object and `push` on it throws a
  TypeError, which aborts `displayDataAsGroups` before the default selection and the drawing.
  `Hierarchy.InsertAt` does neither: it leaves the tree unchanged for such a key and the display goes on.
  The tree lemmas require one depth (`Hierarchy.SameDepth`).
- Number and boolean cells: a cell is undefined, a string or a finite number. NaN, the infinities and the
  true/false cells the XLSX parser can deliver are not represented, and `parseFloat` never yields
  Infinity. The source keeps a record whose coordinate reads as "Infinity", because it passes `!isNaN`;
  the model has no such record.
- Inherited property names: lookups on plain objects (`groupedData[value]`, `currentLevel[key]`,
  `locationsByGroup[group]`) also see inherited properties such as `constructor` or `toString`. For such
  a value the source then calls `push` on a function and throws a TypeError, or walks into the function. The model treats every name as a missing own key and creates a fresh entry.
- SheetProcessor.ProcessSheetDataSorted: proved only when every sort key parses. A NaN comparison makes the
  comparator inconsistent, and the engine's order is then unspecified.
- AppHelpers.GetColorForValue: the hash is an exact integer between steps. JavaScript keeps it as a double,
  which stays exact until about four million characters have been hashed. Longer texts are outside the
  model. The hash also takes one step per code point, where `charCodeAt` steps over UTF-16 code units: a
  character above U+FFFF is two surrogate units in JavaScript, so such a value can get another colour.
- The header loop of `processSheetData` never writes past the end of the row, because a cell beyond the row
  is undefined and is never rewritten. `SheetProcessor.ApplyRewrite` therefore keeps the copy's length.
- `sortLocationsByTime` is defined twice in the source, once in group-controller.js and once in
  ui-controller.js, with identical text. Both are modelled by `SheetProcessor.SortLocationsByTime`.
- `buildHierarchicalData` is not called by `displayDataAsGroups`, and `createGroupedData` is not called
  anywhere in the files modelled here. Both are modelled on their own (`GroupCounts`, `GroupedData`).
