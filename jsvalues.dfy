/** The slice of JavaScript's value semantics the location pipeline relies on:
    spreadsheet cells, truthiness, String()/Number()/parseFloat() and the
    Date constructor applied to a cell. */
module JsValues {

  datatype Option<T> = None | Some(value: T) {
    predicate IsFailure() { None? }
    function PropagateFailure<U>(): Option<U>
      requires None?
    {
      None
    }
    function Extract(): T
      requires Some?
    {
      value
    }
  }

  /** A spreadsheet cell as the XLSX/CSV parsers deliver it: a missing entry
      (`undefined`, also what reading past the end of a row gives), a string,
      or a number. */
  datatype Value = Undefined | Text(s: string) | Num(n: real)

  /** Host built-ins whose algorithms are not part of the model. NaN and
      "Invalid Date" are `None`.
      - parseFloat: the global parseFloat on a string
      - toNumber: Number(string)
      - parseDate: Date.parse, in milliseconds since the Unix epoch
      - numberToString: Number.prototype.toString() with radix 10
      - zoneOffsetMs: offset of the host's local time from UTC, in milliseconds */
  datatype Engine = Engine(
    parseFloat: string -> Option<real>,
    toNumber: string -> Option<real>,
    parseDate: string -> Option<int>,
    numberToString: real -> string,
    zoneOffsetMs: int)

  /** The engine facts the proofs rely on, all true of every JavaScript engine:
      the word "Unknown" is not a number, and a printed number never contains
      the group separator `|`. */
  ghost predicate WellFormed(e: Engine) {
    e.toNumber("Unknown") == None &&
    forall n: real :: '|' !in e.numberToString(n)
  }

  /** ToBoolean on a cell. */
  predicate Truthy(v: Value) {
    match v
    case Undefined => false
    case Text(s) => s != []
    case Num(n) => n != 0.0
  }

  /** String(v), also what template literals and Array.prototype.join print. */
  function ToStr(e: Engine, v: Value): string {
    match v
    case Undefined => "undefined"
    case Text(s) => s
    case Num(n) => e.numberToString(n)
  }

  /** Number(v); `!isNaN(v)` holds exactly when this is `Some`. */
  function ToNumber(e: Engine, v: Value): Option<real> {
    match v
    case Undefined => None
    case Text(s) => e.toNumber(s)
    case Num(n) => Some(n)
  }

  /** parseFloat(v). A number cell parses back to itself; `undefined` is printed
      as "undefined", which is not a number. */
  function ParseFloat(e: Engine, v: Value): Option<real> {
    match v
    case Undefined => None
    case Text(s) => e.parseFloat(s)
    case Num(n) => Some(n)
  }

  /** `row[i]`: reading outside the row, including at index -1, gives undefined. */
  function Lookup(row: seq<Value>, i: int): (v: Value)
    ensures 0 <= i < |row| ==> v == row[i]
    ensures !(0 <= i < |row|) ==> v == Undefined
  {
    if 0 <= i < |row| then row[i] else Undefined
  }

  /** The largest magnitude of a valid time value, in milliseconds (ECMA-262 TimeClip). */
  const MaxTime: int := 8_640_000_000_000_000

  /** Truncation toward zero, as ToIntegerOrInfinity does. */
  function Trunc(x: real): (r: int)
    ensures x >= 0.0 ==> 0.0 <= r as real <= x < r as real + 1.0
    ensures x < 0.0 ==> r as real - 1.0 < x <= r as real <= 0.0
  {
    if x >= 0.0 then x.Floor else -((-x).Floor)
  }

  /** TimeClip on an integral time value. */
  function TimeClip(t: int): (r: Option<int>)
    ensures r.Some? <==> -MaxTime <= t <= MaxTime
    ensures r.Some? ==> r.value == t
  {
    if -MaxTime <= t <= MaxTime then Some(t) else None
  }

  /** The time value of `new Date(v)`: a number is clipped, a string parsed,
      and undefined gives an invalid date. */
  function DateValue(e: Engine, v: Value): Option<int> {
    match v
    case Undefined => None
    case Text(s) => e.parseDate(s)
    case Num(n) =>
      if -(MaxTime as real) <= n <= MaxTime as real then Some(Trunc(n)) else None
  }
}
