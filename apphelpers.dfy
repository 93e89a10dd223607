/** Small helpers of app.js: isEmptyRow, getColorForValue and calculateTimeDiff. */
module AppHelpers {

  import opened JsValues
  import opened JsText

  /** The sixteen-entry palette `colors`. */
  const Colors: seq<string> := [
    "#FF6B6B", "#4ECDC4", "#45B7D1", "#96CEB4", "#FECA57", "#FF9FF3", "#54A0FF", "#5F27CD",
    "#FF7675", "#74B9FF", "#A29BFE", "#6C5CE7", "#00B894", "#00CEC9", "#E84393", "#FD79A8"]

  /** isEmptyRow: every cell is falsy or prints as white space only. A row is
      always a sequence here, so the `!row` test for a missing row has no
      counterpart; a hole of a sparse row, which `every` skips, is an
      `Undefined` cell, which is falsy and so gives the same answer. */
  predicate IsEmptyRow(e: Engine, row: seq<Value>) {
    forall i | 0 <= i < |row| :: !Truthy(row[i]) || Trim(ToStr(e, row[i])) == []
  }

  /** A row is empty exactly when each cell is falsy or made of white space
      characters alone. */
  lemma IsEmptyRowIff(e: Engine, row: seq<Value>)
    ensures IsEmptyRow(e, row) <==>
      forall i | 0 <= i < |row| ::
        !Truthy(row[i]) || forall j | 0 <= j < |ToStr(e, row[i])| :: IsJsSpace(ToStr(e, row[i])[j])
  {
    forall i | 0 <= i < |row| {
      TrimEmptyIff(ToStr(e, row[i]));
    }
  }

  /** ToInt32: the 32-bit two's complement value congruent to x. */
  function ToInt32(x: int): (r: int)
    ensures -0x8000_0000 <= r < 0x8000_0000
    ensures (x - r) % 0x1_0000_0000 == 0
  {
    var m := x % 0x1_0000_0000;
    if m >= 0x8000_0000 then m - 0x1_0000_0000 else m
  }

  /** One step of `hash = charCode + ((hash << 5) - hash)` on the code of one
      character (a code point); `hash << 5` works on the 32-bit value of hash
      and wraps, the subtraction and the addition do not. */
  function HashStep(hash: int, c: char): int {
    c as int + (ToInt32(ToInt32(hash) * 32) - hash)
  }

  /** The hash after consuming all of s, from 0. */
  function HashOf(s: string): int {
    if s == [] then 0 else HashStep(HashOf(s[..|s| - 1]), s[|s| - 1])
  }

  function Abs(x: int): nat {
    if x < 0 then -x else x
  }

  /** getColorForValue: a palette entry chosen by the hash of the printed
      value, or by the caller's index for a falsy value. */
  method GetColorForValue(e: Engine, value: Value, index: nat) returns (color: string)
    ensures color in Colors
    ensures !Truthy(value) ==> color == Colors[index % |Colors|]
    ensures Truthy(value) ==> color == Colors[Abs(HashOf(ToStr(e, value))) % |Colors|]
  {
    if !Truthy(value) {
      return Colors[index % |Colors|];
    }
    var s := ToStr(e, value);
    var hash := 0;
    var i := 0;
    while i < |s|
      invariant 0 <= i <= |s|
      invariant hash == HashOf(s[..i])
    {
      assert s[..i + 1][..i] == s[..i];
      hash := s[i] as int + (ToInt32(ToInt32(hash) * 32) - hash);
      i := i + 1;
    }
    assert s[..|s|] == s;
    color := Colors[Abs(hash) % |Colors|];
  }

  /** `Math.abs(new Date(time2) - new Date(time1))` in milliseconds, or None for NaN. */
  function TimeDiffMs(e: Engine, time1: Value, time2: Value): Option<nat> {
    match (DateValue(e, time1), DateValue(e, time2))
    case (Some(a), Some(b)) => Some(Abs(b - a))
    case _ => None
  }

  /** Whole hours and the minutes left over in a span of milliseconds. */
  function HoursMinutes(diff: nat): (hm: (nat, nat))
    ensures hm.1 < 60
    ensures hm.0 * 3_600_000 + hm.1 * 60_000 <= diff < hm.0 * 3_600_000 + hm.1 * 60_000 + 60_000
  {
    (diff / 3_600_000, diff % 3_600_000 / 60_000)
  }

  /** calculateTimeDiff with returnMinutes = false: "H시간 M분" when at least an
      hour has passed, "M분" otherwise, and "NaN분" when a time does not parse. */
  function CalculateTimeDiff(e: Engine, time1: Value, time2: Value): string {
    match TimeDiffMs(e, time1, time2)
    case None => "NaN분"
    case Some(d) =>
      var hm := HoursMinutes(d);
      if hm.0 > 0 then NatToString(hm.0) + "시간 " + NatToString(hm.1) + "분"
      else NatToString(hm.1) + "분"
  }

  /** calculateTimeDiff with returnMinutes = true. */
  function CalculateTimeDiffMinutes(e: Engine, time1: Value, time2: Value): (r: Option<real>)
    ensures r.Some? ==> r.value >= 0.0
    ensures r.Some? <==> TimeDiffMs(e, time1, time2).Some?
  {
    match TimeDiffMs(e, time1, time2)
    case None => None
    case Some(d) => Some(d as real / 60_000.0)
  }

  /** The text does not depend on the order of the two times. */
  lemma TimeDiffSymmetric(e: Engine, time1: Value, time2: Value)
    ensures CalculateTimeDiff(e, time1, time2) == CalculateTimeDiff(e, time2, time1)
    ensures CalculateTimeDiffMinutes(e, time1, time2) == CalculateTimeDiffMinutes(e, time2, time1)
  {
  }

  /** The hour part appears exactly when at least one whole hour has passed, and
      the printed numbers read back as those hours and minutes. */
  lemma TimeDiffForm(e: Engine, time1: Value, time2: Value)
    ensures var r := CalculateTimeDiff(e, time1, time2);
      ('시' in r <==> TimeDiffMs(e, time1, time2).Some? && TimeDiffMs(e, time1, time2).value >= 3_600_000) &&
      r != [] && r[|r| - 1] == '분'
    ensures TimeDiffMs(e, time1, time2).Some? ==>
      var hm := HoursMinutes(TimeDiffMs(e, time1, time2).value);
      var r := CalculateTimeDiff(e, time1, time2);
      if hm.0 > 0 then
        var h := NatToString(hm.0);
        r == h + "시간 " + NatToString(hm.1) + "분" &&
        DigitsValue(r[..|h|]) == hm.0 && DigitsValue(r[|h| + 3..|r| - 1]) == hm.1
      else r == NatToString(hm.1) + "분" && DigitsValue(r[..|r| - 1]) == hm.1
  {
    var r := CalculateTimeDiff(e, time1, time2);
    match TimeDiffMs(e, time1, time2)
    case None =>
      assert r == "NaN분";
    case Some(d) =>
      var hm := HoursMinutes(d);
      var h, m := NatToString(hm.0), NatToString(hm.1);
      assert '시' !in h && '시' !in m by {
        assert forall i | 0 <= i < |h| :: IsDigit(h[i]);
        assert forall i | 0 <= i < |m| :: IsDigit(m[i]);
      }
      if hm.0 > 0 {
        assert r == h + "시간 " + m + "분";
        assert r[|h|] == '시';
        assert r[..|h|] == h;
        assert r[|h| + 3..|r| - 1] == m;
        NatToStringRoundTrip(hm.0);
        NatToStringRoundTrip(hm.1);
      } else {
        assert r == m + "분";
        assert r[..|r| - 1] == m;
        NatToStringRoundTrip(hm.1);
      }
  }
}
