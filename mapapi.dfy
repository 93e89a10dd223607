/** The computational part of map-api.js: darkenColor, the colour schedule of
    the path segments drawn by createPath, and the text of a marker popup. */
module MapApi {

  import opened JsValues
  import opened JsText
  import opened Seqs
  import opened SheetProcessor

  // ---------------------------------------------------------- darkenColor

  /** `s.replace('#', '')`: only the first occurrence is removed. */
  function RemoveFirstHash(s: string): (r: string)
    ensures '#' !in s ==> r == s
    ensures '#' in s ==> |r| == |s| - 1
  {
    if '#' in s then var k := IndexOf(s, '#'); s[..k] + s[k + 1..] else s
  }

  /** `s.substring(start, end)` for start <= end. */
  function Substring(s: string, start: nat, end: nat): string
    requires start <= end
  {
    var a := if start < |s| then start else |s|;
    var b := if end < |s| then end else |s|;
    s[a..b]
  }

  /** The longest prefix made of hexadecimal digits. */
  function HexPrefix(s: string): (r: string)
    ensures r <= s
    ensures forall i | 0 <= i < |r| :: HexDigitValue(r[i]).Some?
    ensures |r| < |s| ==> HexDigitValue(s[|r|]).None?
  {
    if s != [] && HexDigitValue(s[0]).Some? then [s[0]] + HexPrefix(s[1..]) else []
  }

  /** `parseInt(s, 16)`: leading white space, an optional sign and an optional
      `0x` prefix are skipped, then the longest run of hex digits is read;
      with no digit the result is NaN. */
  function ParseIntHex(s: string): Option<int> {
    var t := TrimStart(s);
    var negative := t != [] && t[0] == '-';
    var unsigned := if t != [] && (t[0] == '-' || t[0] == '+') then t[1..] else t;
    var body := if |unsigned| >= 2 && unsigned[0] == '0' && (unsigned[1] == 'x' || unsigned[1] == 'X')
                then unsigned[2..] else unsigned;
    var digits := HexPrefix(body);
    if digits == [] then None
    else Some(if negative then -(HexValue(digits) as int) else HexValue(digits))
  }

  /** `parseInt(n * (100 - percent) / 100)` followed by the clamp at zero. */
  function Scale(n: int, percent: real): (r: int)
    ensures r >= 0
  {
    var scaled := Trunc(n as real * (100.0 - percent) / 100.0);
    if scaled < 0 then 0 else scaled
  }

  /** A channel darkened; NaN stays NaN. */
  function Darken(c: Option<int>, percent: real): (r: Option<int>)
    ensures r.Some? <==> c.Some?
    ensures r.Some? ==> r.value >= 0
  {
    match c
    case None => None
    case Some(n) => Some(Scale(n, percent))
  }

  /** A channel printed with `toString(16)`, padded to two digits when it has
      one; NaN prints as "NaN". */
  function ChannelText(c: Option<int>): string
    requires c.Some? ==> c.value >= 0
  {
    match c
    case None => "NaN"
    case Some(n) => var h := NatToHex(n); if |h| == 1 then "0" + h else h
  }

  /** Channel k of the colour text after the `#` is removed, darkened and printed. */
  function DarkenChannel(h: string, k: nat, percent: real): string {
    ChannelText(Darken(ParseIntHex(Substring(h, 2 * k, 2 * k + 2)), percent))
  }

  /** darkenColor(hex, percent). A missing, empty or non-string colour gives black. */
  function DarkenColor(hex: Value, percent: real): (r: string)
    ensures !(hex.Text? && hex.s != []) ==> r == "#000000"
    ensures r != [] && r[0] == '#'
  {
    if !(hex.Text? && hex.s != []) then "#000000"
    else
      var h := RemoveFirstHash(hex.s);
      "#" + DarkenChannel(h, 0, percent) + DarkenChannel(h, 1, percent) + DarkenChannel(h, 2, percent)
  }

  /** A colour `#rrggbb` with hex digits of either case. */
  predicate IsHexColor(s: string) {
    |s| == 7 && s[0] == '#' && forall i | 1 <= i < 7 :: HexDigitValue(s[i]).Some?
  }

  /** The value of channel k (0, 1, 2) of a `#rrggbb` colour. */
  function Channel(s: string, k: nat): (c: nat)
    requires IsHexColor(s) && k < 3
    ensures c < 256
  {
    var d := s[1 + 2 * k..3 + 2 * k];
    assert HexDigitValue(d[0]).Some? && HexDigitValue(d[1]).Some?;
    assert d[..1][..0] == [];
    assert HexValue(d[..1]) == HexDigitValue(d[0]).value;
    HexValue(d)
  }

  /** A two-digit lower-case hexadecimal number. */
  predicate IsHexPair(s: string) {
    |s| == 2 && forall i | 0 <= i < 2 :: HexDigitValue(s[i]).Some? && s[i] == LowerChar(s[i])
  }

  /** Each channel of a `#rrggbb` colour is read back by parseInt(…, 16). */
  lemma ParseChannel(s: string, k: nat)
    requires IsHexColor(s) && k < 3
    ensures ParseIntHex(Substring(RemoveFirstHash(s), 2 * k, 2 * k + 2)) == Some(Channel(s, k))
  {
    assert IndexOf(s, '#') == 0;
    var h := RemoveFirstHash(s);
    assert h == s[1..];
    var d := Substring(h, 2 * k, 2 * k + 2);
    assert d == s[1 + 2 * k..3 + 2 * k];
    assert HexDigitValue(d[0]).Some? && HexDigitValue(d[1]).Some?;
    ParseHexPair(d);
  }

  /** Two hex digits are read by parseInt(…, 16) as their value. */
  lemma ParseHexPair(d: string)
    requires |d| == 2 && HexDigitValue(d[0]).Some? && HexDigitValue(d[1]).Some?
    ensures ParseIntHex(d) == Some(HexValue(d))
  {
    assert !IsJsSpace(d[0]);
    assert TrimStart(d) == d;
    assert HexPrefix(d[2..]) == [];
    assert HexPrefix(d) == d;
  }

  /** A channel below 256 prints as a two-digit lower-case pair that reads
      back as the channel. */
  lemma ChannelTextPair(n: nat)
    requires n < 256
    ensures IsHexPair(ChannelText(Some(n)))
    ensures HexValue(ChannelText(Some(n))) == n
  {
    var h := NatToHex(n);
    NatToHexRoundTrip(n);
    NatToHexLength(n);
    if |h| == 1 {
      var t := "0" + h;
      assert t[..1] == "0" && t[..1][..0] == [];
      assert HexValue(t) == 16 * HexValue("0") + HexDigitValue(h[0]).value;
      assert h[..0] == [];
    } else {
      assert h == NatToHex(n / 16) + [HexChar(n % 16)];
      assert |NatToHex(n / 16)| == 1 by { NatToHexLength(n / 16); }
    }
  }

  /** One channel of a `#rrggbb` colour after darkenColor. */
  lemma DarkenChannelValue(hex: string, k: nat, percent: real)
    requires IsHexColor(hex) && k < 3 && 0.0 <= percent
    ensures var pair := DarkenChannel(RemoveFirstHash(hex), k, percent);
      IsHexPair(pair) &&
      HexValue(pair) == Scale(Channel(hex, k), percent)
  {
    var c := Channel(hex, k);
    ParseChannel(hex, k);
    ScaleBound(c, percent);
    assert DarkenChannel(RemoveFirstHash(hex), k, percent) == ChannelText(Some(Scale(c, percent)));
    ChannelTextPair(Scale(c, percent));
  }

  /** Channel k of r is a two-digit lower-case hex pair holding the scaled
      channel k of hex. */
  predicate DarkenedChannel(r: string, hex: string, k: nat, percent: real)
    requires IsHexColor(hex) && k < 3 && |r| == 7
  {
    var pair := r[1 + 2 * k..3 + 2 * k];
    IsHexPair(pair) && HexValue(pair) == Scale(Channel(hex, k), percent)
  }

  /** On a `#rrggbb` colour and a percentage of at least 0, darkenColor gives a
      `#rrggbb` colour in lower case whose channels are the input channels
      scaled by (100 - percent)/100, truncated and clamped at 0 (with
      ScaleBound: never above the input channel, and equal to it for
      percent 0). */
  lemma DarkenColorChannels(hex: string, percent: real)
    requires IsHexColor(hex) && 0.0 <= percent
    ensures var r := DarkenColor(Text(hex), percent);
      |r| == 7 && r[0] == '#' &&
      DarkenedChannel(r, hex, 0, percent) &&
      DarkenedChannel(r, hex, 1, percent) &&
      DarkenedChannel(r, hex, 2, percent)
  {
    var h := RemoveFirstHash(hex);
    var r := DarkenColor(Text(hex), percent);
    DarkenChannelValue(hex, 0, percent);
    DarkenChannelValue(hex, 1, percent);
    DarkenChannelValue(hex, 2, percent);
    var c0, c1, c2 := DarkenChannel(h, 0, percent), DarkenChannel(h, 1, percent), DarkenChannel(h, 2, percent);
    ThreePairs(c0, c1, c2);
  }

  lemma ThreePairs(a: string, b: string, c: string)
    requires |a| == 2 && |b| == 2 && |c| == 2
    ensures var r := "#" + a + b + c;
      |r| == 7 && r[0] == '#' && r[1..3] == a && r[3..5] == b && r[5..7] == c
  {
  }

  /** Scaling a channel by a factor of at most one never increases it; the
      factor one keeps it. */
  lemma ScaleBound(c: nat, percent: real)
    requires 0.0 <= percent
    ensures Scale(c, percent) <= c
    ensures percent == 0.0 ==> Scale(c, percent) == c
  {
    var x := c as real * (100.0 - percent) / 100.0;
    assert x <= c as real;
    if percent == 0.0 {
      assert x == c as real;
    }
  }

  // ----------------------------------------------------------- createPath

  /** One drawn segment of a path: its two end points and its stroke colour. */
  datatype Segment<L> = Segment(start: L, end: L, color: string)

  /** The darkness of segment i out of n: (i / n) * 60 percent. */
  function Darkness(i: nat, n: nat): (d: real)
    requires i < n
    ensures 0.0 <= d < 60.0
  {
    (i as real / n as real) * 60.0
  }

  /** Later segments are never lighter than earlier ones. */
  lemma DarknessMonotone(i: nat, j: nat, n: nat)
    requires i <= j < n
    ensures Darkness(i, n) <= Darkness(j, n)
  {
    assert i as real / n as real <= j as real / n as real;
  }

  /** The segment loop of createPath: fewer than two locations draw nothing;
      otherwise segment i joins locations i and i + 1 and is the path colour
      darkened by Darkness(i, n - 1). */
  method CreatePath<L>(locations: seq<L>, color: string) returns (segments: seq<Segment<L>>)
    ensures |locations| < 2 ==> segments == []
    ensures |locations| >= 2 ==> |segments| == |locations| - 1
    ensures forall i | 0 <= i < |segments| ::
      segments[i] == Segment(locations[i], locations[i + 1],
                             DarkenColor(Text(color), Darkness(i, |locations| - 1)))
  {
    var numSegments := |locations| - 1;
    if numSegments < 1 {
      return [];
    }
    segments := [];
    var i := 0;
    while i < numSegments
      invariant 0 <= i <= numSegments
      invariant |segments| == i
      invariant forall j | 0 <= j < i ::
        segments[j] == Segment(locations[j], locations[j + 1],
                               DarkenColor(Text(color), Darkness(j, numSegments)))
    {
      var darknessPercent := Darkness(i, numSegments);
      segments := segments + [Segment(locations[i], locations[i + 1], DarkenColor(Text(color), darknessPercent))];
      i := i + 1;
    }
  }

  // --------------------------------------------------- createPopupContent

  /** Values longer than 100 characters (code points) are cut to 100 and
      marked "...". */
  function Truncate(s: string): (r: string)
    ensures |s| <= 100 ==> r == s
    ensures |s| > 100 ==> |r| == 103 && r[..100] == s[..100] && r[100..] == "..."
  {
    if |s| > 100 then s[..100] + "..." else s
  }

  /** Truncating twice is truncating once. */
  lemma TruncateIdempotent(s: string)
    ensures Truncate(Truncate(s)) == Truncate(s)
  {
    if |s| > 100 {
      assert Truncate(s)[..100] == s[..100];
    }
  }

  /** The text shown for one cell, or None when the row is omitted: falsy
      cells and values that are blank after truncation are left out. */
  function ShownValue(e: Engine, v: Value): (r: Option<string>)
    ensures r.Some? ==> |r.value| <= 103 && Trim(r.value) != []
    ensures r.Some? ==> r.value == Truncate(ToStr(e, v))
    ensures r.None? <==> !Truthy(v) || Trim(Truncate(ToStr(e, v))) == []
  {
    if !Truthy(v) then None
    else
      var t := Truncate(ToStr(e, v));
      if Trim(t) == [] then None else Some(t)
  }

  /** A long value is never omitted, even if it is all white space: the "..."
      mark survives trimming. */
  lemma LongValueShown(e: Engine, v: Value)
    requires Truthy(v) && |ToStr(e, v)| > 100
    ensures ShownValue(e, v).Some?
  {
    var t := Truncate(ToStr(e, v));
    assert t[|t| - 1] == '.';
    var u := TrimStart(t);
    assert u != [];
    assert u[|u| - 1] == '.';
  }

  function DetailRow(caption: string, value: string): string {
    "<div class=\"detail-row\"><span class=\"label\">" + caption + ":</span><span class=\"value\">" + value + "</span></div>"
  }

  /** The detail rows for the first n headers; each value is taken from
      convertedData, not from rawData. */
  function DetailsHtml(e: Engine, loc: Location, n: nat): (r: string)
    requires n <= |loc.headers|
  {
    if n == 0 then ""
    else DetailsHtml(e, loc, n - 1) + DetailOf(e, loc.headers[n - 1], Lookup(loc.convertedData, n - 1))
  }

  /** The detail row of one header and its cell, or nothing when the cell is
      not shown. */
  function DetailOf(e: Engine, header: Value, cell: Value): string {
    match ShownValue(e, cell)
    case Some(t) => DetailRow(ToStr(e, header), t)
    case None => ""
  }

  /** The detail rows depend on the headers and convertedData only. */
  lemma {:induction false} DetailsUseConverted(e: Engine, a: Location, b: Location, n: nat)
    requires n <= |a.headers| && a.headers == b.headers && a.convertedData == b.convertedData
    ensures DetailsHtml(e, a, n) == DetailsHtml(e, b, n)
  {
    if n > 0 {
      DetailsUseConverted(e, a, b, n - 1);
      var row := DetailOf(e, a.headers[n - 1], Lookup(a.convertedData, n - 1));
      assert DetailsHtml(e, a, n) == DetailsHtml(e, a, n - 1) + row;
      assert DetailsHtml(e, b, n) == DetailsHtml(e, b, n - 1) + row;
    }
  }

  /** A location none of whose values is shown has no detail rows. */
  lemma {:induction false} DetailsEmpty(e: Engine, loc: Location, n: nat)
    requires n <= |loc.headers|
    requires forall i | 0 <= i < n :: ShownValue(e, Lookup(loc.convertedData, i)).None?
    ensures DetailsHtml(e, loc, n) == ""
  {
    if n > 0 {
      DetailsEmpty(e, loc, n - 1);
    }
  }

  /** The detail rows of headers i..n, in header order. */
  function DetailsFrom(e: Engine, loc: Location, i: nat, n: nat): string
    requires i <= n <= |loc.headers|
    decreases n
  {
    if n == i then ""
    else DetailsFrom(e, loc, i, n - 1) + DetailOf(e, loc.headers[n - 1], Lookup(loc.convertedData, n - 1))
  }

  /** The detail rows of the first n headers split at any header i. */
  lemma {:induction false} DetailsFromSplit(e: Engine, loc: Location, i: nat, n: nat)
    requires i <= n <= |loc.headers|
    ensures DetailsHtml(e, loc, n) == DetailsHtml(e, loc, i) + DetailsFrom(e, loc, i, n)
    decreases n
  {
    if n > i {
      DetailsFromSplit(e, loc, i, n - 1);
      DetailsFromStep(e, loc, i, n);
    } else {
      assert DetailsFrom(e, loc, i, n) == "";
    }
  }

  lemma DetailsFromStep(e: Engine, loc: Location, i: nat, n: nat)
    requires i < n <= |loc.headers|
    requires DetailsHtml(e, loc, n - 1) == DetailsHtml(e, loc, i) + DetailsFrom(e, loc, i, n - 1)
    ensures DetailsHtml(e, loc, n) == DetailsHtml(e, loc, i) + DetailsFrom(e, loc, i, n)
  {
    var row := DetailOf(e, loc.headers[n - 1], Lookup(loc.convertedData, n - 1));
    Regrouped(DetailsHtml(e, loc, n - 1), DetailsHtml(e, loc, i), DetailsFrom(e, loc, i, n - 1), row);
  }

  /** A shown cell i contributes exactly its labelled row, after the rows of
      the headers before it and before the rows of the headers after it. */
  lemma DetailsSplit(e: Engine, loc: Location, i: nat, t: string)
    requires i < |loc.headers| && ShownValue(e, Lookup(loc.convertedData, i)) == Some(t)
    ensures DetailsHtml(e, loc, |loc.headers|) ==
      DetailsHtml(e, loc, i) + DetailRow(ToStr(e, loc.headers[i]), t) + DetailsFrom(e, loc, i + 1, |loc.headers|)
  {
    DetailsFromSplit(e, loc, i + 1, |loc.headers|);
  }

  /** The title of a popup, with the spreadsheet row number. */
  function PopupHead(e: Engine, loc: Location): string {
    "<div class=\"info-popup\"><h4>📍 위치 정보 (Row " + ToStr(e, Num(loc.rowIndex as real)) + ")</h4>"
  }

  /** The popup of a marker: the spreadsheet row number, the shown cells and
      the group name, truncated like the cells. */
  function CreatePopupContent(e: Engine, loc: Location, groupName: string): (r: string)
    ensures PopupHead(e, loc) <= r
    ensures var tail := DetailRow("그룹", Truncate(groupName)) + "</div>";
      |tail| <= |r| && r[|r| - |tail|..] == tail
    ensures r == PopupHead(e, loc) + DetailsHtml(e, loc, |loc.headers|) + DetailRow("그룹", Truncate(groupName)) + "</div>"
  {
    var head := PopupHead(e, loc);
    var details := DetailsHtml(e, loc, |loc.headers|);
    var tail := DetailRow("그룹", Truncate(groupName)) + "</div>";
    Framed(head, details, tail);
    head + details + tail
  }

  /** A location none of whose values is shown gets a popup with just the
      title and the group row. */
  lemma PopupWithoutDetails(e: Engine, loc: Location, groupName: string)
    requires forall i | 0 <= i < |loc.headers| :: ShownValue(e, Lookup(loc.convertedData, i)).None?
    ensures CreatePopupContent(e, loc, groupName) ==
      PopupHead(e, loc) + DetailRow("그룹", Truncate(groupName)) + "</div>"
  {
    DetailsEmpty(e, loc, |loc.headers|);
  }

  lemma Regrouped<T>(prev: seq<T>, head: seq<T>, middle: seq<T>, row: seq<T>)
    requires prev == head + middle
    ensures prev + row == head + (middle + row)
  {
  }

  lemma Framed<T>(head: seq<T>, body: seq<T>, tail: seq<T>)
    ensures var r := head + body + tail;
      head <= r && |tail| <= |r| && r[|r| - |tail|..] == tail
  {
  }
}
