// The table layout: how a display width is shared among columns, and how headers
// and cells are cut to fit (src/output/table.rs). Display width is taken to be
// additive over characters; `cw` gives the width of each.

module TableLayout {
  import opened Wrappers
  import opened Numbers

  function Sum(widths: seq<nat>): nat {
    if widths == [] then 0 else widths[0] + Sum(widths[1..])
  }

  lemma {:induction false} SumUpdate(widths: seq<nat>, k: nat, w: nat)
    requires k < |widths|
    ensures Sum(widths[k := w]) + widths[k] == Sum(widths) + w
  {
    if k > 0 {
      SumUpdate(widths[1..], k - 1, w);
      assert widths[k := w][1..] == widths[1..][k - 1 := w];
    } else {
      assert widths[k := w][1..] == widths[1..];
    }
  }

  lemma {:induction false} SumOfOnes(widths: seq<nat>)
    requires forall k :: 0 <= k < |widths| ==> widths[k] == 1
    ensures Sum(widths) == |widths|
  {
    if widths != [] {
      SumOfOnes(widths[1..]);
    }
  }

  /** What each column has once `cut` columns of the next round are served. */
  ghost predicate Levelled(widths: seq<nat>, desired: seq<nat>, level: nat, cut: nat) {
    && |widths| == |desired|
    && forall k :: 0 <= k < |widths| ==> widths[k] == Min(desired[k], if k < cut then level + 1 else level)
  }

  /** Extra room is dealt out in whole rounds and one part of a round. */
  ghost predicate Dealt(before: seq<nat>, after: seq<nat>, rounds: nat, cut: nat) {
    && |before| == |after|
    && forall k :: 0 <= k < |after| ==> after[k] == before[k] + rounds + (if k < cut then 1 else 0)
  }

  /** One round over the columns that are still short of their header, while room remains. */
  method ServeRound(widths: array<nat>, desired: seq<nat>, room: nat, ghost level: nat)
    returns (remaining: nat, grew: bool, ghost cut: nat)
    requires widths.Length == |desired| && Levelled(widths[..], desired, level, 0)
    modifies widths
    ensures cut <= |desired| && Levelled(widths[..], desired, level, cut)
    ensures Sum(widths[..]) + remaining == Sum(old(widths[..])) + room
    ensures grew <==> remaining < room
    ensures remaining > 0 ==> cut == |desired|
    ensures !grew && room > 0 ==> widths[..] == desired && widths[..] == old(widths[..])
  {
    remaining, grew := room, false;
    var index := 0;
    while index < widths.Length
      invariant index <= widths.Length && remaining <= room
      invariant Levelled(widths[..], desired, level, index)
      invariant Sum(widths[..]) + remaining == Sum(old(widths[..])) + room
      invariant grew <==> remaining < room
      invariant !grew ==> widths[..] == old(widths[..]) && forall k :: 0 <= k < index ==> desired[k] <= level
    {
      if remaining == 0 {
        return remaining, grew, index;
      }
      if widths[index] < desired[index] {
        ghost var was, next := widths[..], widths[..][index := widths[index] + 1];
        SumUpdate(was, index, widths[index] + 1);
        LevelUp(was, desired, level, index);
        widths[index] := widths[index] + 1;
        assert widths[..] == next;
        remaining := remaining - 1;
        grew := true;
      } else {
        StayLevel(widths[..], desired, level, index);
      }
      index := index + 1;
    }
    cut := index;
    if !grew {
      AllServed(widths[..], desired, level);
    }
  }

  lemma LevelUp(widths: seq<nat>, desired: seq<nat>, level: nat, index: nat)
    requires index < |widths| && Levelled(widths, desired, level, index) && widths[index] < desired[index]
    ensures Levelled(widths[index := widths[index] + 1], desired, level, index + 1)
  {
  }

  lemma StayLevel(widths: seq<nat>, desired: seq<nat>, level: nat, index: nat)
    requires index < |widths| && Levelled(widths, desired, level, index) && widths[index] >= desired[index]
    ensures Levelled(widths, desired, level, index + 1) && desired[index] <= level
  {
  }

  lemma AllServed(widths: seq<nat>, desired: seq<nat>, level: nat)
    requires Levelled(widths, desired, level, |desired|) && forall k :: 0 <= k < |desired| ==> desired[k] <= level
    ensures widths == desired
  {
  }

  /** The room left once every column has one character and its separator. */
  function Available(columns: nat, displayWidth: nat): nat
    requires columns > 0
  {
    Max(if displayWidth < columns - 1 then 0 else displayWidth - (columns - 1), columns)
  }

  /** Room for headers first, level by level; what is then left is dealt out in order. */
  method ColumnWidths(desired: seq<nat>, displayWidth: nat)
    returns (result: seq<nat>, ghost header: seq<nat>, ghost level: nat, ghost cut: nat, ghost rounds: nat,
             ghost rest: nat)
    requires forall k :: 0 <= k < |desired| ==> desired[k] >= 1
    ensures |result| == |desired| && forall k :: 0 <= k < |result| ==> result[k] >= 1
    ensures desired != [] ==>
              && Sum(result) == Available(|desired|, displayWidth)
              && level >= 1 && cut <= |desired| && Levelled(header, desired, level, cut)
              && rest < |desired| && Dealt(header, result, rounds, rest)
              && (header == desired || (rounds == 0 && rest == 0))
    ensures |header| == |desired|
    ensures forall a, b :: 0 <= a < |header| && 0 <= b < |header| && header[a] < desired[a] && header[b] < desired[b]
              ==> header[a] <= header[b] + 1
  {
    header, level, cut, rounds, rest := [], 1, 0, 0, 0;
    if desired == [] {
      return [], header, level, cut, rounds, rest;
    }
    var widths := new nat[|desired|](_ => 1);
    SumOfOnes(widths[..]);
    var remaining: nat := Available(|desired|, displayWidth) - |desired|;
    while remaining > 0
      invariant cut <= |desired| && level >= 1
      invariant remaining > 0 ==> cut == 0
      invariant Levelled(widths[..], desired, level, cut)
      invariant Sum(widths[..]) + remaining == Available(|desired|, displayWidth)
      decreases remaining
    {
      var grew;
      remaining, grew, cut := ServeRound(widths, desired, remaining, level);
      if !grew {
        break;
      }
      if remaining > 0 {
        level, cut := level + 1, 0;
      }
    }
    header := widths[..];
    rounds, rest := DealOut(widths, remaining);
    result := widths[..];
  }

  /** Extra room goes to the columns in turn. */
  method DealOut(widths: array<nat>, room: nat) returns (ghost rounds: nat, ghost rest: nat)
    requires widths.Length > 0
    modifies widths
    ensures Sum(widths[..]) == Sum(old(widths[..])) + room
    ensures rest < widths.Length && Dealt(old(widths[..]), widths[..], rounds, rest)
    ensures room == 0 ==> rounds == 0 && rest == 0
  {
    rounds, rest := 0, 0;
    var index, taken := 0, 0;
    while taken < room
      invariant taken <= room && index == rest < widths.Length
      invariant Sum(widths[..]) == Sum(old(widths[..])) + taken
      invariant Dealt(old(widths[..]), widths[..], rounds, rest)
      invariant taken == 0 ==> rounds == 0 && rest == 0
    {
      SumUpdate(widths[..], index, widths[index] + 1);
      ghost var next := widths[..][index := widths[index] + 1];
      widths[index] := widths[index] + 1;
      assert widths[..] == next;
      taken := taken + 1;
      if index + 1 == widths.Length {
        index, rest, rounds := 0, 0, rounds + 1;
      } else {
        index, rest := index + 1, rest + 1;
      }
    }
  }

  // ---- Texts on the display. ----

  type CharWidth = char -> nat

  function Width(s: string, cw: CharWidth): nat {
    if s == "" then 0 else cw(s[0]) + Width(s[1..], cw)
  }

  lemma {:induction false} WidthConcat(a: string, b: string, cw: CharWidth)
    ensures Width(a + b, cw) == Width(a, cw) + Width(b, cw)
  {
    if a == "" {
      assert a + b == b;
    } else {
      WidthConcat(a[1..], b, cw);
      assert (a + b)[1..] == a[1..] + b;
    }
  }

  /** Every printable ASCII character takes one column. */
  ghost predicate AsciiIsOneWide(cw: CharWidth) {
    forall c: char :: ' ' <= c <= '~' ==> cw(c) == 1
  }

  function Repeat(c: char, n: nat): (r: string)
    ensures |r| == n
  {
    if n == 0 then "" else [c] + Repeat(c, n - 1)
  }

  lemma {:induction false} RepeatWidth(c: char, n: nat, cw: CharWidth)
    requires cw(c) == 1
    ensures Width(Repeat(c, n), cw) == n
  {
    if n > 0 {
      RepeatWidth(c, n - 1, cw);
      assert Repeat(c, n)[1..] == Repeat(c, n - 1);
    }
  }

  /** The longest prefix that stays within a width, cut at the first character that does not fit. */
  function Fitting(s: string, budget: nat, cw: CharWidth): string {
    if s == "" || cw(s[0]) > budget then "" else [s[0]] + Fitting(s[1..], budget - cw(s[0]), cw)
  }

  lemma {:induction false} FittingMeans(s: string, budget: nat, cw: CharWidth)
    ensures var r := Fitting(s, budget, cw);
            && r <= s && Width(r, cw) <= budget
            && (|r| < |s| ==> Width(r, cw) + cw(s[|r|]) > budget)
  {
    if s != "" && cw(s[0]) <= budget {
      FittingMeans(s[1..], budget - cw(s[0]), cw);
      assert Fitting(s, budget, cw)[1..] == Fitting(s[1..], budget - cw(s[0]), cw);
    }
  }

  method TakeFitting(s: string, budget: nat, cw: CharWidth) returns (output: string)
    ensures output == Fitting(s, budget, cw)
  {
    output := "";
    var used := 0;
    var k := 0;
    ghost var rest := Fitting(s, budget, cw);
    assert s[0..] == s;
    while k < |s|
      invariant k <= |s| && used <= budget
      invariant rest == Fitting(s[k..], budget - used, cw)
      invariant output + rest == Fitting(s, budget, cw)
    {
      assert s[k..][1..] == s[k + 1..];
      if used + cw(s[k]) > budget {
        return;
      }
      rest := Fitting(s[k + 1..], budget - used - cw(s[k]), cw);
      assert output + ([s[k]] + rest) == (output + [s[k]]) + rest;
      output := output + [s[k]];
      used := used + cw(s[k]);
      k := k + 1;
    }
  }

  function Marker(width: nat): string {
    Repeat('.', Min(width, 3))
  }

  /** A text that is too wide keeps what fits before a marker of at most three dots. */
  function Truncated(value: string, width: nat, cw: CharWidth): string {
    if Width(value, cw) <= width then value
    else Fitting(value, width - Min(width, 3), cw) + Marker(width)
  }

  method TruncateToWidth(value: string, width: nat, cw: CharWidth) returns (output: string)
    ensures output == Truncated(value, width, cw)
  {
    if Width(value, cw) <= width {
      return value;
    }
    output := TakeFitting(value, width - Min(width, 3), cw);
    output := output + Marker(width);
  }

  lemma TruncatedFits(value: string, width: nat, cw: CharWidth)
    requires AsciiIsOneWide(cw)
    ensures Width(Truncated(value, width, cw), cw) <= width
  {
    RepeatWidth('.', Min(width, 3), cw);
    FittingMeans(value, width - Min(width, 3), cw);
    WidthConcat(Fitting(value, width - Min(width, 3), cw), Marker(width), cw);
  }

  // ---- Escaping within a width. ----

  predicate IsControl(c: char) {
    c as int < 0x20 || 0x7F <= c as int <= 0x9F
  }

  function HexChar(n: nat): char
    requires n < 16
  {
    if n < 10 then '0' + n as char else 'a' + (n - 10) as char
  }

  /** How one character is shown: controls by a visible escape, everything else by itself. */
  function Shown(c: char): (r: string)
    ensures |r| >= 1 && forall k :: 0 <= k < |r| ==> !IsControl(r[k])
    ensures IsControl(c) ==> forall k :: 0 <= k < |r| ==> ' ' <= r[k] <= '~'
    ensures !IsControl(c) ==> r == [c]
  {
    if c == '\n' then "\\n"
    else if c == '\r' then "\\r"
    else if c == '\t' then "\\t"
    else if IsControl(c) then
      ['\\', 'u', '{', '0', '0', HexChar(c as int / 16), HexChar(c as int % 16), '}']
    else [c]
  }

  /** The escaped text as far as whole escapes fit, and whether something was left out. */
  datatype Escaped = Escaped(prefix: string, truncated: bool)

  function EscapeWithin(value: string, budget: nat, cw: CharWidth): Escaped {
    if value == "" then Escaped("", false)
    else
      var shown := Shown(value[0]);
      if Width(shown, cw) > budget then Escaped("", true)
      else
        var rest := EscapeWithin(value[1..], budget - Width(shown, cw), cw);
        Escaped(shown + rest.prefix, rest.truncated)
  }

  function EscapedToWidth(value: string, width: nat, cw: CharWidth): string {
    var escaped := EscapeWithin(value, width, cw);
    if !escaped.truncated then escaped.prefix
    else Fitting(escaped.prefix, width - Min(width, 3), cw) + Marker(width)
  }

  function Shows(value: string): string {
    if value == "" then "" else Shown(value[0]) + Shows(value[1..])
  }

  lemma {:induction false} EscapeWithinMeans(value: string, budget: nat, cw: CharWidth)
    ensures var escaped := EscapeWithin(value, budget, cw);
            && Width(escaped.prefix, cw) <= budget
            && escaped.prefix <= Shows(value)
            && (!escaped.truncated ==> escaped.prefix == Shows(value))
            && (escaped.truncated <==> Width(Shows(value), cw) > budget)
            && forall k :: 0 <= k < |escaped.prefix| ==> !IsControl(escaped.prefix[k])
  {
    if value != "" {
      var shown := Shown(value[0]);
      WidthConcat(shown, Shows(value[1..]), cw);
      if Width(shown, cw) <= budget {
        var rest := EscapeWithin(value[1..], budget - Width(shown, cw), cw);
        EscapeWithinMeans(value[1..], budget - Width(shown, cw), cw);
        WidthConcat(shown, rest.prefix, cw);
      }
    }
  }

  lemma EscapeStep(value: string, k: nat, budget: nat, cw: CharWidth)
    requires k < |value|
    ensures var shown := Shown(value[k]);
            EscapeWithin(value[k..], budget, cw)
            == if Width(shown, cw) > budget then Escaped("", true)
               else
                 var rest := EscapeWithin(value[k + 1..], budget - Width(shown, cw), cw);
                 Escaped(shown + rest.prefix, rest.truncated)
  {
    assert value[k..][1..] == value[k + 1..];
  }

  /** Two loops: escape while it fits, and make room for the marker if it did not. */
  method EscapeTerminalTextToWidth(value: string, width: nat, cw: CharWidth) returns (output: string)
    ensures output == EscapedToWidth(value, width, cw)
  {
    hide EscapeWithin;
    hide Fitting;
    hide Width;
    hide Shown;
    var prefix := "";
    var used := 0;
    var k := 0;
    ghost var rest := EscapeWithin(value, width, cw);
    assert value[0..] == value;
    while k < |value|
      invariant k <= |value| && used <= width
      invariant rest == EscapeWithin(value[k..], width - used, cw)
      invariant EscapeWithin(value, width, cw) == Escaped(prefix + rest.prefix, rest.truncated)
    {
      var shown := Shown(value[k]);
      EscapeStep(value, k, width - used, cw);
      if used + Width(shown, cw) > width {
        assert prefix + "" == prefix;
        output := TakeFitting(prefix, width - Min(width, 3), cw);
        output := output + Marker(width);
        return;
      }
      rest := EscapeWithin(value[k + 1..], width - used - Width(shown, cw), cw);
      assert prefix + (shown + rest.prefix) == (prefix + shown) + rest.prefix;
      prefix := prefix + shown;
      used := used + Width(shown, cw);
      k := k + 1;
    }
    EscapeNothing(value[k..], width - used, cw);
    assert prefix + "" == prefix;
    return prefix;
  }

  lemma EscapeNothing(value: string, budget: nat, cw: CharWidth)
    requires value == ""
    ensures EscapeWithin(value, budget, cw) == Escaped("", false)
  {
  }

  /** What is shown fits the width, holds no control character, and is the whole text whenever that fits. */
  lemma EscapedFits(value: string, width: nat, cw: CharWidth)
    requires AsciiIsOneWide(cw)
    ensures var shown := EscapedToWidth(value, width, cw);
            && Width(shown, cw) <= width
            && (Width(Shows(value), cw) <= width ==> shown == Shows(value))
            && forall k :: 0 <= k < |shown| ==> !IsControl(shown[k])
  {
    EscapeWithinMeans(value, width, cw);
    var escaped := EscapeWithin(value, width, cw);
    var kept := Fitting(escaped.prefix, width - Min(width, 3), cw);
    RepeatWidth('.', Min(width, 3), cw);
    RepeatIs('.', Min(width, 3));
    FittingMeans(escaped.prefix, width - Min(width, 3), cw);
    WidthConcat(kept, Marker(width), cw);
  }

  lemma {:induction false} RepeatIs(c: char, n: nat)
    ensures forall k :: 0 <= k < n ==> Repeat(c, n)[k] == c
  {
    if n > 0 {
      RepeatIs(c, n - 1);
    }
  }

  // ---- Lines. ----

  function Padded(value: string, width: nat, cw: CharWidth): string {
    value + Repeat(' ', Max(0, width - Width(value, cw)))
  }

  function JoinWith(parts: seq<string>, separator: char): string {
    if parts == [] then ""
    else if |parts| == 1 then parts[0]
    else parts[0] + [separator] + JoinWith(parts[1..], separator)
  }

  function PaddedCells(cells: seq<string>, widths: seq<nat>, cw: CharWidth): (r: seq<string>)
    requires |cells| == |widths|
    ensures |r| == |cells|
  {
    if cells == [] then [] else [Padded(cells[0], widths[0], cw)] + PaddedCells(cells[1..], widths[1..], cw)
  }

  function Dashes(widths: seq<nat>): (r: seq<string>)
    ensures |r| == |widths|
  {
    if widths == [] then [] else [Repeat('-', widths[0])] + Dashes(widths[1..])
  }

  function TableLine(cells: seq<string>, widths: seq<nat>, cw: CharWidth): string
    requires |cells| == |widths|
  {
    JoinWith(PaddedCells(cells, widths, cw), '|')
  }

  function SeparatorLine(widths: seq<nat>): string {
    JoinWith(Dashes(widths), '+')
  }

  lemma {:induction false} JoinWidth(parts: seq<string>, widths: seq<nat>, separator: char, cw: CharWidth)
    requires |parts| == |widths| > 0 && cw(separator) == 1
    requires forall k :: 0 <= k < |parts| ==> Width(parts[k], cw) == widths[k]
    ensures Width(JoinWith(parts, separator), cw) == Sum(widths) + |widths| - 1
  {
    if |parts| == 1 {
      assert widths[1..] == [];
    } else {
      JoinWidth(parts[1..], widths[1..], separator, cw);
      var rest := JoinWith(parts[1..], separator);
      WidthConcat(parts[0] + [separator], rest, cw);
      WidthConcat(parts[0], [separator], cw);
      assert [separator][1..] == "";
    }
  }

  lemma {:induction false} PaddedWidths(cells: seq<string>, widths: seq<nat>, cw: CharWidth)
    requires |cells| == |widths| && AsciiIsOneWide(cw)
    requires forall k :: 0 <= k < |cells| ==> Width(cells[k], cw) <= widths[k]
    ensures forall k :: 0 <= k < |cells| ==> Width(PaddedCells(cells, widths, cw)[k], cw) == widths[k]
  {
    if cells != [] {
      PaddedWidths(cells[1..], widths[1..], cw);
      var room := widths[0] - Width(cells[0], cw);
      RepeatWidth(' ', room, cw);
      WidthConcat(cells[0], Repeat(' ', room), cw);
    }
  }

  lemma {:induction false} DashWidths(widths: seq<nat>, cw: CharWidth)
    requires AsciiIsOneWide(cw)
    ensures forall k :: 0 <= k < |widths| ==> Width(Dashes(widths)[k], cw) == widths[k]
  {
    if widths != [] {
      DashWidths(widths[1..], cw);
      RepeatWidth('-', widths[0], cw);
    }
  }

  /** What a row shows in a column of this width. */
  function Cell(value: Option<string>, width: nat, cw: CharWidth): string {
    match value
    case Some(text) => EscapedToWidth(text, width, cw)
    case None => Truncated("NULL", width, cw)
  }

  function Cells(row: seq<Option<string>>, widths: seq<nat>, cw: CharWidth): (r: seq<string>)
    requires |row| == |widths|
    ensures |r| == |row| && forall k :: 0 <= k < |row| ==> r[k] == Cell(row[k], widths[k], cw)
  {
    seq(|row|, k requires 0 <= k < |row| => Cell(row[k], widths[k], cw))
  }

  /** The escaped headers, before they are cut to their columns. */
  function EscapedHeaders(columns: seq<string>, displayWidth: nat, cw: CharWidth): (r: seq<string>)
    ensures |r| == |columns|
  {
    seq(|columns|, k requires 0 <= k < |columns| => EscapedToWidth(columns[k], displayWidth, cw))
  }

  function Headers(columns: seq<string>, widths: seq<nat>, displayWidth: nat, cw: CharWidth): (r: seq<string>)
    requires |columns| == |widths|
    ensures |r| == |columns|
  {
    var escaped := EscapedHeaders(columns, displayWidth, cw);
    seq(|columns|, k requires 0 <= k < |columns| => Truncated(escaped[k], widths[k], cw))
  }

  function Desired(headers: seq<string>, cw: CharWidth): (r: seq<nat>)
    ensures |r| == |headers| && forall k :: 0 <= k < |r| ==> r[k] >= 1
  {
    seq(|headers|, k requires 0 <= k < |headers| => Max(Width(headers[k], cw), 1))
  }

  /**
   * The header, the rule under it and every row have the same display width: the
   * width of the display, or one character and a separator per column if it is
   * narrower than that.
   */
  method LayOut(columns: seq<string>, displayWidth: nat, cw: CharWidth) returns (widths: seq<nat>)
    requires AsciiIsOneWide(cw) && columns != []
    ensures |widths| == |columns|
    ensures var line := Max(displayWidth, 2 * |columns| - 1);
            && Width(TableLine(Headers(columns, widths, displayWidth, cw), widths, cw), cw) == line
            && Width(SeparatorLine(widths), cw) == line
            && forall row: seq<Option<string>> :: |row| == |widths| ==>
                 Width(TableLine(Cells(row, widths, cw), widths, cw), cw) == line
  {
    var desired := Desired(EscapedHeaders(columns, displayWidth, cw), cw);
    ghost var header, level, cut, rounds, rest;
    widths, header, level, cut, rounds, rest := ColumnWidths(desired, displayWidth);
    HeaderLine(columns, widths, displayWidth, cw);
    DashWidths(widths, cw);
    JoinWidth(Dashes(widths), widths, '+', cw);
    forall row: seq<Option<string>> | |row| == |widths|
      ensures Width(TableLine(Cells(row, widths, cw), widths, cw), cw) == Sum(widths) + |widths| - 1
    {
      RowLine(row, widths, cw);
    }
  }

  lemma LineWidth(cells: seq<string>, widths: seq<nat>, cw: CharWidth)
    requires |cells| == |widths| > 0 && AsciiIsOneWide(cw)
    requires forall k :: 0 <= k < |cells| ==> Width(cells[k], cw) <= widths[k]
    ensures Width(TableLine(cells, widths, cw), cw) == Sum(widths) + |widths| - 1
  {
    PaddedWidths(cells, widths, cw);
    JoinWidth(PaddedCells(cells, widths, cw), widths, '|', cw);
  }

  lemma RowLine(row: seq<Option<string>>, widths: seq<nat>, cw: CharWidth)
    requires |row| == |widths| > 0 && AsciiIsOneWide(cw)
    ensures Width(TableLine(Cells(row, widths, cw), widths, cw), cw) == Sum(widths) + |widths| - 1
  {
    hide EscapedToWidth;
    hide Truncated;
    forall k | 0 <= k < |row|
      ensures Width(Cells(row, widths, cw)[k], cw) <= widths[k]
    {
      match row[k]
      case Some(text) => EscapedFits(text, widths[k], cw);
      case None => TruncatedFits("NULL", widths[k], cw);
    }
    LineWidth(Cells(row, widths, cw), widths, cw);
  }

  lemma HeaderLine(columns: seq<string>, widths: seq<nat>, displayWidth: nat, cw: CharWidth)
    requires |columns| == |widths| > 0 && AsciiIsOneWide(cw)
    ensures Width(TableLine(Headers(columns, widths, displayWidth, cw), widths, cw), cw) == Sum(widths) + |widths| - 1
  {
    hide Truncated;
    var headers := Headers(columns, widths, displayWidth, cw);
    forall k | 0 <= k < |headers|
      ensures Width(headers[k], cw) <= widths[k]
    {
      TruncatedFits(EscapedHeaders(columns, displayWidth, cw)[k], widths[k], cw);
    }
    LineWidth(headers, widths, cw);
  }
}
