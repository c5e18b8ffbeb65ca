// What a table shows, character by character (src/output/table.rs).

module TableText {
  import opened Numbers
  import opened Wrappers
  import opened TableLayout

  // ---- Escapes. ----

  predicate IsHexOf(c: char, n: int) {
    if n < 10 then c as int == 48 + n else c as int == 87 + n
  }

  /** How each character is shown: three controls by a letter, the others by four hexadecimal digits. */
  lemma ShownMeans(c: char)
    ensures c as int == 10 ==> Shown(c) == "\\n"
    ensures c as int == 13 ==> Shown(c) == "\\r"
    ensures c as int == 9 ==> Shown(c) == "\\t"
    ensures 32 <= c as int < 127 || 160 <= c as int ==> Shown(c) == [c]
    ensures (c as int < 32 && c as int != 9 && c as int != 10 && c as int != 13) || 127 <= c as int < 160 ==>
              && |Shown(c)| == 8 && Shown(c)[..5] == "\\u{00" && Shown(c)[7] == '}'
              && IsHexOf(Shown(c)[5], c as int / 16) && IsHexOf(Shown(c)[6], c as int % 16)
  {
  }

  // ---- Cells. ----

  const DOTS: string := "..."

  /** A text that fits is shown in full, one that does not by its beginning and up to three dots. */
  lemma CellMeans(text: string, width: nat, cw: CharWidth)
    requires AsciiIsOneWide(cw)
    ensures var cell := Cell(Some(text), width, cw);
            if Width(Shows(text), cw) <= width then cell == Shows(text)
            else exists kept :: kept <= Shows(text) && cell == kept + DOTS[..Min(width, 3)]
  {
    EscapeWithinMeans(text, width, cw);
    var escaped := EscapeWithin(text, width, cw);
    if escaped.truncated {
      var kept := Fitting(escaped.prefix, width - Min(width, 3), cw);
      FittingMeans(escaped.prefix, width - Min(width, 3), cw);
      MarkerMeans(width);
      assert kept <= Shows(text) && Cell(Some(text), width, cw) == kept + DOTS[..Min(width, 3)];
    }
  }

  lemma MarkerMeans(width: nat)
    ensures Marker(width) == DOTS[..Min(width, 3)]
  {
    assert Repeat('.', 1) == "." && Repeat('.', 2) == ".." && Repeat('.', 3) == "...";
  }

  /** A NULL is shown as such wherever four characters fit. */
  lemma NullMeans(width: nat, cw: CharWidth)
    requires AsciiIsOneWide(cw) && 4 <= width
    ensures Cell(None, width, cw) == "NULL"
  {
    assert "NULL"[1..] == "ULL" && "ULL"[1..] == "LL" && "LL"[1..] == "L" && "L"[1..] == "";
    assert Width("L", cw) == 1 && Width("LL", cw) == 2 && Width("ULL", cw) == 3;
  }

  /** A header that fits the display and its column is shown in full. */
  lemma HeaderMeans(columns: seq<string>, widths: seq<nat>, displayWidth: nat, cw: CharWidth, k: nat)
    requires |columns| == |widths| && k < |columns| && AsciiIsOneWide(cw)
    requires Width(Shows(columns[k]), cw) <= displayWidth && Width(Shows(columns[k]), cw) <= widths[k]
    ensures Headers(columns, widths, displayWidth, cw)[k] == Shows(columns[k])
  {
    EscapedFits(columns[k], displayWidth, cw);
  }

  // ---- Lines. ----

  predicate AllAre(s: string, c: char) {
    forall k :: 0 <= k < |s| ==> s[k] == c
  }

  /** A line is its first cell, blanks up to the width of the column, a bar, and the line of the other cells. */
  lemma LineMeans(cells: seq<string>, widths: seq<nat>, cw: CharWidth) returns (blanks: string)
    requires |cells| == |widths| > 0 && Width(cells[0], cw) <= widths[0]
    ensures AllAre(blanks, ' ') && |blanks| == widths[0] - Width(cells[0], cw)
    ensures TableLine(cells, widths, cw)
         == if |cells| == 1 then cells[0] + blanks
            else cells[0] + blanks + "|" + TableLine(cells[1..], widths[1..], cw)
  {
    blanks := Repeat(' ', widths[0] - Width(cells[0], cw));
    RepeatIs(' ', |blanks|);
    var padded := PaddedCells(cells, widths, cw);
    assert padded[1..] == PaddedCells(cells[1..], widths[1..], cw);
  }

  /** The rule under the header is a run of dashes per column, joined by plus signs. */
  lemma RuleMeans(widths: seq<nat>) returns (dashes: string)
    requires widths != []
    ensures AllAre(dashes, '-') && |dashes| == widths[0]
    ensures SeparatorLine(widths)
         == if |widths| == 1 then dashes else dashes + "+" + SeparatorLine(widths[1..])
  {
    dashes := Repeat('-', widths[0]);
    RepeatIs('-', widths[0]);
    assert Dashes(widths)[1..] == Dashes(widths[1..]);
  }
}
