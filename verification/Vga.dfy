/** The 80 by 25 text screen as a window on an endless sheet of paper. */
module Vga {
  /** One 8-bit character written, with the colour set at that time. */
  datatype Stroke = Stroke(c: nat, color: nat)

  /** The 16-bit screen cell: the character in the low byte, the colour in the high one. Characters are
      signed in the source, so from 0x80 on the sign fills the high byte. */
  function Cell(c: nat, color: nat): nat {
    if c < 0x80 then c + 256 * color else 0xFF00 + c
  }

  /** What a cell shows: the character, with the colour as long as the character is an ASCII one. */
  lemma CellShows(c: nat, color: nat)
    requires c < 256 && color < 256
    ensures Cell(c, color) < 0x1_0000 && Cell(c, color) % 256 == c
    ensures Cell(c, color) / 256 == color <==> c < 0x80 || color == 0xFF
  {
  }

  function BlankRow(color: nat): (r: seq<nat>)
    ensures |r| == 80
  {
    seq(80, _ => Cell(0x20, color))
  }

  // ---------------------------------------------------------------------------
  // The sheet of paper: rows are only ever added, never moved
  // ---------------------------------------------------------------------------

  /** All rows written so far (at least a screenful) and the place of the next character. */
  datatype Paper = Paper(rows: seq<seq<nat>>, row: nat, col: nat)

  ghost predicate Proper(p: Paper) {
    && |p.rows| >= 25 && p.row < |p.rows| && p.col < 80
    && (forall i :: 0 <= i < |p.rows| ==> |p.rows[i]| == 80)
    && (|p.rows| > 25 ==> p.row == |p.rows| - 1)
  }

  function FreshPaper(color: nat): Paper {
    Paper(seq(25, _ => BlankRow(color)), 0, 0)
  }

  function Overwrite(rows: seq<seq<nat>>, z: nat, s: nat, v: nat): (r: seq<seq<nat>>)
    requires z < |rows| && s < |rows[z]|
  {
    var line: seq<nat> := rows[z][s := v];
    rows[z := line]
  }

  /** The next row, on new paper if this was the last one. */
  function NextRow(p: Paper, color: nat): Paper {
    Paper(if p.row + 1 == |p.rows| then p.rows + [BlankRow(color)] else p.rows, p.row + 1, 0)
  }

  function Type(p: Paper, k: Stroke): Paper
    requires Proper(p)
  {
    if k.c == 0x0A then NextRow(p, k.color)
    else
      var q := p.(rows := Overwrite(p.rows, p.row, p.col, Cell(k.c, k.color)), col := p.col + 1);
      if q.col >= 80 then NextRow(q, k.color) else q
  }

  lemma TypeKeepsProper(p: Paper, k: Stroke)
    requires Proper(p)
    ensures Proper(Type(p, k))
  {
  }

  /** The sheet after typing the whole text. */
  ghost function TypeAll(p: Paper, text: seq<Stroke>): (q: Paper)
    requires Proper(p)
    ensures Proper(q)
  {
    if text == [] then p
    else
      var before := TypeAll(p, text[..|text| - 1]);
      TypeKeepsProper(before, text[|text| - 1]);
      Type(before, text[|text| - 1])
  }

  /** Text without line breaks fills the sheet row by row: character n is in row n / 80, column n % 80. */
  lemma {:induction false} PlainTextLayout(clearColor: nat, text: seq<Stroke>)
    requires forall i :: 0 <= i < |text| ==> text[i].c != 0x0A
    ensures var p := TypeAll(FreshPaper(clearColor), text);
            && p.row == |text| / 80 && p.col == |text| % 80
            && forall n :: 0 <= n < |text| ==>
                 n / 80 < |p.rows| && p.rows[n / 80][n % 80] == Cell(text[n].c, text[n].color)
  {
    if text != [] {
      var k := |text| - 1;
      PlainTextLayout(clearColor, text[..k]);
      var p, q := TypeAll(FreshPaper(clearColor), text[..k]), TypeAll(FreshPaper(clearColor), text);
      forall n | 0 <= n < |text|
        ensures n / 80 < |q.rows| && q.rows[n / 80][n % 80] == Cell(text[n].c, text[n].color)
      {
        if n < k {
          assert text[..k][n] == text[n];
          assert n / 80 != k / 80 || n % 80 != k % 80;
        }
      }
    }
  }

  // ---------------------------------------------------------------------------
  // The layout of any text, without reference to typing
  // ---------------------------------------------------------------------------

  /** The stretches of the text between its line breaks. */
  function Segments(text: seq<Stroke>): (r: seq<seq<Stroke>>)
    ensures r != []
  {
    if text == [] then [[]]
    else
      var s, k := Segments(text[..|text| - 1]), text[|text| - 1];
      if k.c == 0x0A then s + [[]] else s[..|s| - 1] + [s[|s| - 1] + [k]]
  }

  function CellsOf(seg: seq<Stroke>): (r: seq<nat>)
    ensures |r| == |seg| && forall i :: 0 <= i < |seg| ==> r[i] == Cell(seg[i].c, seg[i].color)
  {
    seq(|seg|, i requires 0 <= i < |seg| => Cell(seg[i].c, seg[i].color))
  }

  /** A stretch cut into rows of 80, the last one shorter and possibly empty. */
  function Wrapped(seg: seq<Stroke>): (r: seq<seq<nat>>)
    ensures r != [] && |r[|r| - 1]| < 80 && forall i :: 0 <= i < |r| ==> |r[i]| <= 80
  {
    if |seg| < 80 then [CellsOf(seg)] else [CellsOf(seg[..80])] + Wrapped(seg[80..])
  }

  function Layout(segs: seq<seq<Stroke>>): (r: seq<seq<nat>>)
    ensures forall i :: 0 <= i < |r| ==> |r[i]| <= 80
    ensures segs != [] ==> r != [] && |r[|r| - 1]| < 80
  {
    if segs == [] then [] else Layout(segs[..|segs| - 1]) + Wrapped(segs[|segs| - 1])
  }

  /** One more cell at the end of the last row; a full row is followed by an empty one. */
  function Lengthened(rows: seq<seq<nat>>, v: nat): seq<seq<nat>>
    requires rows != []
  {
    var line := rows[|rows| - 1] + [v];
    rows[..|rows| - 1] + if |line| < 80 then [line] else [line, []]
  }

  lemma {:induction false} WrappedOneMore(seg: seq<Stroke>, k: Stroke)
    ensures Wrapped(seg + [k]) == Lengthened(Wrapped(seg), Cell(k.c, k.color))
    decreases |seg|
  {
    var longer := seg + [k];
    if |seg| < 79 {
      assert CellsOf(longer) == CellsOf(seg) + [Cell(k.c, k.color)];
    } else if |seg| == 79 {
      assert longer[..80] == longer && longer[80..] == [];
      assert CellsOf(longer) == CellsOf(seg) + [Cell(k.c, k.color)];
      assert CellsOf([]) == [];
    } else {
      assert longer[..80] == seg[..80] && longer[80..] == seg[80..] + [k];
      WrappedOneMore(seg[80..], k);
      LengthenedBehind([CellsOf(seg[..80])], Wrapped(seg[80..]), Cell(k.c, k.color));
    }
  }

  lemma LayoutOneMore(text: seq<Stroke>)
    requires text != []
    ensures var rows, k := Layout(Segments(text[..|text| - 1])), text[|text| - 1];
            Layout(Segments(text)) == if k.c == 0x0A then rows + [[]] else Lengthened(rows, Cell(k.c, k.color))
  {
    hide Wrapped;
    var s, k := Segments(text[..|text| - 1]), text[|text| - 1];
    var h, t := s[..|s| - 1], s[|s| - 1];
    if k.c == 0x0A {
      assert (s + [[]])[..|s|] == s;
      EmptyWrapped();
    } else {
      WrappedOneMore(t, k);
      assert (h + [t + [k]])[..|h|] == h;
      LengthenedBehind(Layout(h), Wrapped(t), Cell(k.c, k.color));
    }
  }

  lemma EmptyWrapped()
    ensures Wrapped([]) == [[]]
  {
    assert CellsOf([]) == [];
  }

  lemma LengthenedBehind(a: seq<seq<nat>>, b: seq<seq<nat>>, v: nat)
    requires b != []
    ensures Lengthened(a + b, v) == a + Lengthened(b, v)
  {
  }

  /** The sheet shows that layout: the rows agree as far as they go, all other cells are spaces, and the
      next character comes behind the last one. */
  ghost predicate LaidOut(p: Paper, rows: seq<seq<nat>>) {
    && Proper(p) && 0 < |rows| <= |p.rows| && p.row == |rows| - 1 && p.col == |rows[|rows| - 1]|
    && (forall z, s :: 0 <= z < |rows| && 0 <= s < |rows[z]| && s < 80 ==> p.rows[z][s] == rows[z][s])
    && (forall z, s :: 0 <= z < |p.rows| && 0 <= s < 80 && (z >= |rows| || s >= |rows[z]|) ==> p.rows[z][s] % 256 == 0x20)
  }

  lemma SpaceCell(color: nat)
    ensures Cell(0x20, color) % 256 == 0x20
  {
  }

  lemma BreakLaidOut(p: Paper, rows: seq<seq<nat>>, color: nat)
    requires LaidOut(p, rows)
    ensures LaidOut(NextRow(p, color), rows + [[]])
  {
    hide Cell;
    SpaceCell(color);
  }

  lemma CharLaidOut(p: Paper, rows: seq<seq<nat>>, k: Stroke)
    requires LaidOut(p, rows) && k.c != 0x0A
    ensures LaidOut(Type(p, k), Lengthened(rows, Cell(k.c, k.color)))
  {
    hide Cell;
    var v, z := Cell(k.c, k.color), |rows| - 1;
    var q := p.(rows := Overwrite(p.rows, p.row, p.col, v), col := p.col + 1);
    var longer := rows[..z] + [rows[z] + [v]];
    TypeKeepsProper(p, k);
    SpaceCell(k.color);
  }

  /** The sheet after typing any text is its layout: the stretches between line breaks, each cut into
      rows of 80. */
  lemma {:induction false} TextLayout(clearColor: nat, text: seq<Stroke>)
    ensures LaidOut(TypeAll(FreshPaper(clearColor), text), Layout(Segments(text)))
  {
    hide Segments, Layout, LaidOut;
    if text == [] {
      BlankLaidOut(clearColor);
    } else {
      var k := text[|text| - 1];
      var before, rows := TypeAll(FreshPaper(clearColor), text[..|text| - 1]), Layout(Segments(text[..|text| - 1]));
      TextLayout(clearColor, text[..|text| - 1]);
      LayoutOneMore(text);
      if k.c == 0x0A {
        BreakLaidOut(before, rows, k.color);
      } else {
        CharLaidOut(before, rows, k);
      }
    }
  }

  lemma BlankLaidOut(color: nat)
    ensures LaidOut(FreshPaper(color), Layout(Segments([])))
  {
    EmptyWrapped();
    var one: seq<seq<Stroke>> := [[]];
    assert one[..0] == [] && Layout(one) == Layout([]) + Wrapped([]);
    SpaceCell(color);
  }

  // ---------------------------------------------------------------------------
  // The screen
  // ---------------------------------------------------------------------------

  function At(buffer: seq<nat>, z: nat, s: nat): nat
    requires |buffer| == 2000 && z < 25 && s < 80
  {
    buffer[80 * z + s]
  }

  /** The screen shows the last 25 of these rows. */
  ghost predicate Shows(buffer: seq<nat>, rows: seq<seq<nat>>) {
    && |buffer| == 2000 && |rows| >= 25 && (forall i :: 0 <= i < |rows| ==> |rows[i]| == 80)
    && forall z, s :: 0 <= z < 25 && 0 <= s < 80 ==> At(buffer, z, s) == rows[|rows| - 25 + z][s]
  }

  /** buffer moved up by one row, with the last row blank. */
  ghost predicate MovedUp(was: seq<nat>, buffer: seq<nat>, color: nat) {
    && |was| == |buffer| == 2000
    && (forall z, s :: 0 <= z < 24 && 0 <= s < 80 ==> At(buffer, z, s) == At(was, z + 1, s))
    && (forall s :: 0 <= s < 80 ==> At(buffer, 24, s) == Cell(0x20, color))
  }

  /** The first z rows have been overwritten with the ones below them. */
  ghost predicate PartlyUp(was: seq<nat>, buffer: seq<nat>, z: nat) {
    && |was| == |buffer| == 2000
    && (forall y, s :: 0 <= y < z && y < 24 && 0 <= s < 80 ==> At(buffer, y, s) == At(was, y + 1, s))
    && (forall y, s :: z <= y < 25 && 0 <= s < 80 ==> At(buffer, y, s) == At(was, y, s))
  }

  lemma NothingMoved(was: seq<nat>)
    requires |was| == 2000
    ensures PartlyUp(was, was, 0)
  {
  }

  lemma OneRowUp(was: seq<nat>, before: seq<nat>, buffer: seq<nat>, z: nat)
    requires PartlyUp(was, before, z) && z < 24 && |buffer| == 2000
    requires forall s :: 0 <= s < 80 ==> At(buffer, z, s) == At(before, z + 1, s)
    requires forall y, s :: 0 <= y < 25 && y != z && 0 <= s < 80 ==> At(buffer, y, s) == At(before, y, s)
    ensures PartlyUp(was, buffer, z + 1)
  {
  }

  lemma AllUp(was: seq<nat>, before: seq<nat>, buffer: seq<nat>, color: nat)
    requires PartlyUp(was, before, 24) && |buffer| == 2000
    requires forall s :: 0 <= s < 80 ==> At(buffer, 24, s) == Cell(0x20, color)
    requires forall y, s :: 0 <= y < 24 && 0 <= s < 80 ==> At(buffer, y, s) == At(before, y, s)
    ensures MovedUp(was, buffer, color)
  {
  }

  lemma ReadCell(buffer: seq<nat>, z: nat, s: nat)
    requires |buffer| == 2000 && z < 25 && s < 80
    ensures At(buffer, z, s) == buffer[80 * z + s]
  {
  }

  /** Writing one cell of the visible part. */
  lemma WriteShows(buffer: seq<nat>, rows: seq<seq<nat>>, z: nat, s: nat, v: nat)
    requires Shows(buffer, rows) && z < 25 && s < 80
    ensures Shows(buffer[80 * z + s := v], Overwrite(rows, |rows| - 25 + z, s, v))
  {
    var b2 := buffer[80 * z + s := v];
    forall y, x | 0 <= y < 25 && 0 <= x < 80
      ensures At(b2, y, x) == if y == z && x == s then v else At(buffer, y, x)
    {
    }
  }

  /** Moving up shows one row more. */
  lemma MoveShows(was: seq<nat>, buffer: seq<nat>, rows: seq<seq<nat>>, color: nat)
    requires Shows(was, rows) && MovedUp(was, buffer, color)
    ensures Shows(buffer, rows + [BlankRow(color)])
  {
  }

  class Screen {
    var buffer: array<nat>
    var row: nat
    var col: nat
    var color: nat
    var lineLength: array<nat>

    ghost var sheet: Paper  // what has been typed since the last clear

    ghost predicate Valid()
      reads this, buffer, lineLength
    {
      && buffer.Length == 2000 && lineLength.Length == 25 && buffer != lineLength
      && Proper(sheet) && Shows(buffer[..], sheet.rows)
      && row == sheet.row - (|sheet.rows| - 25) && col == sheet.col
      && row < 25 && col < 80
    }

    constructor (memory: array<nat>)
      requires memory.Length == 2000
      modifies memory
      ensures Valid() && sheet == FreshPaper(0x07) && color == 0x07
    {
      buffer := memory;
      lineLength := new nat[25](_ => 0);
      row, col, color := 0, 0, 0x07;
      new;
      Clear();
    }

    method SetColor(f: nat)
      modifies this`color
      ensures color == f
    {
      color := f;
    }

    method Clear()
      requires buffer.Length == 2000 && lineLength.Length == 25 && buffer != lineLength
      modifies this`row, this`col, this`sheet, buffer
      ensures Valid() && sheet == FreshPaper(color)
    {
      var i := 0;
      while i < 2000
        invariant 0 <= i <= 2000
        invariant forall j :: 0 <= j < i ==> buffer[j] == Cell(0x20, color)
      {
        buffer[i] := Cell(0x20, color);
        i := i + 1;
      }
      row, col := 0, 0;
      sheet := FreshPaper(color);
    }

    /** Types one character; the screen goes on showing the end of the sheet. */
    method PutChar(c: nat)
      requires Valid() && c < 256
      modifies this`row, this`col, this`sheet, buffer, lineLength
      ensures Valid() && sheet == Type(old(sheet), Stroke(c, color))
      ensures lineLength[..] == LengthsAfter(old(lineLength[..]), c, old(row), old(col))
    {
      hide At, BlankRow;
      ghost var p, was := sheet, buffer[..];
      if c == 0x0A {
        lineLength[row] := col;
        col := 0;
        row := row + 1;
      } else {
        var index := 80 * row + col;
        buffer[index] := Cell(c, color);
        col := col + 1;
        if col >= 80 {
          col := 0;
          row := row + 1;
        }
      }
      if c != 0x0A {
        WriteShows(was, p.rows, old(row), old(col), Cell(c, color));
      }
      TypeKeepsProper(p, Stroke(c, color));
      ghost var shown := if c == 0x0A then p.rows else Overwrite(p.rows, p.row, p.col, Cell(c, color));
      assert Shows(buffer[..], shown);
      sheet := Type(p, Stroke(c, color));
      if row >= 25 {
        ghost var before := buffer[..];
        Scroll();
        MoveShows(before, buffer[..], shown, color);
        row := 24;
      }
    }

    /** vga_print: the screen shows the end of the sheet with the whole text typed on it. */
    method Print(s: seq<nat>)
      requires Valid() && forall i :: 0 <= i < |s| ==> s[i] < 256
      modifies this`row, this`col, this`sheet, buffer, lineLength
      ensures Valid() && sheet == TypeAll(old(sheet), Strokes(s, color))
    {
      ghost var p := sheet;
      var i := 0;
      while i < |s|
        invariant 0 <= i <= |s| && Valid() && Proper(p)
        invariant sheet == TypeAll(p, Strokes(s, color)[..i])
      {
        PutChar(s[i]);
        i := i + 1;
        assert Strokes(s, color)[..i][..i - 1] == Strokes(s, color)[..i - 1];
      }
      assert Strokes(s, color)[..i] == Strokes(s, color);
    }

    /** The copying loops of the source. */
    method Scroll()
      requires buffer.Length == 2000 && lineLength.Length == 25 && buffer != lineLength
      modifies buffer, lineLength
      ensures MovedUp(old(buffer[..]), buffer[..], color)
      ensures lineLength[..] == old(lineLength[..])[1..] + [old(lineLength[24])]
    {
      hide PartlyUp;
      ghost var was, lengths := buffer[..], lineLength[..];
      NothingMoved(was);
      var z := 0;
      while z < 24
        invariant 0 <= z <= 24 && PartlyUp(was, buffer[..], z)
        invariant forall y :: 0 <= y < 25 ==> lineLength[y] == lengths[if y < z then y + 1 else y]
      {
        ghost var before := buffer[..];
        CopyRow(z);
        OneRowUp(was, before, buffer[..], z);
        MoveLength(z);
        z := z + 1;
      }
      ghost var before := buffer[..];
      BlankLastRow();
      AllUp(was, before, buffer[..], color);
      assert lineLength[..] == lengths[1..] + [lengths[24]];
    }

    method MoveLength(z: nat)
      requires lineLength.Length == 25 && z < 24 && buffer != lineLength
      modifies lineLength
      ensures forall y :: 0 <= y < 25 && y != z ==> lineLength[y] == old(lineLength[y])
      ensures lineLength[z] == old(lineLength[z + 1])
    {
      lineLength[z] := lineLength[z + 1];
    }

    method Store(z: nat, s: nat, v: nat)
      requires buffer.Length == 2000 && z < 25 && s < 80
      modifies buffer
      ensures forall y, x :: 0 <= y < 25 && 0 <= x < 80 ==>
                At(buffer[..], y, x) == if y == z && x == s then v else At(old(buffer[..]), y, x)
    {
      buffer[80 * z + s] := v;
    }

    method BlankLastRow()
      requires buffer.Length == 2000
      modifies buffer
      ensures forall s :: 0 <= s < 80 ==> At(buffer[..], 24, s) == Cell(0x20, color)
      ensures forall y, s :: 0 <= y < 24 && 0 <= s < 80 ==> At(buffer[..], y, s) == At(old(buffer[..]), y, s)
    {
      hide At;
      ghost var was := buffer[..];
      var s := 0;
      while s < 80
        invariant 0 <= s <= 80
        invariant forall y, x :: 0 <= y < 24 && 0 <= x < 80 ==> At(buffer[..], y, x) == At(was, y, x)
        invariant forall x :: 0 <= x < s ==> At(buffer[..], 24, x) == Cell(0x20, color)
      {
        Store(24, s, Cell(0x20, color));
        s := s + 1;
      }
    }

    method CopyRow(z: nat)
      requires buffer.Length == 2000 && z < 24
      modifies buffer
      ensures forall s :: 0 <= s < 80 ==> At(buffer[..], z, s) == At(old(buffer[..]), z + 1, s)
      ensures forall y, s :: 0 <= y < 25 && y != z && 0 <= s < 80 ==> At(buffer[..], y, s) == At(old(buffer[..]), y, s)
    {
      hide At;
      ghost var was := buffer[..];
      var s := 0;
      while s < 80
        invariant 0 <= s <= 80
        invariant forall x :: 0 <= x < s ==> At(buffer[..], z, x) == At(was, z + 1, x)
        invariant forall y, x :: 0 <= y < 25 && y != z && 0 <= x < 80 ==> At(buffer[..], y, x) == At(was, y, x)
      {
        ReadCell(buffer[..], z + 1, s);
        Store(z, s, buffer[80 * (z + 1) + s]);
        s := s + 1;
      }
    }
  }

  ghost function Strokes(s: seq<nat>, color: nat): (r: seq<Stroke>)
    ensures |r| == |s| && forall i :: 0 <= i < |s| ==> r[i] == Stroke(s[i], color)
  {
    seq(|s|, i requires 0 <= i < |s| => Stroke(s[i], color))
  }

  /** The remembered line lengths after one character. */
  function LengthsAfter(lengths: seq<nat>, c: nat, row: nat, col: nat): seq<nat>
    requires |lengths| == 25 && row < 25
  {
    var set1 := if c == 0x0A then lengths[row := col] else lengths;
    if row == 24 && (c == 0x0A || col == 79) then set1[1..] + [set1[24]] else set1
  }

  /** Row z remembers the length of the row it shows: a break records where it was typed, and when the screen
      moves up the lengths move along, with the last one left behind. */
  lemma LengthsMoveAlong(lengths: seq<nat>, c: nat, row: nat, col: nat, z: nat)
    requires |lengths| == 25 && row < 25 && col < 80 && z < 25
    ensures var moves := row == 24 && (c == 0x0A || col == 79);
            var was := if moves && z < 24 then z + 1 else z;
            LengthsAfter(lengths, c, row, col)[z] == if c == 0x0A && was == row then col else lengths[was]
  {
  }
}
