/** A document as a list of bounded lines with a cursor, and the flat text that it stands for. */
module EditorText {
  datatype Doc = Doc(lines: seq<string>, x: nat, y: nat)

  ghost predicate Bounded(lines: seq<string>) {
    1 <= |lines| <= 200 && forall i :: 0 <= i < |lines| ==> |lines[i]| <= 77
  }

  ghost predicate Valid(d: Doc) {
    Bounded(d.lines) && d.y < |d.lines| && d.x <= |d.lines[d.y]|
  }

  // ---------------------------------------------------------------------------
  // The flat text
  // ---------------------------------------------------------------------------

  /** Every line followed by a line break. */
  ghost function Ended(lines: seq<string>): string {
    if lines == [] then "" else lines[0] + "\n" + Ended(lines[1..])
  }

  /** Every line preceded by a line break. */
  ghost function Led(lines: seq<string>): string {
    if lines == [] then "" else "\n" + lines[0] + Led(lines[1..])
  }

  /** The text: the lines with a line break between neighbours. */
  ghost function Flat(lines: seq<string>): string
    requires lines != []
  {
    lines[0] + Led(lines[1..])
  }

  /** The position of column x of line y in the flat text. */
  ghost function Offset(lines: seq<string>, x: nat, y: nat): nat
    requires y < |lines|
  {
    |Ended(lines[..y])| + x
  }

  lemma {:induction false} EndedConcat(a: seq<string>, b: seq<string>)
    ensures Ended(a + b) == Ended(a) + Ended(b)
  {
    if a == [] {
      assert a + b == b;
    } else {
      EndedConcat(a[1..], b);
      assert (a + b)[1..] == a[1..] + b;
    }
  }

  lemma {:induction false} LedConcat(a: seq<string>, b: seq<string>)
    ensures Led(a + b) == Led(a) + Led(b)
  {
    if a == [] {
      assert a + b == b;
    } else {
      LedConcat(a[1..], b);
      assert (a + b)[1..] == a[1..] + b;
    }
  }

  lemma EndedOne(s: string)
    ensures Ended([s]) == s + "\n" && Led([s]) == "\n" + s
  {
  }

  lemma {:induction false} EndedIsFlat(lines: seq<string>)
    requires lines != []
    ensures Ended(lines) == Flat(lines) + "\n"
  {
    if |lines| > 1 {
      EndedIsFlat(lines[1..]);
    }
  }

  /** The text around line y. */
  lemma {:induction false} FlatAround(lines: seq<string>, y: nat)
    requires y < |lines|
    ensures Flat(lines) == Ended(lines[..y]) + lines[y] + Led(lines[y + 1..])
    decreases y
  {
    if y > 0 {
      FlatAround(lines[1..], y - 1);
      assert lines[..y] == [lines[0]] + lines[1..][..y - 1];
      assert lines[1..][y..] == lines[y + 1..];
      EndedConcat([lines[0]], lines[1..][..y - 1]);
      EndedOne(lines[0]);
      assert Flat(lines) == lines[0] + "\n" + Flat(lines[1..]);
    } else {
      assert lines[..0] == [];
    }
  }

  // ---------------------------------------------------------------------------
  // Editing
  // ---------------------------------------------------------------------------

  /** ed_insert_char: nothing happens on a full line. */
  function InsertChar(d: Doc, c: char): Doc
    requires d.y < |d.lines| && d.x <= |d.lines[d.y]|
  {
    var line := d.lines[d.y];
    if |line| >= 77 then d
    else Doc(d.lines[d.y := line[..d.x] + [c] + line[d.x..]], d.x + 1, d.y)
  }

  /** ed_insert_newline: nothing happens when there are 200 lines. */
  function InsertNewline(d: Doc): Doc
    requires d.y < |d.lines| && d.x <= |d.lines[d.y]|
  {
    var line := d.lines[d.y];
    if |d.lines| >= 200 then d
    else Doc(d.lines[..d.y] + [line[..d.x], line[d.x..]] + d.lines[d.y + 1..], 0, d.y + 1)
  }

  /** ed_backspace: lines are joined only if they have at most 76 characters together. */
  function Backspace(d: Doc): Doc
    requires d.y < |d.lines| && d.x <= |d.lines[d.y]|
  {
    var line := d.lines[d.y];
    if d.x > 0 then Doc(d.lines[d.y := line[..d.x - 1] + line[d.x..]], d.x - 1, d.y)
    else if d.y > 0 && |d.lines[d.y - 1]| + |line| < 77 then
      Doc(d.lines[..d.y - 1] + [d.lines[d.y - 1] + line] + d.lines[d.y + 1..], |d.lines[d.y - 1]|, d.y - 1)
    else d
  }

  ghost function Insertion(s: string, o: nat, t: string): string
    requires o <= |s|
  {
    s[..o] + t + s[o..]
  }

  lemma OffsetInside(d: Doc)
    requires Valid(d)
    ensures Offset(d.lines, d.x, d.y) <= |Flat(d.lines)|
  {
    FlatAround(d.lines, d.y);
  }

  /** Replacing line y replaces exactly its stretch of the text. */
  lemma FlatReplaced(lines: seq<string>, y: nat, line: string)
    requires y < |lines|
    ensures Flat(lines[y := line]) == Ended(lines[..y]) + line + Led(lines[y + 1..])
    ensures lines[y := line][..y] == lines[..y]
  {
    FlatAround(lines[y := line], y);
  }

  lemma InsertCharFlat(d: Doc, c: char)
    requires Valid(d) && |d.lines[d.y]| < 77
    ensures Valid(InsertChar(d, c))
    ensures Offset(d.lines, d.x, d.y) <= |Flat(d.lines)|
    ensures Flat(InsertChar(d, c).lines) == Insertion(Flat(d.lines), Offset(d.lines, d.x, d.y), [c])
    ensures Offset(InsertChar(d, c).lines, InsertChar(d, c).x, d.y) == Offset(d.lines, d.x, d.y) + 1
  {
    var line := d.lines[d.y];
    FlatAround(d.lines, d.y);
    FlatReplaced(d.lines, d.y, line[..d.x] + [c] + line[d.x..]);
    InsertInside(Ended(d.lines[..d.y]), line, Led(d.lines[d.y + 1..]), d.x, [c]);
  }

  lemma InsertInside(a: string, line: string, b: string, x: nat, t: string)
    requires x <= |line|
    ensures Insertion(a + line + b, |a| + x, t) == a + (line[..x] + t + line[x..]) + b
  {
  }

  lemma InsertNewlineFlat(d: Doc)
    requires Valid(d) && |d.lines| < 200
    ensures Valid(InsertNewline(d))
    ensures Offset(d.lines, d.x, d.y) <= |Flat(d.lines)|
    ensures Flat(InsertNewline(d).lines) == Insertion(Flat(d.lines), Offset(d.lines, d.x, d.y), "\n")
    ensures Offset(InsertNewline(d).lines, 0, d.y + 1) == Offset(d.lines, d.x, d.y) + 1
  {
    hide Ended, Led, Flat;
    var line, a, b := d.lines[d.y], d.lines[..d.y], d.lines[d.y + 1..];
    var l1, l2 := line[..d.x], line[d.x..];
    var lines := a + [l1, l2] + b;
    FlatAround(d.lines, d.y);
    FlatAround(lines, d.y + 1);
    assert lines[..d.y + 1] == a + [l1] && lines[d.y + 2..] == b;
    EndedConcat(a, [l1]);
    EndedOne(l1);
    InsertInside(Ended(a), line, Led(b), d.x, "\n");
  }

  ghost function Deletion(s: string, from: nat, to: nat): string
    requires from <= to <= |s|
  {
    s[..from] + s[to..]
  }

  lemma DeleteInside(a: string, line: string, b: string, x: nat, z: nat)
    requires x <= z <= |line|
    ensures Deletion(a + line + b, |a| + x, |a| + z) == a + (line[..x] + line[z..]) + b
  {
  }

  /** ed_backspace within a line, or joining two lines, deletes the character before the cursor. */
  lemma BackspaceFlat(d: Doc)
    requires Valid(d) && (d.x > 0 || (d.y > 0 && |d.lines[d.y - 1]| + |d.lines[d.y]| <= 76))
    ensures Valid(Backspace(d))
    ensures 1 <= Offset(d.lines, d.x, d.y) <= |Flat(d.lines)|
    ensures var o := Offset(d.lines, d.x, d.y);
            && Flat(Backspace(d).lines) == Deletion(Flat(d.lines), o - 1, o)
            && Offset(Backspace(d).lines, Backspace(d).x, Backspace(d).y) == o - 1
  {
    var line := d.lines[d.y];
    FlatAround(d.lines, d.y);
    if d.x > 0 {
      FlatReplaced(d.lines, d.y, line[..d.x - 1] + line[d.x..]);
      DeleteInside(Ended(d.lines[..d.y]), line, Led(d.lines[d.y + 1..]), d.x - 1, d.x);
    } else {
      JoinFlat(d);
    }
  }

  /** Everywhere else, backspace does nothing at all: at the start of the document, and at the start of a line
      that has too many characters together with the one before. */
  lemma BackspaceNothingIff(d: Doc)
    requires Valid(d)
    ensures Backspace(d) == d <==> d.x == 0 && (d.y == 0 || |d.lines[d.y - 1]| + |d.lines[d.y]| > 76)
  {
    if d.x > 0 || (d.y > 0 && |d.lines[d.y - 1]| + |d.lines[d.y]| <= 76) {
      hide Backspace;
      BackspaceFlat(d);
    }
  }

  lemma JoinFlat(d: Doc)
    requires Valid(d) && d.x == 0 && d.y > 0 && |d.lines[d.y - 1]| + |d.lines[d.y]| <= 76
    ensures Valid(Backspace(d))
    ensures 1 <= Offset(d.lines, d.x, d.y) <= |Flat(d.lines)|
    ensures var o := Offset(d.lines, d.x, d.y);
            && Flat(Backspace(d).lines) == Deletion(Flat(d.lines), o - 1, o)
            && Offset(Backspace(d).lines, Backspace(d).x, Backspace(d).y) == o - 1
  {
    hide Ended, Led, Flat;
    var a, l1, l2, b := d.lines[..d.y - 1], d.lines[d.y - 1], d.lines[d.y], d.lines[d.y + 1..];
    var lines := a + [l1 + l2] + b;
    FlatAround(d.lines, d.y);
    FlatAround(lines, d.y - 1);
    assert d.lines[..d.y] == a + [l1];
    assert lines[..d.y - 1] == a && lines[d.y..] == b;
    EndedConcat(a, [l1]);
    EndedOne(l1);
  }

  // ---------------------------------------------------------------------------
  // Paste
  // ---------------------------------------------------------------------------

  function PasteOne(d: Doc, c: char): Doc
    requires d.y < |d.lines| && d.x <= |d.lines[d.y]|
  {
    if c == '\n' then InsertNewline(d) else InsertChar(d, c)
  }

  lemma PasteOneValid(d: Doc, c: char)
    requires Valid(d)
    ensures Valid(PasteOne(d, c))
  {
  }

  /** ed_paste: one character of the clipboard after the other. */
  ghost function Paste(d: Doc, clip: string): (r: Doc)
    requires Valid(d)
    decreases |clip|
    ensures Valid(r)
  {
    if clip == "" then d
    else
      PasteOneValid(d, clip[0]);
      Paste(PasteOne(d, clip[0]), clip[1..])
  }

  function Breaks(s: string): nat {
    if s == "" then 0 else (if s[0] == '\n' then 1 else 0) + Breaks(s[1..])
  }

  /** The greatest length that the line under the cursor reaches while clip is typed into a line of
      that length with tail characters behind the cursor: the tail moves along with the cursor. */
  function Peak(length: nat, tail: nat, clip: string): (r: nat)
    decreases |clip|
    ensures r >= length
  {
    if clip == "" then length
    else
      var rest := if clip[0] == '\n' then Peak(tail, tail, clip[1..]) else Peak(length + 1, tail, clip[1..]);
      if rest > length then rest else length
  }

  /** The clipboard fits: line by line it stays within 77 characters, and within 200 lines. */
  predicate Fits(d: Doc, clip: string)
    requires d.y < |d.lines| && d.x <= |d.lines[d.y]|
  {
    Peak(|d.lines[d.y]|, |d.lines[d.y]| - d.x, clip) <= 77 && |d.lines| + Breaks(clip) <= 200
  }

  lemma FitsStep(d: Doc, clip: string)
    requires Valid(d) && clip != ""
    ensures Valid(PasteOne(d, clip[0]))
    ensures Fits(d, clip) <==> PasteOne(d, clip[0]) != d && Fits(PasteOne(d, clip[0]), clip[1..])
  {
    PasteOneValid(d, clip[0]);
    var line := d.lines[d.y];
    if clip[0] == '\n' {
      if |d.lines| < 200 {
        assert InsertNewline(d).lines[d.y + 1] == line[d.x..];
      }
    } else if |line| < 77 {
      assert InsertChar(d, clip[0]).lines[d.y] == line[..d.x] + [clip[0]] + line[d.x..];
    }
  }

  lemma PasteOneFlat(d: Doc, c: char)
    requires Valid(d) && PasteOne(d, c) != d
    ensures Valid(PasteOne(d, c)) && Offset(d.lines, d.x, d.y) <= |Flat(d.lines)|
    ensures Flat(PasteOne(d, c).lines) == Insertion(Flat(d.lines), Offset(d.lines, d.x, d.y), [c])
    ensures Offset(PasteOne(d, c).lines, PasteOne(d, c).x, PasteOne(d, c).y) == Offset(d.lines, d.x, d.y) + 1
  {
    if c == '\n' { InsertNewlineFlat(d); } else { InsertCharFlat(d, c); }
  }

  lemma {:induction false} PasteInserts(d: Doc, clip: string)
    requires Valid(d) && Fits(d, clip)
    ensures Offset(d.lines, d.x, d.y) <= |Flat(d.lines)|
    ensures Flat(Paste(d, clip).lines) == Insertion(Flat(d.lines), Offset(d.lines, d.x, d.y), clip)
    ensures var e := Paste(d, clip); Offset(e.lines, e.x, e.y) == Offset(d.lines, d.x, d.y) + |clip|
    decreases |clip|
  {
    OffsetInside(d);
    if clip != "" {
      FitsStep(d, clip);
      PasteOneFlat(d, clip[0]);
      PasteInserts(PasteOne(d, clip[0]), clip[1..]);
      InsertTwice(Flat(d.lines), Offset(d.lines, d.x, d.y), [clip[0]], clip[1..]);
      assert clip == [clip[0]] + clip[1..];
    }
  }

  lemma InsertTwice(s: string, o: nat, t: string, u: string)
    requires o <= |s|
    ensures Insertion(Insertion(s, o, t), o + |t|, u) == Insertion(s, o, t + u)
  {
  }

  lemma {:induction false} PasteLength(d: Doc, clip: string)
    requires Valid(d)
    ensures |Flat(Paste(d, clip).lines)| <= |Flat(d.lines)| + |clip|
    ensures !Fits(d, clip) ==> |Flat(Paste(d, clip).lines)| < |Flat(d.lines)| + |clip|
    decreases |clip|
  {
    if clip != "" {
      FitsStep(d, clip);
      var e := PasteOne(d, clip[0]);
      if e != d {
        PasteOneFlat(d, clip[0]);
      }
      PasteLength(e, clip[1..]);
    }
  }

  /** ed_paste inserts the whole clipboard at the cursor exactly when it fits. */
  lemma PasteInsertsIffFits(d: Doc, clip: string)
    requires Valid(d)
    ensures Offset(d.lines, d.x, d.y) <= |Flat(d.lines)|
    ensures Flat(Paste(d, clip).lines) == Insertion(Flat(d.lines), Offset(d.lines, d.x, d.y), clip)
            <==> Fits(d, clip)
  {
    OffsetInside(d);
    PasteLength(d, clip);
    if Fits(d, clip) {
      PasteInserts(d, clip);
    }
  }
}
