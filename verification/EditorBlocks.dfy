/** Whole stretches of the text: the selection, and the file form of a document. */
module EditorBlocks {
  import opened EditorText

  // ---------------------------------------------------------------------------
  // Selections
  // ---------------------------------------------------------------------------

  predicate Inside(lines: seq<string>, x: nat, y: nat) {
    y < |lines| && x <= |lines[y]|
  }

  /** The first end comes before the second one in the text, or equals it. */
  predicate Ordered(sx: nat, sy: nat, ex: nat, ey: nat) {
    sy < ey || (sy == ey && sx <= ex)
  }

  /** What ed_copy_selection has copied when it comes to line y: the lines from sy on, each with its
      break, without the first sx characters. */
  ghost function CopiedTo(lines: seq<string>, sx: nat, sy: nat, y: nat): string
    requires Inside(lines, sx, sy) && sy <= y <= |lines|
  {
    if y == sy then "" else lines[sy][sx..] + "\n" + Ended(lines[sy + 1..y])
  }

  /** What it has copied when line y is done. */
  ghost function Copied(lines: seq<string>, sx: nat, sy: nat, ex: nat, ey: nat): string
    requires Inside(lines, sx, sy) && Inside(lines, ex, ey) && Ordered(sx, sy, ex, ey)
  {
    CopiedTo(lines, sx, sy, ey) + lines[ey][if sy == ey then sx else 0..ex]
  }

  lemma EndedSplit(lines: seq<string>, sy: nat, y: nat)
    requires sy < y <= |lines|
    ensures Ended(lines[..y]) == Ended(lines[..sy]) + (lines[sy] + "\n" + Ended(lines[sy + 1..y]))
  {
    assert lines[..y] == lines[..sy] + ([lines[sy]] + lines[sy + 1..y]);
    EndedConcat(lines[..sy], [lines[sy]] + lines[sy + 1..y]);
    EndedConcat([lines[sy]], lines[sy + 1..y]);
    EndedOne(lines[sy]);
  }

  lemma Slice(a: string, line: string, rest: string, x: nat, z: nat)
    requires x <= z <= |line|
    ensures (a + line + rest)[|a| + x..|a| + z] == line[x..z]
  {
  }

  lemma {:induction false} SameText(lines: seq<string>, sx: nat, sy: nat, ex: nat, ey: nat)
    requires Inside(lines, sx, sy) && Inside(lines, ex, ey) && Ordered(sx, sy, ex, ey)
    ensures Offset(lines, sx, sy) <= Offset(lines, ex, ey) <= |Flat(lines)|
    ensures Copied(lines, sx, sy, ex, ey) == Flat(lines)[Offset(lines, sx, sy)..Offset(lines, ex, ey)]
  {
    hide Flat, Ended, Led;
    FlatAround(lines, ey);
    var a, line, rest := Ended(lines[..ey]), lines[ey], Led(lines[ey + 1..]);
    if sy == ey {
      Slice(a, line, rest, sx, ex);
    } else {
      EndedSplit(lines, sy, ey);
    }
  }

  /** The text between two ends of a selection, in whichever order they come. */
  ghost function Selected(lines: seq<string>, px: nat, py: nat, qx: nat, qy: nat): string
    requires Inside(lines, px, py) && Inside(lines, qx, qy)
  {
    if Ordered(px, py, qx, qy) then Copied(lines, px, py, qx, qy) else Copied(lines, qx, qy, px, py)
  }

  /** What ed_copy_selection copies is the stretch of the text between the two offsets. */
  lemma SelectedIsSlice(lines: seq<string>, px: nat, py: nat, qx: nat, qy: nat)
    requires Inside(lines, px, py) && Inside(lines, qx, qy)
    ensures var o, p := Offset(lines, px, py), Offset(lines, qx, qy);
            && o <= |Flat(lines)| && p <= |Flat(lines)|
            && Selected(lines, px, py, qx, qy) == if o <= p then Flat(lines)[o..p] else Flat(lines)[p..o]
  {
    hide Flat, Offset, Copied;
    if Ordered(px, py, qx, qy) {
      SameText(lines, px, py, qx, qy);
    } else {
      SameText(lines, qx, qy, px, py);
    }
  }

  lemma {:induction false} EndedShort(lines: seq<string>)
    requires forall i :: 0 <= i < |lines| ==> |lines[i]| <= 77
    ensures |Ended(lines)| <= 78 * |lines|
  {
    if lines != [] { EndedShort(lines[1..]); }
  }

  /** The longest text has 15599 characters, one less than the clipboard. */
  lemma FlatShort(lines: seq<string>)
    requires Bounded(lines)
    ensures |Flat(lines)| <= 200 * 78 - 1
  {
    EndedShort(lines);
    EndedIsFlat(lines);
  }

  /** Before the last line the clipboard is never full. */
  lemma CopiedShort(lines: seq<string>, sx: nat, sy: nat, y: nat)
    requires Bounded(lines) && Inside(lines, sx, sy) && sy <= y < |lines|
    ensures |CopiedTo(lines, sx, sy, y)| <= 78 * 199
  {
    if y > sy { EndedShort(lines[sy + 1..y]); }
  }

  /** What is left of the two end lines: the end of the last one moves up only if the line stays
      shorter than 77 characters; otherwise it is lost. */
  function CutLine(lines: seq<string>, x: nat, y: nat, sx: nat, sy: nat): string
    requires Inside(lines, x, y) && Inside(lines, sx, sy)
  {
    var head, tail := lines[y][..x], lines[sy][sx..];
    if y == sy || x + |tail| < 77 then head + tail else head
  }

  /** Taking out from the cursor to where the selection began, further on in the text. */
  function Cut(d: Doc, sx: nat, sy: nat): Doc
    requires Inside(d.lines, d.x, d.y) && Inside(d.lines, sx, sy) && Ordered(d.x, d.y, sx, sy)
  {
    Doc(d.lines[..d.y] + [CutLine(d.lines, d.x, d.y, sx, sy)] + d.lines[sy + 1..], d.x, d.y)
  }

  lemma CutText(d: Doc, sx: nat, sy: nat)
    requires Valid(d) && Inside(d.lines, sx, sy) && Ordered(d.x, d.y, sx, sy)
    ensures Valid(Cut(d, sx, sy))
    ensures Flat(Cut(d, sx, sy).lines) == Ended(d.lines[..d.y]) + Cut(d, sx, sy).lines[d.y] + Led(d.lines[sy + 1..])
    ensures Cut(d, sx, sy).lines[d.y] == CutLine(d.lines, d.x, d.y, sx, sy)
  {
    hide Flat, Ended, Led;
    var c := Cut(d, sx, sy);
    assert c.lines[..d.y] == d.lines[..d.y] && c.lines[d.y + 1..] == d.lines[sy + 1..];
    FlatAround(c.lines, d.y);
  }

  lemma FlatTwice(lines: seq<string>, y1: nat, y2: nat)
    requires y1 < y2 < |lines|
    ensures var a, m := Ended(lines[..y1]), "\n" + Ended(lines[y1 + 1..y2]);
            && Ended(lines[..y2]) == a + lines[y1] + m
            && Flat(lines) == a + lines[y1] + m + lines[y2] + Led(lines[y2 + 1..])
  {
    hide Flat, Ended, Led;
    FlatAround(lines, y2);
    EndedSplit(lines, y1, y2);
    Assoc(Ended(lines[..y1]), lines[y1], Ended(lines[y1 + 1..y2]));
  }

  lemma Assoc(a: string, l: string, m: string)
    ensures a + (l + "\n" + m) == a + l + ("\n" + m)
  {
  }

  lemma AcrossIff(a: string, l1: string, x: nat, m: string, l2: string, z: nat, b: string, fits: bool)
    requires x <= |l1| && z <= |l2|
    ensures var line := if fits then l1[..x] + l2[z..] else l1[..x];
            a + line + b == Deletion(a + l1 + m + l2 + b, |a| + x, |a + l1 + m| + z) <==> fits || z == |l2|
  {
  }

  /** ed_delete_selection on a selection made backwards takes exactly that stretch out of the text,
      unless it drops the end of the last line. */
  lemma CutDeletesIff(d: Doc, sx: nat, sy: nat)
    requires Valid(d) && Inside(d.lines, sx, sy) && Ordered(d.x, d.y, sx, sy)
    ensures Offset(d.lines, d.x, d.y) <= Offset(d.lines, sx, sy) <= |Flat(d.lines)|
    ensures Flat(Cut(d, sx, sy).lines) == Deletion(Flat(d.lines), Offset(d.lines, d.x, d.y), Offset(d.lines, sx, sy))
            <==> d.y == sy || sx == |d.lines[sy]| || d.x + (|d.lines[sy]| - sx) < 77
  {
    hide Flat, Ended, Led, Cut, Deletion;
    SameText(d.lines, d.x, d.y, sx, sy);
    CutText(d, sx, sy);
    var a, b := Ended(d.lines[..d.y]), Led(d.lines[sy + 1..]);
    var l1, l2 := d.lines[d.y], d.lines[sy];
    if d.y == sy {
      FlatAround(d.lines, sy);
      DeleteInside(a, l1, b, d.x, sx);
    } else {
      FlatTwice(d.lines, d.y, sy);
      AcrossIff(a, l1, d.x, "\n" + Ended(d.lines[d.y + 1..sy]), l2, sx, b, d.x + |l2[sx..]| < 77);
    }
  }

  /** In every case a selection made backwards is deleted as one stretch, and the cursor stays at its start:
      up to the selection's end, or up to the end of that line if its rest is dropped. */
  lemma CutDeletes(d: Doc, sx: nat, sy: nat)
    requires Valid(d) && Inside(d.lines, sx, sy) && Ordered(d.x, d.y, sx, sy)
    ensures var rest := d.y != sy && d.x + (|d.lines[sy]| - sx) >= 77;
            var o, p := Offset(d.lines, d.x, d.y), Offset(d.lines, if rest then |d.lines[sy]| else sx, sy);
            && o <= p <= |Flat(d.lines)| && Flat(Cut(d, sx, sy).lines) == Deletion(Flat(d.lines), o, p)
            && Offset(Cut(d, sx, sy).lines, Cut(d, sx, sy).x, Cut(d, sx, sy).y) == o
  {
    hide Flat, Ended, Led, Deletion;
    assert Cut(d, sx, sy).lines[..d.y] == d.lines[..d.y];
    CutDeletesIff(d, sx, sy);
    if d.y != sy && d.x + (|d.lines[sy]| - sx) >= 77 {
      var z := |d.lines[sy]|;
      CutDeletesIff(d, z, sy);
      assert d.lines[sy][z..] == "" && CutLine(d.lines, d.x, d.y, z, sy) == d.lines[d.y][..d.x];
    }
  }

  // ---------------------------------------------------------------------------
  // Selections made forwards
  // ---------------------------------------------------------------------------

  /** s continued n times with the element that stands r places further in front. */
  function Extend<T>(s: seq<T>, r: nat, n: nat): (e: seq<T>)
    requires 0 < r <= |s|
    ensures |e| == |s| + n && e[..|s|] == s
  {
    if n == 0 then s
    else
      var e := Extend(s, r, n - 1);
      e + [e[|e| - r]]
  }

  /** Extend is the only continuation with that period. */
  lemma {:induction false} ExtendUnique<T>(s: seq<T>, r: nat, e: seq<T>)
    requires 0 < r <= |s| <= |e| && e[..|s|] == s && forall k :: |s| <= k < |e| ==> e[k] == e[k - r]
    ensures e == Extend(s, r, |e| - |s|)
    decreases |e|
  {
    if |e| > |s| {
      var f := e[..|e| - 1];
      assert f[..|s|] == s && e == f + [e[|e| - 1 - r]];
      ExtendUnique(s, r, f);
    } else {
      assert e == s;
    }
  }

  lemma {:induction false} ExtendAt<T>(s: seq<T>, r: nat, n: nat, k: nat)
    requires 0 < r <= |s| <= k < |s| + n
    ensures Extend(s, r, n)[k] == Extend(s, r, n)[k - r]
  {
    if k < |s| + n - 1 { ExtendAt(s, r, n - 1, k); }
  }

  /** ed_delete_selection exchanges the two ends whatever their order. If the cursor is the later one, the
      copying loops run with a negative distance: within a line, what was selected is repeated; across
      lines, the lines from the selection's second one on are. */
  function Grown(d: Doc, sx: nat, sy: nat): Doc
    requires Inside(d.lines, d.x, d.y) && Inside(d.lines, sx, sy) && !Ordered(d.x, d.y, sx, sy)
  {
    if d.y == sy then
      var line := d.lines[sy];
      Doc(d.lines[sy := Extend(line[..d.x], d.x - sx, |line| - sx)], d.x, d.y)
    else
      Doc(Extend(d.lines[..d.y] + [CutLine(d.lines, d.x, d.y, sx, sy)], d.y - sy, |d.lines| - sy - 1), d.x, d.y)
  }

  /** A forward selection within a line: what was selected repeats up to the new end of the line. */
  lemma GrownLine(d: Doc, sx: nat, sy: nat, k: nat)
    requires Inside(d.lines, d.x, d.y) && Inside(d.lines, sx, sy) && sy == d.y && sx < d.x
    ensures var was, now := d.lines[sy], Grown(d, sx, sy).lines[sy];
            && |now| == |was| + (d.x - sx)
            && (k < d.x ==> now[k] == was[k]) && (d.x <= k < |now| ==> now[k] == now[k - (d.x - sx)])
            && Grown(d, sx, sy).lines == d.lines[sy := now]
  {
    var was := d.lines[sy];
    var now := Extend(was[..d.x], d.x - sx, |was| - sx);
    if k < d.x {
      assert now[..d.x][k] == now[k];
    } else if k < |now| {
      ExtendAt(was[..d.x], d.x - sx, |was| - sx, k);
    }
  }

  /** A forward selection across lines: its last line is joined as a deletion would, and from there on the
      lines repeat. */
  lemma GrownLines(d: Doc, sx: nat, sy: nat, k: nat)
    requires Inside(d.lines, d.x, d.y) && Inside(d.lines, sx, sy) && sy < d.y
    ensures var now := Grown(d, sx, sy).lines;
            && |now| == |d.lines| + (d.y - sy)
            && (k < d.y ==> now[k] == d.lines[k]) && now[d.y] == CutLine(d.lines, d.x, d.y, sx, sy)
            && (d.y < k < |now| ==> now[k] == now[k - (d.y - sy)])
  {
    var first := d.lines[..d.y] + [CutLine(d.lines, d.x, d.y, sx, sy)];
    var now := Extend(first, d.y - sy, |d.lines| - sy - 1);
    assert now[..|first|][d.y] == now[d.y];
    if k < d.y {
      assert now[..|first|][k] == now[k];
    } else if d.y < k < |now| {
      ExtendAt(first, d.y - sy, |d.lines| - sy - 1, k);
    }
  }

  /** What the source writes then stays within the line or within the 200 lines. */
  predicate GrowthFits(d: Doc, sx: nat, sy: nat)
    requires Inside(d.lines, d.x, d.y) && Inside(d.lines, sx, sy)
  {
    if d.y == sy then |d.lines[sy]| + d.x - sx <= 77 else |d.lines| + d.y - sy <= 200
  }

  /** ed_delete_selection. */
  function DeleteSelected(d: Doc, sx: nat, sy: nat): Doc
    requires Inside(d.lines, d.x, d.y) && Inside(d.lines, sx, sy)
  {
    if Ordered(d.x, d.y, sx, sy) then Cut(d, sx, sy) else Grown(d, sx, sy)
  }

  lemma {:induction false} BreaksConcat(a: string, b: string)
    ensures Breaks(a + b) == Breaks(a) + Breaks(b)
  {
    if a == "" {
      assert a + b == b;
    } else {
      BreaksConcat(a[1..], b);
      assert (a + b)[1..] == a[1..] + b;
    }
  }

  lemma {:induction false} NoneToBreak(s: string)
    requires '\n' !in s
    ensures Breaks(s) == 0
  {
    if s != "" { NoneToBreak(s[1..]); }
  }

  /** A text has one line break less than lines. */
  lemma {:induction false} BreaksOfLed(lines: seq<string>)
    requires NoBreaks(lines)
    ensures Breaks(Led(lines)) == |lines|
  {
    if lines != [] {
      BreaksOfLed(lines[1..]);
      NoneToBreak(lines[0]);
      BreaksConcat("\n" + lines[0], Led(lines[1..]));
      BreaksConcat("\n", lines[0]);
      assert Breaks("\n") == 1 + Breaks("\n"[1..]);
    }
  }

  lemma BreaksOfFlat(lines: seq<string>)
    requires lines != [] && NoBreaks(lines)
    ensures Breaks(Flat(lines)) == |lines| - 1
  {
    NoneToBreak(lines[0]);
    BreaksOfLed(lines[1..]);
    BreaksConcat(lines[0], Led(lines[1..]));
  }

  lemma DeletionBreaks(s: string, from: nat, to: nat)
    requires from <= to <= |s|
    ensures Breaks(Deletion(s, from, to)) <= Breaks(s)
  {
    hide Breaks;
    assert s == s[..from] + s[from..to] + s[to..];
    FewerBreaks(s[..from], s[from..to], s[to..]);
  }

  lemma FewerBreaks(a: string, b: string, c: string)
    ensures Breaks(a + c) <= Breaks(a + b + c)
  {
    hide Breaks;
    BreaksConcat(a + b, c);
    BreaksConcat(a, b);
    BreaksConcat(a, c);
  }

  lemma {:induction false} ExtendMembers<T>(s: seq<T>, r: nat, n: nat, x: T)
    requires 0 < r <= |s| && x in Extend(s, r, n)
    ensures x in s
  {
    if n > 0 {
      assert x in Extend(s, r, n - 1);
      ExtendMembers(s, r, n - 1, x);
    }
  }

  lemma GrownHasNoBreaks(d: Doc, sx: nat, sy: nat)
    requires Valid(d) && NoBreaks(d.lines) && Inside(d.lines, sx, sy) && sy < d.y
    ensures NoBreaks(Grown(d, sx, sy).lines) && |Grown(d, sx, sy).lines| == |d.lines| + d.y - sy
  {
    var first := d.lines[..d.y] + [CutLine(d.lines, d.x, d.y, sx, sy)];
    assert NoBreaks(first);
    var g := Grown(d, sx, sy).lines;
    forall i | 0 <= i < |g| ensures '\n' !in g[i] {
      ExtendMembers(first, d.y - sy, |d.lines| - sy - 1, g[i]);
    }
  }

  /** Within one line, the text gets longer. */
  lemma GrownWithin(d: Doc, sx: nat, sy: nat)
    requires Valid(d) && Inside(d.lines, sx, sy) && d.y == sy && sx < d.x
    ensures |Flat(Grown(d, sx, sy).lines)| == |Flat(d.lines)| + d.x - sx
  {
    hide Flat, Ended, Led, Extend;
    var line := d.lines[sy];
    FlatAround(d.lines, sy);
    FlatReplaced(d.lines, sy, Extend(line[..d.x], d.x - sx, |line| - sx));
  }

  lemma SameTextForwards(d: Doc, sx: nat, sy: nat)
    requires Valid(d) && Inside(d.lines, sx, sy) && !Ordered(d.x, d.y, sx, sy)
    ensures Offset(d.lines, sx, sy) <= Offset(d.lines, d.x, d.y) <= |Flat(d.lines)|
  {
    SameText(d.lines, sx, sy, d.x, d.y);
  }

  /** ed_delete_selection takes the selected stretch out of the text exactly if the selection was made
      backwards (or is empty) and the end of its last line is not dropped. */
  lemma DeleteSelectedIff(d: Doc, sx: nat, sy: nat)
    requires Valid(d) && NoBreaks(d.lines) && Inside(d.lines, sx, sy)
    ensures var o, p := Offset(d.lines, d.x, d.y), Offset(d.lines, sx, sy);
            && o <= |Flat(d.lines)| && p <= |Flat(d.lines)|
            && (Flat(DeleteSelected(d, sx, sy).lines)
                == (if o <= p then Deletion(Flat(d.lines), o, p) else Deletion(Flat(d.lines), p, o))
                <==> && Ordered(d.x, d.y, sx, sy)
                     && (d.y == sy || sx == |d.lines[sy]| || d.x + (|d.lines[sy]| - sx) < 77))
  {
    hide Flat, Cut, Grown, Offset, Deletion;
    if Ordered(d.x, d.y, sx, sy) {
      CutDeletesIff(d, sx, sy);
    } else {
      SameTextForwards(d, sx, sy);
      NotDeleted(d, sx, sy);
    }
  }

  /** A selection made forwards is never deleted. */
  lemma NotDeleted(d: Doc, sx: nat, sy: nat)
    requires Valid(d) && NoBreaks(d.lines) && Inside(d.lines, sx, sy) && !Ordered(d.x, d.y, sx, sy)
    ensures var o, p := Offset(d.lines, sx, sy), Offset(d.lines, d.x, d.y);
            && o <= p <= |Flat(d.lines)|
            && o < p
            && Flat(Grown(d, sx, sy).lines) != Deletion(Flat(d.lines), o, p)
  {
    hide Flat, Ended, Led, Grown;
    SameTextForwards(d, sx, sy);
    var s, o, p := Flat(d.lines), Offset(d.lines, sx, sy), Offset(d.lines, d.x, d.y);
    if d.y == sy {
      GrownWithin(d, sx, sy);
      assert |Deletion(s, o, p)| == |s| - (p - o);
    } else {
      EndedSplit(d.lines, sy, d.y);
      GrownHasNoBreaks(d, sx, sy);
      BreaksOfFlat(d.lines);
      BreaksOfFlat(Grown(d, sx, sy).lines);
      DeletionBreaks(s, o, p);
    }
  }

  // ---------------------------------------------------------------------------
  // Step by step
  // ---------------------------------------------------------------------------

  lemma CopiedNothing(lines: seq<string>, sx: nat, sy: nat)
    requires Inside(lines, sx, sy)
    ensures CopiedTo(lines, sx, sy, sy) == ""
  {
  }

  lemma CopiedLine(lines: seq<string>, sx: nat, sy: nat, y: nat)
    requires Inside(lines, sx, sy) && sy <= y < |lines|
    ensures CopiedTo(lines, sx, sy, y + 1) == Copied(lines, sx, sy, |lines[y]|, y) + "\n"
  {
    EndedEmpty([]);
    hide Ended;
    if y == sy {
      assert lines[sy + 1..y + 1] == [];
    } else {
      assert lines[sy + 1..y + 1] == lines[sy + 1..y] + [lines[y]];
      EndedLast(lines[sy + 1..y], lines[y]);
      LineBehind(lines[sy][sx..] + "\n", Ended(lines[sy + 1..y]), lines[y]);
    }
  }

  lemma LineBehind(a: string, b: string, line: string)
    ensures a + (b + line + "\n") == a + b + line[0..|line|] + "\n"
  {
    assert line[0..|line|] == line;
  }

  lemma EndedNext(lines: seq<string>, y: nat)
    requires y < |lines|
    ensures Ended(lines[..y + 1]) == Ended(lines[..y]) + lines[y] + "\n"
  {
    assert lines[..y + 1] == lines[..y] + [lines[y]];
    EndedLast(lines[..y], lines[y]);
  }

  lemma EndedEmpty(lines: seq<string>)
    requires lines == []
    ensures Ended(lines) == ""
  {
  }

  lemma EndedPrefix(lines: seq<string>, y: nat)
    requires y <= |lines|
    ensures Ended(lines[..y]) <= Ended(lines)
  {
    assert lines == lines[..y] + lines[y..];
    EndedConcat(lines[..y], lines[y..]);
  }

  // ---------------------------------------------------------------------------
  // Files
  // ---------------------------------------------------------------------------

  ghost predicate NoBreaks(lines: seq<string>) {
    forall i :: 0 <= i < |lines| ==> '\n' !in lines[i]
  }

  /** No edit puts a line break inside a line: InsertChar is never given one. */
  lemma EditsKeepNoBreaks(d: Doc, c: char, sx: nat, sy: nat)
    requires Valid(d) && NoBreaks(d.lines)
    ensures NoBreaks(PasteOne(d, c).lines) && NoBreaks(Backspace(d).lines)
    ensures Inside(d.lines, sx, sy) && Ordered(d.x, d.y, sx, sy) ==> NoBreaks(Cut(d, sx, sy).lines)
  {
  }

  /** The segments of b between its line breaks. */
  function Split(b: string): (r: seq<string>)
    ensures r != []
  {
    if b == "" then [""]
    else
      var s, c := Split(b[..|b| - 1]), b[|b| - 1];
      if c == '\n' then s + [""] else s[|s| - 1 := s[|s| - 1] + [c]]
  }

  function Clip(s: string): string {
    if |s| <= 77 then s else s[..77]
  }

  function Clips(s: seq<string>): (r: seq<string>)
    ensures |r| == |s| && forall i :: 0 <= i < |s| ==> r[i] == Clip(s[i])
  {
    seq(|s|, i requires 0 <= i < |s| => Clip(s[i]))
  }

  /** ed_buf_to_lines: the first 200 segments, each cut to 77 characters. */
  function Load(b: string): (r: seq<string>)
  {
    var s := Split(b);
    Clips(if |s| <= 200 then s else s[..200])
  }

  lemma {:induction false} SplitHasNoBreaks(b: string)
    ensures NoBreaks(Split(b))
    ensures NoBreaks(Load(b))
  {
    if b != "" { SplitHasNoBreaks(b[..|b| - 1]); }
  }

  /** The lines of the file, in order: at most 200, and of each its first 77 characters. */
  lemma LoadTakes(b: string, i: nat)
    ensures |Load(b)| == if |Split(b)| <= 200 then |Split(b)| else 200
    ensures i < |Load(b)| ==> Load(b)[i] <= Split(b)[i] && |Load(b)[i]| == if |Split(b)[i]| <= 77 then |Split(b)[i]| else 77
  {
  }

  /** The segments that are finished stay as they are. */
  lemma {:induction false} SplitPrefix(b: string, i: nat)
    requires i <= |b|
    ensures |Split(b[..i])| <= |Split(b)|
    ensures Split(b[..i])[..|Split(b[..i])| - 1] <= Split(b)
    decreases |b| - i
  {
    if i < |b| {
      SplitPrefix(b, i + 1);
      assert b[..i + 1][..i] == b[..i];
    } else {
      assert b[..i] == b;
    }
  }

  lemma EndedLast(lines: seq<string>, last: string)
    ensures Ended(lines + [last]) == Ended(lines) + last + "\n"
  {
    EndedConcat(lines, [last]);
    EndedOne(last);
  }

  lemma {:induction false} EndedSplits(b: string)
    ensures Ended(Split(b)) == b + "\n"
  {
    if b == "" {
      EndedOne("");
    } else {
      hide Ended;
      SplitStep(b);
      hide Split;
      var p, c := b[..|b| - 1], b[|b| - 1];
      var s := Split(p);
      var h, t := s[..|s| - 1], s[|s| - 1];
      EndedSplits(p);
      assert s == h + [t];
      EndedLast(h, t);
      if c == '\n' {
        EndedLast(s, "");
        assert b == p + "\n";
      } else {
        EndedLast(h, t + [c]);
        SameButLast(Ended(h), t, p, c);
        assert b == p + [c];
      }
    }
  }

  lemma SplitStep(b: string)
    requires b != ""
    ensures var s, c := Split(b[..|b| - 1]), b[|b| - 1];
            Split(b) == if c == '\n' then s + [""] else s[..|s| - 1] + [s[|s| - 1] + [c]]
  {
  }

  lemma SameButLast(e: string, t: string, p: string, c: char)
    requires e + t + "\n" == p + "\n"
    ensures e + (t + [c]) + "\n" == p + [c] + "\n"
  {
    assert (e + t + "\n")[..|e + t|] == (p + "\n")[..|p|];
    assert e + t == p;
  }

  lemma {:induction false} SplitWord(p: string, t: string)
    requires '\n' !in t
    ensures var s := Split(p); Split(p + t) == s[..|s| - 1] + [s[|s| - 1] + t]
  {
    var s := Split(p);
    if t == "" {
      assert p + t == p && s[|s| - 1] + t == s[|s| - 1];
    } else {
      var u, c := t[..|t| - 1], t[|t| - 1];
      SplitWord(p, u);
      assert (p + t)[..|p + t| - 1] == p + u;
      assert s[|s| - 1] + u + [c] == s[|s| - 1] + t;
    }
  }

  lemma SplitBreak(p: string)
    ensures Split(p + "\n") == Split(p) + [""]
  {
  }

  lemma {:induction false} SplitEnded(lines: seq<string>)
    requires NoBreaks(lines)
    ensures Split(Ended(lines)) == lines + [""]
  {
    if lines != [] {
      var h, t := lines[..|lines| - 1], lines[|lines| - 1];
      SplitEnded(h);
      assert lines == h + [t];
      EndedLast(h, t);
      SplitWord(Ended(h), t);
      assert (h + [""])[..|h|] == h && "" + t == t;
      SplitBreak(Ended(h) + t);
    }
  }

  lemma {:induction false} EndedClipped(s: seq<string>)
    ensures |Ended(Clips(s))| <= |Ended(s)|
    ensures |Ended(Clips(s))| == |Ended(s)| ==> forall i :: 0 <= i < |s| ==> |s[i]| <= 77
  {
    if s != [] {
      EndedClipped(s[1..]);
      assert Clips(s)[1..] == Clips(s[1..]);
    }
  }

  /** Saving a loaded file gives the file with one more line break exactly when it has at most 200 lines
      of at most 77 characters. */
  lemma LoadThenSaveIff(b: string)
    ensures Ended(Load(b)) == b + "\n" <==> |Split(b)| <= 200 && forall s :: s in Split(b) ==> |s| <= 77
  {
    hide Load, Ended;
    var s := Split(b);
    EndedSplits(b);
    LoadParts(b);
    if |s| > 200 {
      EndedConcat(s[..200], s[200..]);
      assert s == s[..200] + s[200..];
      EndedClipped(s[..200]);
      EndedNonempty(s[200..]);
    } else {
      EndedClipped(s);
      if forall t :: t in s ==> |t| <= 77 {
        assert Clips(s) == s;
      }
    }
  }

  lemma LoadParts(b: string)
    ensures var s := Split(b); Load(b) == Clips(if |s| <= 200 then s else s[..200])
  {
  }

  lemma EndedNonempty(s: seq<string>)
    requires s != []
    ensures |Ended(s)| > 0
  {
  }

  /** Loading a saved document gives its lines and one empty line more, or the same lines if there are 200. */
  lemma SaveThenLoad(lines: seq<string>)
    requires Bounded(lines) && NoBreaks(lines)
    ensures Load(Ended(lines)) == if |lines| < 200 then lines + [""] else lines
  {
    hide Load, Ended, Split;
    SplitEnded(lines);
    LoadParts(Ended(lines));
    assert (lines + [""])[..|lines|] == lines;
  }

  /** The buffer that Ctrl-S asks for holds the whole file. */
  lemma {:induction false} SaveSizeSuffices(lines: seq<string>)
    requires Bounded(lines)
    ensures |Ended(lines)| <= |lines| * 78 + 16
  {
    EndedShort(lines);
  }
}
