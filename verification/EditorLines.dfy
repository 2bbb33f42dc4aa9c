/** The lines of the editor in their array of 200 rows of 78 characters, changed in place. */
module EditorLines {
  import opened EditorText
  import opened EditorBlocks

  /** The first n characters of row y. */
  function Cells(rows: array2<char>, y: nat, n: nat): (s: string)
    requires y < rows.Length0 && n <= rows.Length1
    reads rows
    ensures |s| == n && forall j :: 0 <= j < n ==> s[j] == rows[y, j]
  {
    seq(n, j requires 0 <= j < n reads rows => rows[y, j])
  }

  /** Copies a row with its terminating zero. */
  method CopyRow(dst: array2<char>, dy: nat, src: array2<char>, sy: nat, len: nat)
    requires dst.Length1 == 78 && src.Length1 == 78 && dy < dst.Length0 && sy < src.Length0 && len <= 77
    requires dst != src || dy != sy
    modifies dst
    ensures Cells(dst, dy, len) == old(Cells(src, sy, len))
    ensures forall y, n :: 0 <= y < dst.Length0 && y != dy && 0 <= n <= 78 ==> Cells(dst, y, n) == old(Cells(dst, y, n))
  {
    for j := 0 to len + 1
      invariant forall k :: 0 <= k < j ==> dst[dy, k] == old(src[sy, k])
      invariant forall y, k :: 0 <= y < dst.Length0 && y != dy && 0 <= k < 78 ==> dst[y, k] == old(dst[y, k])
    {
      dst[dy, j] := src[sy, j];
    }
  }

  /** A buffer of max characters after t was written to it: what does not fit is dropped. */
  ghost predicate Written(buf: array<char>, offset: nat, max: nat, t: string)
    requires max <= buf.Length
    reads buf
  {
    offset == (if |t| < max then |t| else max) && buf[..offset] == t[..offset]
  }

  lemma WrittenOn(buf: array<char>, max: nat, t: string, u: string)
    requires max <= buf.Length && Written(buf, max, max, t) && t <= u
    ensures Written(buf, max, max, u)
  {
  }

  /** One more character, if there is room. */
  method Put(buf: array<char>, offset: nat, max: nat, c: char, ghost t: string) returns (next: nat)
    requires max <= buf.Length && Written(buf, offset, max, t)
    modifies buf
    ensures Written(buf, next, max, t + [c])
  {
    next := offset;
    if offset < max {
      buf[offset] := c;
      next := offset + 1;
      assert buf[..offset] == t;
    }
  }

  class LineBuffer {
    const lines: array2<char>
    const lineLen: array<nat>
    var lineCount: nat
    ghost const Repr: set<object>

    ghost predicate Shape() {
      {this, lines, lineLen} <= Repr &&
      lines.Length0 == 200 && lines.Length1 == 78 && lineLen.Length == 200
      && (lines as object) != lineLen
    }

    ghost function Row(k: nat): string
      requires Shape() && k < 200 && lineLen[k] <= 77
      reads lines, lineLen
    {
      Cells(lines, k, lineLen[k])
    }

    ghost predicate Valid()
      reads this, lineLen
    {
      Shape() && 1 <= lineCount <= 200 && forall k :: 0 <= k < lineCount ==> lineLen[k] <= 77
    }

    ghost function Rows(): (r: seq<string>)
      requires Valid()
      reads this, lines, lineLen
      ensures |r| == lineCount && forall k :: 0 <= k < lineCount ==> r[k] == Row(k)
      ensures Bounded(r)
    {
      var r := seq(lineCount, k requires 0 <= k < lineCount && Valid() reads this, lines, lineLen => Row(k));
      assert forall k :: 0 <= k < |r| ==> r[k] == Row(k);
      r
    }

    constructor ()
      ensures Valid() && Rows() == [""] && fresh(Repr)
    {
      lines := new char[200, 78]((i, j) => '\0');
      lineLen := new nat[200](i => 0);
      lineCount := 1;
      Repr := {this, lines, lineLen};
    }

    /** Row i becomes a copy of row k. */
    method CopyLine(i: nat, k: nat)
      requires Shape() && i < 200 && k < 200 && lineLen[k] <= 77 && i != k
      modifies lines, lineLen
      ensures lineLen[i] <= 77 && Row(i) == old(Row(k))
      ensures forall n :: 0 <= n < 200 && n != i ==> lineLen[n] == old(lineLen[n])
      ensures forall n :: 0 <= n < 200 && n != i && lineLen[n] <= 77 ==> Row(n) == old(Row(n))
    {
      CopyRow(lines, i, lines, k, lineLen[k]);
      lineLen[i] := lineLen[k];
    }

    /** The lines from y + 1 on move one row down; row y + 1 is left over. */
    method ShiftDown(y: nat)
      requires Valid() && y < lineCount < 200
      modifies lines, lineLen
      ensures forall k :: 0 <= k <= y ==> lineLen[k] <= 77 && Row(k) == old(Rows())[k]
      ensures forall k :: y + 1 < k <= lineCount ==> lineLen[k] <= 77 && Row(k) == old(Rows())[k - 1]
    {
      hide Row;
      ghost var was := Rows();
      var i := lineCount;
      while i > y + 1
        invariant y < i <= lineCount
        invariant forall k :: 0 <= k <= i && k < lineCount ==> lineLen[k] <= 77 && Row(k) == was[k]
        invariant forall k :: i < k <= lineCount ==> lineLen[k] <= 77 && Row(k) == was[k - 1]
      {
        CopyLine(i, i - 1);
        i := i - 1;
      }
    }

    /** The lines from first + remove on move up to first, and the document gets shorter. */
    method ShiftUp(first: nat, remove: nat)
      requires Valid() && 1 <= remove && 1 <= first && first + remove <= lineCount
      modifies this, lines, lineLen
      ensures Valid() && Rows() == old(Rows())[..first] + old(Rows())[first + remove..]
    {
      ghost var was := Rows();
      var i := first;
      hide Row;
      while i < lineCount - remove
        modifies lines, lineLen
        invariant first <= i <= lineCount - remove
        invariant forall k :: 0 <= k < first ==> lineLen[k] <= 77 && Row(k) == was[k]
        invariant forall k :: first <= k < i ==> lineLen[k] <= 77 && Row(k) == was[k + remove]
        invariant forall k :: i <= k < lineCount ==> lineLen[k] <= 77 && Row(k) == was[k]
      {
        CopyLine(i, i + remove);
        i := i + 1;
      }
      lineCount := lineCount - remove;
    }

    /** Types c at column x of line y. */
    method InsertAt(y: nat, x: nat, c: char)
      requires Valid() && y < lineCount && x <= lineLen[y] < 77
      modifies lines, lineLen
      ensures Valid() && Rows() == old(Rows())[y := old(Rows())[y][..x] + [c] + old(Rows())[y][x..]]
    {
      var len := lineLen[y];
      var i := len;
      while i > x
        modifies lines
        invariant x <= i <= len
        invariant forall j :: 0 <= j <= i ==> lines[y, j] == old(lines[y, j])
        invariant forall j :: i < j <= len ==> lines[y, j] == old(lines[y, j - 1])
        invariant forall k, j :: 0 <= k < 200 && k != y && 0 <= j < 78 ==> lines[k, j] == old(lines[k, j])
      {
        lines[y, i] := lines[y, i - 1];
        i := i - 1;
      }
      lines[y, x] := c;
      lines[y, len + 1] := '\0';
      lineLen[y] := len + 1;
      forall k | 0 <= k < lineCount && k != y ensures Row(k) == old(Rows())[k] {}
      assert Row(y) == old(Row(y))[..x] + [c] + old(Row(y))[x..];
    }

    /** Deletes the character before column x of line y. */
    method DeleteBefore(y: nat, x: nat)
      requires Valid() && y < lineCount && 0 < x <= lineLen[y]
      modifies lines, lineLen
      ensures Valid() && Rows() == old(Rows())[y := old(Rows())[y][..x - 1] + old(Rows())[y][x..]]
    {
      CloseGap(y, x - 1, 1);
    }

    /** The end of row y moves del columns to the left, to column x. */
    method ShiftLeft(y: nat, x: nat, del: nat)
      requires Shape() && y < 200 && x + del <= lineLen[y] <= 77
      modifies lines
      ensures Cells(lines, y, lineLen[y] - del) == old(Row(y))[..x] + old(Row(y))[x + del..]
      ensures forall k, n :: 0 <= k < 200 && k != y && 0 <= n <= 78 ==> Cells(lines, k, n) == old(Cells(lines, k, n))
    {
      for i := x to lineLen[y] - del
        invariant forall j :: 0 <= j < x ==> lines[y, j] == old(lines[y, j])
        invariant forall j :: x <= j < i ==> lines[y, j] == old(lines[y, j + del])
        invariant forall j :: i <= j < 78 ==> lines[y, j] == old(lines[y, j])
        invariant forall k, j :: 0 <= k < 200 && k != y && 0 <= j < 78 ==> lines[k, j] == old(lines[k, j])
      {
        lines[y, i] := lines[y, i + del];
      }
    }

    /** Moves the end of line y over the del characters from column x on. */
    method CloseGap(y: nat, x: nat, del: nat)
      requires Valid() && y < lineCount && x + del <= lineLen[y]
      modifies lines, lineLen
      ensures Valid() && Rows() == old(Rows())[y := old(Rows())[y][..x] + old(Rows())[y][x + del..]]
    {
      ShiftLeft(y, x, del);
      ghost var row := Cells(lines, y, lineLen[y] - del);
      lineLen[y] := lineLen[y] - del;
      lines[y, lineLen[y]] := '\0';
      assert Row(y) == row;
      forall k | 0 <= k < lineCount && k != y ensures Row(k) == old(Rows())[k] {}
    }

    /** Row dy becomes its first at characters and then the characters of row sy from column x on. */
    method AppendTail(dy: nat, at: nat, sy: nat, x: nat)
      requires Shape() && dy < 200 && sy < 200 && lineLen[sy] <= 77 && dy != sy && x <= lineLen[sy] && at + (lineLen[sy] - x) <= 77
      modifies lines, lineLen
      ensures lineLen[dy] <= 77 && Row(dy) == old(Cells(lines, dy, at)) + old(Row(sy))[x..]
      ensures forall k :: 0 <= k < 200 && k != dy ==> lineLen[k] == old(lineLen[k])
      ensures forall k :: 0 <= k < 200 && k != dy && lineLen[k] <= 77 ==> Row(k) == old(Row(k))
    {
      var n := lineLen[sy] - x;
      for i := 0 to n
        modifies lines
        invariant forall j :: 0 <= j < at ==> lines[dy, j] == old(lines[dy, j])
        invariant forall j :: at <= j < at + i ==> lines[dy, j] == old(lines[sy, j - at + x])
        invariant forall k, j :: 0 <= k < 200 && k != dy && 0 <= j < 78 ==> lines[k, j] == old(lines[k, j])
      {
        lines[dy, at + i] := lines[sy, x + i];
      }
      lines[dy, at + n] := '\0';
      lineLen[dy] := at + n;
      forall k | 0 <= k < 200 && k != dy && lineLen[k] <= 77 ensures Row(k) == old(Row(k)) {}
      assert Row(dy) == old(Cells(lines, dy, at)) + old(Row(sy))[x..];
    }

    /** Cuts row y off at column x. */
    method Truncate(y: nat, x: nat)
      requires Shape() && y < 200 && x <= lineLen[y] <= 77
      modifies lines, lineLen
      ensures lineLen[y] == x && Row(y) == old(Row(y))[..x]
      ensures forall k :: 0 <= k < 200 && k != y ==> lineLen[k] == old(lineLen[k])
      ensures forall k :: 0 <= k < 200 && k != y && lineLen[k] <= 77 ==> Row(k) == old(Row(k))
    {
      lines[y, x] := '\0';
      lineLen[y] := x;
      forall k | 0 <= k < 200 && k != y && lineLen[k] <= 77 ensures Row(k) == old(Row(k)) {}
      assert Row(y) == old(Row(y))[..x];
    }

    /** Breaks line y at column x. */
    method SplitAt(y: nat, x: nat)
      requires Valid() && y < lineCount < 200 && x <= lineLen[y]
      modifies this, lines, lineLen
      ensures Valid()
      ensures var r := old(Rows()); Rows() == r[..y] + [r[y][..x], r[y][x..]] + r[y + 1..]
    {
      ghost var r := Rows();
      ShiftDown(y);
      AppendTail(y + 1, 0, y, x);
      assert Row(y + 1) == r[y][x..];
      Truncate(y, x);
      lineCount := lineCount + 1;
    }

    /** Joins line y to the line before. */
    method JoinUp(y: nat)
      requires Valid() && 0 < y < lineCount && lineLen[y - 1] + lineLen[y] <= 76
      modifies this, lines, lineLen
      ensures Valid()
      ensures var r := old(Rows()); Rows() == r[..y - 1] + [r[y - 1] + r[y]] + r[y + 1..]
    {
      AppendTail(y - 1, lineLen[y - 1], y, 0);
      ShiftUp(y, 1);
    }

    /** The head of line y and, if it fits, the end of line ey. */
    method JoinEnds(x: nat, y: nat, ex: nat, ey: nat)
      requires Valid() && Inside(Rows(), x, y) && Inside(Rows(), ex, ey) && y != ey
      modifies lines, lineLen
      ensures Valid() && Rows() == old(Rows())[y := CutLine(old(Rows()), x, y, ex, ey)]
    {
      assert Cells(lines, y, x) == Row(y)[..x];
      var tail := lineLen[ey] - ex;
      if x + tail < 77 {
        AppendTail(y, x, ey, ex);
      } else {
        Truncate(y, x);
      }
    }

    /** The copying loop of ed_delete_selection within a line when the distance is negative. */
    method RepeatCells(y: nat, x: nat, r: nat, len: nat)
      requires Shape() && y < 200 && 0 < r <= x <= len <= 77
      modifies lines
      ensures Cells(lines, y, len) == Extend(old(Cells(lines, y, x)), r, len - x)
      ensures forall k, n :: 0 <= k < 200 && k != y && 0 <= n <= 78 ==> Cells(lines, k, n) == old(Cells(lines, k, n))
    {
      for i := x to len
        invariant forall j :: 0 <= j < x ==> lines[y, j] == old(lines[y, j])
        invariant forall j :: x <= j < i ==> lines[y, j] == lines[y, j - r]
        invariant forall k, j :: 0 <= k < 200 && k != y && 0 <= j < 78 ==> lines[k, j] == old(lines[k, j])
      {
        lines[y, i] := lines[y, i - r];
      }
      hide Extend;
      assert Cells(lines, y, len)[..x] == old(Cells(lines, y, x));
      ExtendUnique(old(Cells(lines, y, x)), r, Cells(lines, y, len));
    }

    method StretchLine(y: nat, x: nat, r: nat)
      requires Valid() && y < lineCount && 0 < r <= x <= lineLen[y] && lineLen[y] + r <= 77
      modifies lines, lineLen
      ensures Valid()
      ensures var line := old(Rows())[y]; Rows() == old(Rows())[y := Extend(line[..x], r, |line| + r - x)]
    {
      hide Extend;
      assert Cells(lines, y, x) == Row(y)[..x];
      var len := lineLen[y] + r;
      RepeatCells(y, x, r, len);
      ghost var row := Cells(lines, y, len);
      lines[y, len] := '\0';
      lineLen[y] := len;
      assert Row(y) == row;
      forall k | 0 <= k < lineCount && k != y ensures Row(k) == old(Rows())[k] {}
    }

    /** The loop over the lines when their number to remove is negative: the document gets longer. */
    method RepeatLines(y: nat, r: nat)
      requires Valid() && y < lineCount && 0 < r <= y + 1 && lineCount + r <= 200
      modifies this, lines, lineLen
      ensures Valid() && Rows() == Extend(old(Rows())[..y + 1], r, old(lineCount) + r - y - 1)
    {
      ghost var base := Rows()[..y + 1];
      ghost var goal := Extend(base, r, lineCount + r - y - 1);
      hide Row, Extend;
      var i := y + 1;
      while i < lineCount + r
        modifies lines, lineLen
        invariant y < i <= lineCount + r
        invariant forall k :: 0 <= k < i ==> lineLen[k] <= 77 && Row(k) == goal[k]
      {
        ExtendAt(base, r, lineCount + r - y - 1, i);
        CopyLine(i, i - r);
        i := i + 1;
      }
      lineCount := lineCount + r;
    }

    /** The text part of ed_delete_selection, from the cursor at column x of line y to the start of the
        selection. The source has one loop for either sign of the distance. */
    method DeleteSpan(x: nat, y: nat, sx: nat, sy: nat)
      requires Valid() && Inside(Rows(), x, y) && Inside(Rows(), sx, sy)
      requires Ordered(x, y, sx, sy) || GrowthFits(Doc(Rows(), x, y), sx, sy)
      modifies this, lines, lineLen
      ensures Valid() && Rows() == DeleteSelected(Doc(old(Rows()), x, y), sx, sy).lines
    {
      hide Row, Rows, Cut, Grown;
      if Ordered(x, y, sx, sy) {
        CutSpan(x, y, sx, sy);
      } else {
        GrowSpan(x, y, sx, sy);
      }
    }

    /** The selection was made backwards. */
    method CutSpan(x: nat, y: nat, ex: nat, ey: nat)
      requires Valid() && Inside(Rows(), x, y) && Inside(Rows(), ex, ey) && Ordered(x, y, ex, ey)
      modifies this, lines, lineLen
      ensures Valid() && Rows() == Cut(Doc(old(Rows()), x, y), ex, ey).lines
    {
      if y == ey {
        CloseGap(y, x, ex - x);
      } else {
        JoinEnds(x, y, ex, ey);
        ShiftUp(y + 1, ey - y);
      }
    }

    /** The selection was made forwards. */
    method GrowSpan(x: nat, y: nat, sx: nat, sy: nat)
      requires Valid() && Inside(Rows(), x, y) && Inside(Rows(), sx, sy) && !Ordered(x, y, sx, sy)
      requires GrowthFits(Doc(Rows(), x, y), sx, sy)
      modifies this, lines, lineLen
      ensures Valid() && Rows() == Grown(Doc(old(Rows()), x, y), sx, sy).lines
    {
      hide Extend;
      if y == sy {
        StretchLine(y, x, x - sx);
      } else {
        hide Row;
        ghost var r := Rows();
        JoinEnds(x, y, sx, sy);
        assert Rows()[..y + 1] == r[..y] + [CutLine(r, x, y, sx, sy)];
        RepeatLines(y, y - sy);
      }
    }

    /** Writes line y behind t. */
    method SaveLine(buf: array<char>, from: nat, max: nat, y: nat, ghost t: string) returns (offset: nat)
      requires Valid() && y < lineCount && max <= buf.Length
      requires (buf as object) != lines && (buf as object) != lineLen
      requires Written(buf, from, max, t)
      modifies buf
      ensures Written(buf, offset, max, t + Row(y))
    {
      offset := from;
      var x := 0;
      assert t + Row(y)[..x] == t;
      while x < lineLen[y] && offset < max
        invariant x <= lineLen[y] && Written(buf, offset, max, t + Row(y)[..x])
      {
        offset := Put(buf, offset, max, lines[y, x], t + Row(y)[..x]);
        assert t + Row(y)[..x + 1] == t + Row(y)[..x] + [Row(y)[x]];
        x := x + 1;
      }
      if x < lineLen[y] {
        WrittenOn(buf, max, t + Row(y)[..x], t + Row(y));
      } else {
        assert Row(y)[..x] == Row(y);
      }
    }

    /** ed_lines_to_buf. */
    method Save(buf: array<char>, max: nat) returns (offset: nat)
      requires Valid() && max <= buf.Length && (buf as object) != lines && (buf as object) != lineLen
      modifies buf
      ensures Written(buf, offset, max, Ended(Rows()))
    {
      hide Ended;
      ghost var r := Rows();
      offset := 0;
      var y := 0;
      EndedEmpty(r[..0]);
      while y < lineCount && offset < max
        invariant y <= lineCount && Valid() && Rows() == r
        invariant Written(buf, offset, max, Ended(r[..y]))
      {
        ghost var t := Ended(r[..y]);
        offset := SaveLine(buf, offset, max, y, t);
        EndedNext(r, y);
        if offset < max {
          offset := Put(buf, offset, max, '\n', t + r[y]);
        } else {
          WrittenOn(buf, max, t + r[y], Ended(r[..y + 1]));
        }
        y := y + 1;
      }
      if y < lineCount {
        EndedPrefix(r, y);
        WrittenOn(buf, max, Ended(r[..y]), Ended(r));
      } else {
        assert r[..y] == r;
      }
    }

    /** The document is what has been read of b, up to 200 lines. */
    ghost predicate Loaded(b: string)
      reads this, lines, lineLen
    {
      Valid() && Rows() == Load(b)
    }

    /** The finished segments of b are in the rows before lineCount, and the first x characters of row
        lineCount are the last segment. */
    ghost predicate Loading(b: string, x: nat)
      reads this, lines, lineLen
    {
      && Shape() && lineCount < 200 && lineCount == |Split(b)| - 1
      && (forall k :: 0 <= k < lineCount ==> lineLen[k] <= 77 && Row(k) == Clip(Split(b)[k]))
      && x <= 77 && Cells(lines, lineCount, x) == Clip(Split(b)[lineCount])
    }

    /** The last segment becomes a line. */
    method EndLine(x: nat, ghost b: string)
      requires Loading(b, x)
      modifies this, lines, lineLen
      ensures Loaded(b) && lineCount == old(lineCount) + 1 == |Split(b)| <= 200
    {
      hide Split;
      lines[lineCount, x] := '\0';
      lineLen[lineCount] := x;
      lineCount := lineCount + 1;
      assert Row(lineCount - 1) == old(Cells(lines, lineCount, x));
      assert forall k :: 0 <= k < lineCount - 1 ==> Row(k) == old(Row(k));
      LoadParts(b);
      assert Rows() == Load(b);
    }

    /** One character of a segment; what is beyond column 77 is dropped. */
    method AddChar(c: char, x: nat, ghost b: string) returns (next: nat)
      requires Loading(b, x) && c != '\n'
      modifies lines
      ensures Loading(b + [c], next)
    {
      assert (b + [c])[..|b|] == b;
      next := x;
      if x < 77 {
        lines[lineCount, x] := c;
        next := x + 1;
      }
    }

    /** ed_buf_to_lines. The document always gets a line, so the last test of the source never holds. */
    method ReadFrom(buf: array<char>, size: nat)
      requires Shape() && size <= buf.Length && (buf as object) != lines && (buf as object) != lineLen
      modifies this, lines, lineLen
      ensures Loaded(buf[..size])
    {
      hide Loading, Loaded, Split, Load;
      ghost var b := buf[..size];
      lineCount := 0;
      var x, i := 0, 0;
      LoadingNothing(b[..0]);
      while i <= size
        invariant i <= size + 1 && buf[..size] == b
        invariant i <= size ==> Loading(b[..i], x)
        invariant i > size ==> Loaded(b)
      {
        if i == size || buf[i] == '\n' {
          EndLine(x, b[..i]);
          x := 0;
          if lineCount >= 200 {
            LoadedAll(b, i);
            break;
          }
          if i < size {
            assert b[..i + 1] == b[..i] + "\n";
            NextLine(b[..i]);
          } else {
            assert b[..i] == b;
          }
        } else {
          assert b[..i + 1] == b[..i] + [buf[i]];
          x := AddChar(buf[i], x, b[..i]);
        }
        i := i + 1;
      }
    }

    lemma LoadingNothing(b: string)
      requires Shape() && lineCount == 0 && b == ""
      ensures Loading(b, 0)
    {
    }

    lemma NextLine(b: string)
      requires Loaded(b) && lineCount < 200
      ensures Loading(b + "\n", 0)
    {
      SplitBreak(b);
      var s := Split(b);
      assert Load(b) == Clips(s);
    }

    /** Once there are 200 lines the rest of the file does not matter. */
    lemma LoadedAll(b: string, i: nat)
      requires i <= |b| && (i < |b| ==> b[i] == '\n')
      requires Loaded(b[..i]) && |Split(b[..i])| == 200
      ensures Loaded(b)
    {
      hide Split;
      LoadParts(b);
      LoadParts(b[..i]);
      if i < |b| {
        SplitPrefix(b, i + 1);
        assert b[..i + 1] == b[..i] + "\n";
        SplitBreak(b[..i]);
        assert Split(b)[..200] == Split(b[..i]);
      } else {
        assert b[..i] == b;
      }
    }

    /** Copies columns start to end of line y behind the first p characters of the clipboard. */
    method CopyColumns(clip: array<char>, from: nat, max: nat, y: nat, start: nat, end: nat) returns (p: nat)
      requires Valid() && y < lineCount && start <= end <= lineLen[y]
      requires max < clip.Length && from + (end - start) <= max
      requires (clip as object) != lines && (clip as object) != lineLen
      modifies clip
      ensures p == from + (end - start) && clip[..p] == old(clip[..from]) + Row(y)[start..end]
    {
      p := from;
      var x := start;
      while x < end && p < max
        invariant start <= x <= end && p == from + (x - start)
        invariant clip[..from] == old(clip[..from]) && clip[from..p] == Row(y)[start..x]
      {
        clip[p] := lines[y, x];
        p := p + 1;
        x := x + 1;
      }
    }

    /** ed_copy_selection between two ends in order: the clipboard never fills up. */
    method Copy(clip: array<char>, sx: nat, sy: nat, ex: nat, ey: nat) returns (p: nat)
      requires Valid() && Inside(Rows(), sx, sy) && Inside(Rows(), ex, ey) && Ordered(sx, sy, ex, ey)
      requires clip.Length == 15600 && (clip as object) != lines && (clip as object) != lineLen
      modifies clip
      ensures p < 15600 && clip[..p] == Copied(Rows(), sx, sy, ex, ey)
    {
      hide CopiedTo;
      ghost var r := Rows();
      p := 0;
      var max := 200 * 78 - 1;
      var y := sy;
      CopiedNothing(r, sx, sy);
      while y <= ey && p < max
        invariant sy <= y <= ey + 1 && Valid() && Rows() == r && p <= max
        invariant clip[..p] == if y <= ey then CopiedTo(r, sx, sy, y) else Copied(r, sx, sy, ex, ey)
        invariant y <= ey ==> p <= 78 * 199
      {
        var start := if y == sy then sx else 0;
        var end := if y == ey then ex else lineLen[y];
        p := CopyColumns(clip, p, max, y, start, end);
        assert clip[..p] == Copied(r, sx, sy, end, y);
        if y < ey {
          CopiedLine(r, sx, sy, y);
          CopiedShort(r, sx, sy, y + 1);
        }
        if y < ey && p < max {
          clip[p] := '\n';
          p := p + 1;
        }
        y := y + 1;
      }
    }
  }
}
