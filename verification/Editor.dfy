/** The state of the editor: its lines, the cursor, the selection, the clipboard and the two rings of
    snapshots, changed in place. */
module Editor {
  import opened EditorText
  import opened EditorBlocks
  import opened EditorLines
  import U = EditorUndo

  /** The slot of the i-th oldest of count snapshots when the next one goes to slot top. */
  function Slot(top: nat, count: nat, i: nat): (k: nat)
    requires top < 50 && i <= count <= 50
    ensures k < 50
  {
    (top + 50 - count + i) % 50
  }

  /** Adding a snapshot keeps the slots of the others, and gives up the oldest of 50. */
  lemma SlotsAfterPush(top: nat, count: nat, i: nat)
    requires top < 50 && count <= 50 && i < count
    ensures count < 50 ==> Slot((top + 1) % 50, count + 1, i) == Slot(top, count, i)
    ensures count == 50 && i > 0 ==> Slot((top + 1) % 50, 50, i - 1) == Slot(top, 50, i)
    ensures count < 50 || i > 0 ==> Slot(top, count, i) != top
  {
  }

  class SnapRing {
    const rows: array2<char>
    const lens: array<nat>
    const xs: array<nat>
    const ys: array<nat>
    var top: nat
    var count: nat
    ghost const Repr: set<object>

    ghost predicate Shape() {
      && {this, rows, lens, xs, ys} <= Repr
      && rows.Length0 == 50 && rows.Length1 == 78
      && lens.Length == 50 && xs.Length == 50 && ys.Length == 50
      && lens != xs && lens != ys && xs != ys
      && (rows as object) != lens && (rows as object) != xs && (rows as object) != ys
    }

    ghost predicate Good(k: nat)
      requires Shape() && k < 50
      reads lens, xs, ys
    {
      xs[k] <= lens[k] <= 77 && ys[k] < 200
    }

    ghost function At(k: nat): U.Snap
      requires Shape() && k < 50 && Good(k)
      reads rows, lens, xs, ys
    {
      U.Snap(Cells(rows, k, lens[k]), xs[k], ys[k])
    }

    ghost predicate Valid()
      reads this, Repr
    {
      Shape() && top < 50 && count <= 50 && forall i :: 0 <= i < count ==> Good(Slot(top, count, i))
    }

    ghost function Stack(): (r: seq<U.Snap>)
      requires Valid()
      reads this, Repr
    {
      seq(count, i requires 0 <= i < count && Valid() reads this, Repr => At(Slot(top, count, i)))
    }

    constructor ()
      ensures Valid() && Stack() == [] && fresh(Repr)
    {
      rows := new char[50, 78]((i, j) => '\0');
      lens := new nat[50](i => 0);
      xs := new nat[50](i => 0);
      ys := new nat[50](i => 0);
      top, count := 0, 0;
      Repr := {this, rows, lens, xs, ys};
    }

    method Clear()
      requires Valid()
      modifies this
      ensures Valid() && Stack() == []
    {
      top, count := 0, 0;
    }

    /** Fills the slot that is next, and changes no other. */
    method Fill(lines: array2<char>, y: nat, len: nat, x: nat)
      requires Shape() && top < 50 && lines != rows
      requires lines.Length0 == 200 && lines.Length1 == 78 && y < 200 && x <= len <= 77
      modifies rows, lens, xs, ys
      ensures Good(top) && At(top) == U.Snap(old(Cells(lines, y, len)), x, y)
      ensures forall k :: 0 <= k < 50 && k != top && old(Good(k)) ==> Good(k) && At(k) == old(At(k))
    {
      CopyRow(rows, top, lines, y, len);
      lens[top] := len;
      xs[top] := x;
      ys[top] := y;
    }

    /** The line under the cursor becomes the newest snapshot. */
    method Save(lines: array2<char>, y: nat, len: nat, x: nat)
      requires Valid() && lines != rows
      requires lines.Length0 == 200 && lines.Length1 == 78 && y < 200 && x <= len <= 77
      modifies Repr
      ensures Valid() && Stack() == U.Push(old(Stack()), U.Snap(old(Cells(lines, y, len)), x, y))
    {
      ghost var t, c, was := top, count, Stack();
      ghost var now := U.Push(was, U.Snap(Cells(lines, y, len), x, y));
      Fill(lines, y, len, x);
      top := (top + 1) % 50;
      if count < 50 {
        count := count + 1;
      }
      forall i | 0 <= i < count ensures Good(Slot(top, count, i)) && At(Slot(top, count, i)) == now[i] {
        if i == count - 1 {
          assert Slot(top, count, i) == t;
        } else {
          var k := if c == 50 then i + 1 else i;
          SlotsAfterPush(t, c, k);
          assert Slot(top, count, i) == Slot(t, c, k);
          assert was[k] == now[i];
        }
      }
    }

    /** The newest snapshot leaves the stack; it stays in slot top. */
    method Drop()
      requires Valid() && count > 0
      modifies this
      ensures Valid() && Stack() == old(Stack())[..|old(Stack())| - 1]
      ensures Good(top) && At(top) == old(Stack())[|old(Stack())| - 1]
    {
      ghost var t, c, was := top, count, Stack();
      top := (top + 50 - 1) % 50;
      count := count - 1;
      assert was[c - 1] == At(Slot(t, c, c - 1));
      assert top == Slot(t, c, c - 1);
      forall i | 0 <= i < count ensures Good(Slot(top, count, i)) && At(Slot(top, count, i)) == was[i] {
        assert Slot(top, count, i) == Slot(t, c, i);
      }
    }

    /** The newest snapshot goes back to its line. */
    method Restore(lines: array2<char>, lineLen: array<nat>) returns (x: nat, y: nat)
      requires Valid() && count > 0 && lines != rows && lineLen != lens && lineLen != xs && lineLen != ys
      requires lines.Length0 == 200 && lines.Length1 == 78 && lineLen.Length == 200
      requires (lines as object) != lens && (lines as object) != xs && (lines as object) != ys
      requires (lineLen as object) != rows && (lines as object) != lineLen
      modifies this, lines, lineLen
      ensures Valid() && Stack() == old(Stack())[..|old(Stack())| - 1]
      ensures var s := old(Stack())[|old(Stack())| - 1];
              && y == s.y < 200 && x == s.x <= lineLen[y] <= 77 && Cells(lines, y, lineLen[y]) == s.line
      ensures forall k :: 0 <= k < 200 && k != y ==> lineLen[k] == old(lineLen[k])
      ensures forall k, n :: 0 <= k < 200 && k != y && 0 <= n <= 78 ==> Cells(lines, k, n) == old(Cells(lines, k, n))
    {
      ghost var s := Stack();
      Drop();
      assert At(top) == s[|s| - 1];
      x, y := xs[top], ys[top];
      CopyRow(lines, y, rows, top, lens[top]);
      lineLen[y] := lens[top];
    }
  }

  class EditorState {
    const text: LineBuffer
    const undo: SnapRing
    const redo: SnapRing
    const clipboard: array<char>
    var cursorX: nat
    var cursorY: nat
    var selActive: bool
    var selX: nat
    var selY: nat
    var clipboardLen: nat

    /** The parts share no storage. */
    ghost predicate Apart() {
      && text.Repr !! undo.Repr !! redo.Repr
      && this !in text.Repr + undo.Repr + redo.Repr
      && clipboard !in text.Repr + undo.Repr + redo.Repr
    }

    /** Everything but the cursor's place in the document. */
    ghost predicate Shape()
      reads this, text, text.lines, text.lineLen, undo, undo.Repr, redo, redo.Repr, clipboard
    {
      Apart() && text.Valid() && undo.Valid() && redo.Valid() && clipboard.Length == 15600 && clipboardLen < 15600
    }

    ghost predicate Valid()
      reads this, text, text.lines, text.lineLen, undo, undo.Repr, redo, redo.Repr, clipboard
    {
      Shape() && Inside(text.Rows(), cursorX, cursorY)
    }

    ghost function Document(): Doc
      requires Shape()
      reads this, text, text.lines, text.lineLen, undo, undo.Repr, redo, redo.Repr, clipboard
    {
      Doc(text.Rows(), cursorX, cursorY)
    }

    ghost function State(): U.Editor
      requires Shape()
      reads this, text, text.lines, text.lineLen, undo, undo.Repr, redo, redo.Repr, clipboard
    {
      U.Editor(Document(), undo.Stack(), redo.Stack())
    }

    ghost function Clipboard(): string
      requires Shape()
      reads this, text, text.lines, text.lineLen, undo, undo.Repr, redo, redo.Repr, clipboard
    {
      clipboard[..clipboardLen]
    }

    constructor ()
      ensures Valid() && !selActive
      ensures State() == U.Editor(Doc([""], 0, 0), [], []) && Clipboard() == ""
    {
      text := new LineBuffer();
      undo := new SnapRing();
      redo := new SnapRing();
      clipboard := new char[15600](i => '\0');
      cursorX, cursorY, selX, selY, clipboardLen := 0, 0, 0, 0, 0;
      selActive := false;
    }

    /** ed_save_undo. */
    method SaveUndo()
      requires Valid()
      modifies undo.Repr, redo
      ensures Valid() && State() == U.SaveUndo(old(State()))
    {
      undo.Save(text.lines, cursorY, text.lineLen[cursorY], cursorX);
      redo.Clear();
    }

    /** ed_insert_char, which first gives up the selection. */
    method InsertChar(c: char)
      requires Valid()
      modifies this, text.lines, text.lineLen, undo.Repr, redo
      ensures Valid() && State() == U.Type(old(State()), c)
      ensures !selActive && clipboardLen == old(clipboardLen)
    {
      hide SnapRing.Stack, SnapRing.Valid, LineBuffer.Rows;
      selActive := false;
      var y, x := cursorY, cursorX;
      if text.lineLen[y] >= 77 {
        return;
      }
      SaveUndo();
      text.InsertAt(y, x, c);
      cursorX := cursorX + 1;
    }

    /** ed_insert_newline. */
    method InsertNewline()
      requires Valid()
      modifies this, text, text.lines, text.lineLen, undo.Repr, redo
      ensures Valid() && State() == U.Break(old(State()))
      ensures selActive == old(selActive) && clipboardLen == old(clipboardLen)
    {
      hide SnapRing.Stack, SnapRing.Valid, LineBuffer.Rows;
      if text.lineCount >= 200 {
        return;
      }
      SaveUndo();
      text.SplitAt(cursorY, cursorX);
      cursorY := cursorY + 1;
      cursorX := 0;
    }

    /** ed_backspace. */
    method Backspace()
      requires Valid()
      modifies this, text, text.lines, text.lineLen, undo.Repr, redo
      ensures Valid() && State() == U.Rub(old(State()))
    {
      SaveUndo();
      Erase();
    }

    /** ed_backspace without what it saves. */
    method Erase()
      requires Valid()
      modifies this, text, text.lines, text.lineLen
      ensures Valid() && Document() == EditorText.Backspace(old(Document()))
      ensures undo.Stack() == old(undo.Stack()) && redo.Stack() == old(redo.Stack())
    {
      hide SnapRing.Stack, SnapRing.Valid, LineBuffer.Rows;
      var y, x := cursorY, cursorX;
      if x > 0 {
        text.DeleteBefore(y, x);
        cursorX := cursorX - 1;
      } else if y > 0 {
        var prevLen := text.lineLen[y - 1];
        if prevLen + text.lineLen[y] < 77 {
          text.JoinUp(y);
          cursorY := cursorY - 1;
          cursorX := prevLen;
        }
      }
    }

    /** ed_paste. */
    method Paste()
      requires Valid()
      modifies this, text, text.lines, text.lineLen, undo.Repr, redo
      ensures Valid() && State() == U.PasteAll(old(State()), old(Clipboard()))
      ensures Clipboard() == old(Clipboard())
    {
      ghost var clip := Clipboard();
      var i := 0;
      while i < clipboardLen
        invariant Valid() && Clipboard() == clip && i <= |clip|
        invariant U.PasteAll(State(), clip[i..]) == U.PasteAll(old(State()), clip)
      {
        ghost var e := State();
        if clipboard[i] == '\n' {
          InsertNewline();
        } else {
          InsertChar(clipboard[i]);
        }
        assert clip[i..][0] == clip[i] && clip[i..][1..] == clip[i + 1..];
        i := i + 1;
      }
    }

    /** ed_do_undo: the cursor stays inside the document exactly if the line of the snapshot still exists. */
    method DoUndo()
      requires Valid()
      modifies this, text.lines, text.lineLen, undo, redo.Repr
      ensures Shape() && State() == U.Undo(old(State()))
      ensures var s := old(State()).undo;
              Valid() <==> s == [] || s[|s| - 1].y < |old(State()).doc.lines|
    {
      assert |undo.Stack()| == undo.count;
      hide SnapRing.Stack, SnapRing.Valid, LineBuffer.Rows;
      if undo.count == 0 {
        return;
      }
      SaveRedo();
      RestoreUndo();
    }

    /** ed_do_undo, first half: the line under the cursor goes to the redo ring. */
    method SaveRedo()
      requires Valid()
      modifies redo.Repr
      ensures Valid()
      ensures State() == old(State()).(redo := U.Push(old(State()).redo, U.Look(old(Document()))))
    {
      redo.Save(text.lines, cursorY, text.lineLen[cursorY], cursorX);
    }

    /** ed_do_undo, second half. */
    method RestoreUndo()
      requires Shape() && undo.Stack() != []
      modifies this, text.lines, text.lineLen, undo
      ensures var e := old(State());
              var n := |e.undo| - 1;
              && Shape() && State() == U.Editor(U.Put(e.doc, e.undo[n]), e.undo[..n], e.redo)
              && (Valid() <==> e.undo[n].y < |e.doc.lines|)
    {
      cursorX, cursorY := undo.Restore(text.lines, text.lineLen);
    }

    /** ed_do_redo. */
    method DoRedo()
      requires Shape()
      modifies this, text.lines, text.lineLen, undo.Repr, redo
      ensures Shape() && State() == U.Redo(old(State()))
    {
      if redo.count == 0 {
        return;
      }
      cursorX, cursorY := redo.Restore(text.lines, text.lineLen);
    }

    /** ed_copy_selection, whichever end comes first. */
    method CopySelection()
      requires Valid() && (selActive ==> Inside(text.Rows(), selX, selY))
      modifies this, clipboard
      ensures Valid() && State() == old(State()) && selActive == old(selActive)
      ensures !selActive ==> Clipboard() == old(Clipboard())
      ensures old(selActive) ==>
                Clipboard() == Selected(old(text.Rows()), old(selX), old(selY), old(cursorX), old(cursorY))
    {
      if !selActive {
        return;
      }
      var sx, sy, ex, ey := selX, selY, cursorX, cursorY;
      if sy > ey || (sy == ey && sx > ex) {
        sx, ex := ex, sx;
        sy, ey := ey, sy;
      }
      hide Copied;
      clipboardLen := text.Copy(clipboard, sx, sy, ex, ey);
      hide SnapRing.Stack, SnapRing.Valid, LineBuffer.Rows;
    }

    /** ed_delete_selection. What it writes for a selection made forwards must fit. */
    method DeleteSelection()
      requires Valid()
      requires selActive ==> Inside(text.Rows(), selX, selY)
                              && (Ordered(cursorX, cursorY, selX, selY) || GrowthFits(Document(), selX, selY))
      modifies this, text, text.lines, text.lineLen, undo.Repr, redo
      ensures Valid() && !selActive
      ensures State() == if !old(selActive) then old(State())
                         else U.SaveUndo(old(State())).(doc := DeleteSelected(old(Document()), old(selX), old(selY)))
    {
      hide SnapRing.Stack, SnapRing.Valid, LineBuffer.Rows;
      if !selActive {
        return;
      }
      SaveUndo();
      text.DeleteSpan(cursorX, cursorY, selX, selY);
      selActive := false;
    }

    /** What fat_edit_file does with a file it has read. */
    method Open(buf: array<char>, size: nat)
      requires Shape() && size <= buf.Length && buf !in text.Repr
      modifies this, text, text.lines, text.lineLen, undo, redo
      ensures Valid() && !selActive && Clipboard() == old(Clipboard())
      ensures State() == U.Editor(Doc(Load(buf[..size]), 0, 0), [], [])
    {
      hide LineBuffer.Rows;
      Reset();
      text.ReadFrom(buf, size);
      hide SnapRing.Stack, SnapRing.Valid;
    }

    method Reset()
      requires Shape()
      modifies this, undo, redo
      ensures Shape() && !selActive && Clipboard() == old(Clipboard())
      ensures State() == U.Editor(Doc(old(text.Rows()), 0, 0), [], [])
    {
      cursorX, cursorY := 0, 0;
      undo.Clear();
      redo.Clear();
      selActive := false;
      selX, selY := 0, 0;
    }

    /** The file that Ctrl-S writes: the buffer asked for is always long enough. */
    method SaveFile(buf: array<char>) returns (size: nat)
      requires Valid() && buf != clipboard && buf !in text.Repr + undo.Repr + redo.Repr && buf.Length >= text.lineCount * 78 + 16
      modifies buf
      ensures Valid() && State() == old(State())
      ensures size <= buf.Length && buf[..size] == Ended(text.Rows())
    {
      size := text.Save(buf, text.lineCount * 78 + 16);
      SaveSizeSuffices(text.Rows());
    }
  }
}
