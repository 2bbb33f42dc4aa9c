/** Undo and redo. A snapshot keeps one line and the cursor, so undoing goes back over edits inside
    lines, and not over a join or a split. */
module EditorUndo {
  import opened EditorText

  datatype Snap = Snap(line: string, x: nat, y: nat)

  datatype Editor = Editor(doc: Doc, undo: seq<Snap>, redo: seq<Snap>)

  /** Both stacks hold at most 50 snapshots; the oldest one makes room. */
  function Push(stack: seq<Snap>, s: Snap): seq<Snap> {
    (if |stack| >= 50 then stack[1..] else stack) + [s]
  }

  function Look(d: Doc): Snap
    requires d.y < |d.lines|
  {
    Snap(d.lines[d.y], d.x, d.y)
  }

  /** Writing a snapshot back: the cursor goes to its line even if the document has lost that line. */
  function Put(d: Doc, s: Snap): Doc {
    Doc(if s.y < |d.lines| then d.lines[s.y := s.line] else d.lines, s.x, s.y)
  }

  function SaveUndo(e: Editor): Editor
    requires e.doc.y < |e.doc.lines|
  {
    Editor(e.doc, Push(e.undo, Look(e.doc)), [])
  }

  function Undo(e: Editor): Editor
    requires e.doc.y < |e.doc.lines|
  {
    if e.undo == [] then e
    else Editor(Put(e.doc, e.undo[|e.undo| - 1]), e.undo[..|e.undo| - 1], Push(e.redo, Look(e.doc)))
  }

  function Redo(e: Editor): Editor {
    if e.redo == [] then e
    else Editor(Put(e.doc, e.redo[|e.redo| - 1]), e.undo, e.redo[..|e.redo| - 1])
  }

  // ---------------------------------------------------------------------------
  // The edits, with what they save
  // ---------------------------------------------------------------------------

  function Type(e: Editor, c: char): Editor
    requires e.doc.y < |e.doc.lines| && e.doc.x <= |e.doc.lines[e.doc.y]|
  {
    if |e.doc.lines[e.doc.y]| >= 77 then e else SaveUndo(e).(doc := InsertChar(e.doc, c))
  }

  function Break(e: Editor): Editor
    requires e.doc.y < |e.doc.lines| && e.doc.x <= |e.doc.lines[e.doc.y]|
  {
    if |e.doc.lines| >= 200 then e else SaveUndo(e).(doc := InsertNewline(e.doc))
  }

  /** ed_backspace saves a snapshot even when there is nothing to delete. */
  function Rub(e: Editor): Editor
    requires e.doc.y < |e.doc.lines| && e.doc.x <= |e.doc.lines[e.doc.y]|
  {
    SaveUndo(e).(doc := Backspace(e.doc))
  }

  function PasteStep(e: Editor, c: char): Editor
    requires e.doc.y < |e.doc.lines| && e.doc.x <= |e.doc.lines[e.doc.y]|
  {
    if c == '\n' then Break(e) else Type(e, c)
  }

  /** ed_paste with what it saves; its document is that of Paste. */
  ghost function PasteAll(e: Editor, clip: string): (r: Editor)
    requires Valid(e.doc)
    ensures Valid(r.doc) && r.doc == Paste(e.doc, clip)
    decreases |clip|
  {
    if clip == "" then e
    else
      PasteOneValid(e.doc, clip[0]);
      PasteAll(PasteStep(e, clip[0]), clip[1..])
  }

  // ---------------------------------------------------------------------------
  // One undo
  // ---------------------------------------------------------------------------

  /** One undo takes back one backspace exactly unless it joined two lines. */
  lemma UndoRubIff(e: Editor)
    requires Valid(e.doc)
    ensures Undo(Rub(e)).doc == e.doc
            <==> e.doc.x > 0 || e.doc.y == 0 || |e.doc.lines[e.doc.y - 1]| + |e.doc.lines[e.doc.y]| > 76
  {
  }

  /** One undo never takes back a line break that was inserted. */
  lemma UndoBreakNever(e: Editor)
    requires Valid(e.doc) && |e.doc.lines| < 200
    ensures |Undo(Break(e)).doc.lines| == |e.doc.lines| + 1
  {
  }

  /** An edit forgets what was undone before, so a redo after it does nothing; so does an undo or a redo
      when there is nothing left. */
  lemma EditForgetsRedo(e: Editor, c: char)
    requires Valid(e.doc)
    ensures Type(e, c) != e ==> Redo(Type(e, c)) == Type(e, c)
    ensures Break(e) != e ==> Redo(Break(e)) == Break(e)
    ensures Redo(Rub(e)) == Rub(e)
    ensures (e.undo == [] ==> Undo(e) == e) && (e.redo == [] ==> Redo(e) == e)
    ensures |e.doc.lines| == 200 ==> Break(e) == e
  {
  }

  /** Undo after joining the last line to the one before moves the cursor out of the document. */
  lemma UndoLeavesDocument()
    ensures var e := Editor(Doc(["", "a"], 0, 1), [], []);
            Valid(e.doc) && Undo(Rub(e)).doc == Doc(["a"], 0, 1) && !Valid(Undo(Rub(e)).doc)
  {
    var e := Editor(Doc(["", "a"], 0, 1), [], []);
    assert e.doc.lines[..0] == [] && e.doc.lines[2..] == [];
    assert "" + "a" == "a";
  }

  /** Redo takes back one undo exactly when the snapshot lies on the line of the cursor, or changes nothing. */
  lemma RedoUndoIff(e: Editor)
    requires e.doc.y < |e.doc.lines| && e.undo != [] && e.undo[|e.undo| - 1].y < |e.doc.lines|
    ensures var s := e.undo[|e.undo| - 1];
            Redo(Undo(e)).doc == e.doc <==> s.y == e.doc.y || s.line == e.doc.lines[s.y]
  {
  }

  // ---------------------------------------------------------------------------
  // Runs of edits inside lines
  // ---------------------------------------------------------------------------

  datatype Event = Key(c: char) | Rubout | Move(x: nat, y: nat)

  /** A backspace must not reach the line before, and the cursor must stay inside the document. */
  ghost predicate InLine(e: Editor, ev: Event) {
    && Valid(e.doc)
    && match ev
       case Key(c) => true
       case Rubout => e.doc.x > 0
       case Move(x, y) => y < |e.doc.lines| && x <= |e.doc.lines[y]|
  }

  ghost function Act(e: Editor, ev: Event): (r: Editor)
    requires InLine(e, ev)
    ensures Valid(r.doc)
  {
    match ev
    case Key(c) => PasteInLine(e.doc, c); Type(e, c)
    case Rubout => BackspaceFlat(e.doc); Rub(e)
    case Move(x, y) => e.(doc := Doc(e.doc.lines, x, y))
  }

  lemma PasteInLine(d: Doc, c: char)
    requires Valid(d)
    ensures Valid(InsertChar(d, c))
  {
  }

  ghost predicate InLines(e: Editor, evs: seq<Event>)
    decreases |evs|
  {
    evs == [] || (InLine(e, evs[0]) && InLines(Act(e, evs[0]), evs[1..]))
  }

  ghost function Run(e: Editor, evs: seq<Event>): Editor
    requires InLines(e, evs)
    decreases |evs|
  {
    if evs == [] then e else Run(Act(e, evs[0]), evs[1..])
  }

  /** The event is an edit: all but a move, and a key on a full line. */
  ghost predicate Edits(e: Editor, ev: Event)
    requires InLine(e, ev)
  {
    !ev.Move? && (ev.Key? ==> |e.doc.lines[e.doc.y]| < 77)
  }

  /** The line and the cursor before each edit of the run. */
  ghost function Saved(e: Editor, evs: seq<Event>): seq<Snap>
    requires InLines(e, evs)
    decreases |evs|
  {
    if evs == [] then []
    else
      var rest := Saved(Act(e, evs[0]), evs[1..]);
      if Edits(e, evs[0]) then [Look(e.doc)] + rest else rest
  }

  ghost function PutBack(d: Doc, snaps: seq<Snap>): (r: Doc)
    ensures |r.lines| == |d.lines|
  {
    if snaps == [] then d else Put(PutBack(d, snaps[1..]), snaps[0])
  }

  /** Writing the snapshots of a run back, the last one first, gives the text at its start, with the
      cursor where the first edit was made. */
  lemma {:induction false} PutBackRun(e: Editor, evs: seq<Event>)
    requires InLines(e, evs)
    ensures PutBack(Run(e, evs).doc, Saved(e, evs)).lines == e.doc.lines
    ensures var s := Saved(e, evs);
            s != [] ==> PutBack(Run(e, evs).doc, s) == Doc(e.doc.lines, s[0].x, s[0].y)
    decreases |evs|
  {
    if evs != [] {
      var f := Act(e, evs[0]);
      var rest := Saved(f, evs[1..]);
      PutBackRun(f, evs[1..]);
      if Edits(e, evs[0]) {
        assert ([Look(e.doc)] + rest)[1..] == rest;
      } else {
        assert f.doc.lines == e.doc.lines;
      }
    }
  }

  ghost function Last50(s: seq<Snap>): seq<Snap> {
    if |s| > 50 then s[|s| - 50..] else s
  }

  lemma StacksOfAct(e: Editor, ev: Event)
    requires InLine(e, ev) && |e.undo| <= 50
    ensures var f := Act(e, ev);
            |f.undo| <= 50 &&
            if Edits(e, ev) then f.undo == Push(e.undo, Look(e.doc)) && f.redo == []
            else f.undo == e.undo && f.redo == e.redo
  {
  }

  lemma FewLast50(a: seq<Snap>)
    requires |a| <= 50
    ensures Last50(a) == a
  {
  }

  lemma PushLast50(a: seq<Snap>, s: Snap, b: seq<Snap>)
    requires |a| <= 50
    ensures Last50(Push(a, s) + b) == Last50(a + ([s] + b))
  {
    assert Push(a, s) + b == (if |a| >= 50 then a[1..] else a) + ([s] + b);
  }

  lemma {:induction false} StackAfterRun(e: Editor, evs: seq<Event>)
    requires InLines(e, evs) && |e.undo| <= 50
    ensures Run(e, evs).undo == Last50(e.undo + Saved(e, evs))
    ensures Run(e, evs).redo == if Saved(e, evs) == [] then e.redo else []
    decreases |evs|
  {
    hide Act, Last50, Push, Edits;
    var s := Saved(e, evs);
    if evs == [] {
      assert e.undo + s == e.undo;
      FewLast50(e.undo);
    } else {
      var f := Act(e, evs[0]);
      StacksOfAct(e, evs[0]);
      StackAfterRun(f, evs[1..]);
      if Edits(e, evs[0]) {
        PushLast50(e.undo, Look(e.doc), Saved(f, evs[1..]));
      }
    }
  }

  ghost predicate CanUndo(e: Editor, n: nat) {
    && e.doc.y < |e.doc.lines| && n <= |e.undo|
    && forall i :: |e.undo| - n <= i < |e.undo| ==> e.undo[i].y < |e.doc.lines|
  }

  ghost function UndoTimes(e: Editor, n: nat): Editor
    requires CanUndo(e, n)
    decreases n
  {
    if n == 0 then e else UndoTimes(Undo(e), n - 1)
  }

  ghost function RedoTimes(e: Editor, n: nat): Editor {
    if n == 0 then e else Redo(RedoTimes(e, n - 1))
  }

  lemma UndoOnce(e: Editor, n: nat)
    requires CanUndo(e, n) && n > 0
    ensures CanUndo(Undo(e), n - 1)
    ensures Undo(e).doc == Put(e.doc, e.undo[|e.undo| - 1]) && Undo(e).undo == e.undo[..|e.undo| - 1]
  {
  }

  lemma SplitLast(s: seq<Snap>, n: nat)
    requires 0 < n <= |s|
    ensures s[|s| - n..] == s[..|s| - 1][|s| - n..] + [s[|s| - 1]]
  {
  }

  lemma {:induction false} UndoPutsBack(e: Editor, n: nat)
    requires CanUndo(e, n)
    ensures UndoTimes(e, n).doc == PutBack(e.doc, e.undo[|e.undo| - n..])
    decreases n
  {
    hide Put, Undo;
    if n > 0 {
      UndoOnce(e, n);
      hide CanUndo;
      UndoPutsBack(Undo(e), n - 1);
      SplitLast(e.undo, n);
      PutBackLast(e.doc, e.undo[..|e.undo| - 1][|e.undo| - n..], e.undo[|e.undo| - 1]);
    }
  }

  lemma {:induction false} PutBackLast(d: Doc, snaps: seq<Snap>, s: Snap)
    ensures PutBack(d, snaps + [s]) == PutBack(Put(d, s), snaps)
  {
    if snaps == [] {
      assert ([] + [s])[1..] == [];
    } else {
      PutBackLast(d, snaps[1..], s);
      assert (snaps + [s])[1..] == snaps[1..] + [s];
    }
  }

  lemma {:induction false} SavedInside(e: Editor, evs: seq<Event>)
    requires InLines(e, evs)
    ensures |Run(e, evs).doc.lines| == |e.doc.lines|
    ensures evs != [] ==> Valid(Run(e, evs).doc)
    ensures forall s :: s in Saved(e, evs) ==> s.y < |e.doc.lines|
    decreases |evs|
  {
    if evs != [] {
      SavedInside(Act(e, evs[0]), evs[1..]);
    }
  }

  lemma LastOfRun(e: Editor, evs: seq<Event>)
    requires Valid(e.doc) && InLines(e, evs) && |e.undo| <= 50 && |Saved(e, evs)| <= 50
    ensures var r, n := Run(e, evs), |Saved(e, evs)|;
            CanUndo(r, n) && r.undo[|r.undo| - n..] == Saved(e, evs)
  {
    StackAfterRun(e, evs);
    SavedInside(e, evs);
    var r, s := Run(e, evs), Saved(e, evs);
    assert r.undo[|r.undo| - |s|..] == s;
  }

  /** After a run of at most 50 edits inside lines, as many undos restore the text, and the cursor to
      where the first edit was made. */
  lemma UndoRestores(e: Editor, evs: seq<Event>)
    requires Valid(e.doc) && InLines(e, evs) && |e.undo| <= 50 && |Saved(e, evs)| <= 50
    ensures var r, s := Run(e, evs), Saved(e, evs);
            && CanUndo(r, |s|)
            && UndoTimes(r, |s|).doc.lines == e.doc.lines
            && (s != [] ==> UndoTimes(r, |s|).doc == Doc(e.doc.lines, s[0].x, s[0].y))
  {
    hide Run, Saved, PutBack, UndoTimes, CanUndo, InLines;
    LastOfRun(e, evs);
    UndoPutsBack(Run(e, evs), |Saved(e, evs)|);
    PutBackRun(e, evs);
  }

  lemma {:induction false} RedoTakesBack(e: Editor, n: nat)
    requires CanUndo(e, n) && |e.undo| + |e.redo| <= 50
    requires forall i :: |e.undo| - n <= i < |e.undo| ==> e.undo[i].y == e.doc.y
    ensures RedoTimes(UndoTimes(e, n), n) == Editor(e.doc, e.undo[..|e.undo| - n], e.redo)
    decreases n
  {
    if n > 0 {
      RedoTakesBack(Undo(e), n - 1);
      RedoUndoIff(e);
    } else {
      assert e.undo[..|e.undo|] == e.undo;
    }
  }

  /** If all edits of the run were made on the line the cursor is still on, as many redos give the
      edited text and its cursor again. */
  lemma RedoRestores(e: Editor, evs: seq<Event>)
    requires Valid(e.doc) && InLines(e, evs) && |e.undo| <= 50 && |Saved(e, evs)| <= 50
    requires forall s :: s in Saved(e, evs) ==> s.y == Run(e, evs).doc.y
    ensures var r, n := Run(e, evs), |Saved(e, evs)|;
            CanUndo(r, n) && RedoTimes(UndoTimes(r, n), n).doc == r.doc
  {
    LastOfRun(e, evs);
    StackAfterRun(e, evs);
    var r, s := Run(e, evs), Saved(e, evs);
    if s != [] {
      forall i | |r.undo| - |s| <= i < |r.undo| ensures r.undo[i].y == r.doc.y {
        assert r.undo[i] == s[i - (|r.undo| - |s|)];
      }
      RedoTakesBack(r, |s|);
    }
  }
}
