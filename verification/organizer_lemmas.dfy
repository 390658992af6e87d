/**
 Properties of the organizer that span several operations: the ledger stays
 consistent with the files, and undo and redo are inverse to each other.
 */
module OrganizerLemmas {
  import opened Wrappers
  import opened Paths
  import opened Utils
  import opened Organizer

  lemma NewOrganizerConsistent(fs: FileSystem)
    ensures Consistent(NewOrganizer(fs))
  {
  }

  lemma OrganizePreservesConsistent(w: World, src: Path, destination: string, newName: Option<string>, copyOk: bool)
    requires src in w.fs && Consistent(w)
    ensures Consistent(OrganizeFile(w, src, destination, newName, copyOk).world)
  {
  }

  lemma UndoPreservesConsistent(w: World, removeOk: bool)
    requires Consistent(w)
    ensures Consistent(UndoLastAction(w, removeOk).world)
  {
  }

  lemma RedoPreservesConsistent(w: World, copyOk: bool)
    requires Consistent(w)
    ensures Consistent(RedoLastAction(w, copyOk).world)
  {
  }

  /**
   An organize into a named directory that the environment lets through,
   followed by an undo that may remove files, puts the files back exactly
   as they were; the action now sits alone on the undo stack.
   */
  lemma OrganizeThenUndo(w: World, src: Path, destination: string, newName: Option<string>)
    requires src in w.fs && destination != []
    ensures var o := OrganizeFile(w, src, destination, newName, true);
            var u := UndoLastAction(o.world, true);
            && u.out == Some(o.out)
            && u.world.fs == w.fs
            && u.world.ledger == Ledger(w.ledger.history, [o.out])
  {
  }

  /** A successful undo followed by a successful redo restores both stacks exactly. */
  lemma UndoThenRedo(w: World, removeOk: bool, copyOk: bool)
    requires UndoLastAction(w, removeOk).out.Some?
    requires RedoLastAction(UndoLastAction(w, removeOk).world, copyOk).out.Some?
    ensures RedoLastAction(UndoLastAction(w, removeOk).world, copyOk).out
         == UndoLastAction(w, removeOk).out
    ensures RedoLastAction(UndoLastAction(w, removeOk).world, copyOk).world.ledger == w.ledger
  {
  }

  /**
   On a consistent organizer, a successful redo followed by an undo that may
   remove files restores the whole state, files included: the redone
   destination was free before the redo.
   */
  lemma RedoThenUndo(w: World, copyOk: bool)
    requires Consistent(w)
    requires RedoLastAction(w, copyOk).out.Some?
    ensures UndoLastAction(RedoLastAction(w, copyOk).world, true)
         == Step(w, RedoLastAction(w, copyOk).out)
  {
  }

  /**
   Undo once per entry of `removes` (each entry is whether that removal goes
   through); also reports whether every undo returned an action. No action
   is lost or duplicated along the way.
   */
  function UndoMany(w: World, removes: seq<bool>): (r: (World, bool))
    ensures multiset(r.0.ledger.history + r.0.ledger.undoStack)
         == multiset(w.ledger.history + w.ledger.undoStack)
    decreases |removes|
  {
    if removes == [] then (w, true)
    else
      var s := UndoLastAction(w, removes[0]);
      var rest := UndoMany(s.world, removes[1..]);
      (rest.0, s.out.Some? && rest.1)
  }

  /**
   Redo once per entry of `copies` (each entry is whether that copy goes
   through), the last entry applied last; also reports whether every redo
   returned an action. No action is lost or duplicated along the way.
   */
  function RedoMany(w: World, copies: seq<bool>): (r: (World, bool))
    ensures multiset(r.0.ledger.history + r.0.ledger.undoStack)
         == multiset(w.ledger.history + w.ledger.undoStack)
    decreases |copies|
  {
    if copies == [] then (w, true)
    else
      var before := RedoMany(w, DropLast(copies));
      var s := RedoLastAction(before.0, Last(copies));
      (s.world, before.1 && s.out.Some?)
  }

  /** A successful redo from the stacks a successful undo left restores the stacks before the undo. */
  lemma RedoUndoesUndo(w: World, removeOk: bool, y: World, copyOk: bool)
    requires UndoLastAction(w, removeOk).out.Some?
    requires y.ledger == UndoLastAction(w, removeOk).world.ledger
    requires RedoLastAction(y, copyOk).out.Some?
    ensures RedoLastAction(y, copyOk).world.ledger == w.ledger
  {
  }

  /**
   Undoing `n` actions and then redoing `n` actions, all of them
   successfully, restores both stacks exactly (LIFO order on both sides).
   */
  lemma {:induction false} UndoManyThenRedoMany(w: World, removes: seq<bool>, copies: seq<bool>)
    requires |removes| == |copies|
    requires UndoMany(w, removes).1
    requires RedoMany(UndoMany(w, removes).0, copies).1
    ensures RedoMany(UndoMany(w, removes).0, copies).0.ledger == w.ledger
    decreases |removes|
  {
    if removes != [] {
      var s := UndoLastAction(w, removes[0]);
      var x := UndoMany(w, removes).0;
      assert x == UndoMany(s.world, removes[1..]).0;
      assert UndoMany(s.world, removes[1..]).1;
      var before := RedoMany(x, DropLast(copies));
      assert before.1;
      UndoManyThenRedoMany(s.world, removes[1..], DropLast(copies));
      RedoUndoesUndo(w, removes[0], before.0, Last(copies));
    }
  }
}
