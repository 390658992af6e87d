/**
 The `FileOrganizer`: a two-stack ledger of copy actions. `history` holds the
 committed copies, newest last; `undoStack` holds the undone ones that can be
 redone, newest last. Each operation is a pure transition from the ledger and
 the files to a new ledger, new files and the value the source returns; the
 environment's outcome of each copy or removal is an extra input.
 */
module Organizer {
  import opened Wrappers
  import opened Paths
  import opened Utils

  /**
   One copy action. `timestamp` is the source's modification time when the
   action was built; `success` is what `safe_copy_file` reported. Copy is the
   only kind of action the organizer creates.
   */
  datatype Action = Action(source: Path, destination: Path, timestamp: int, success: bool)

  datatype Ledger = Ledger(history: seq<Action>, undoStack: seq<Action>)

  /** The organizer's stacks together with the files they act on. */
  datatype World = World(ledger: Ledger, fs: FileSystem)

  /** The world after an operation, and what the operation returned. */
  datatype Step<T> = Step(world: World, out: T)

  /** A freshly constructed organizer: both stacks empty. */
  function NewOrganizer(fs: FileSystem): (w: World)
    ensures w.ledger.history == [] && w.ledger.undoStack == []
    ensures w.fs == fs
  {
    World(Ledger([], []), fs)
  }

  function Last<T>(s: seq<T>): T
    requires |s| > 0
  {
    s[|s| - 1]
  }

  function DropLast<T>(s: seq<T>): seq<T>
    requires |s| > 0
  {
    s[..|s| - 1]
  }

  /** The file name `organize_file` asks for: a non-empty new name, else the source's base name. */
  function TargetFilename(src: Path, newName: Option<string>): (f: string)
    ensures newName.Some? && newName.value != [] ==> f == newName.value
    ensures newName.None? || newName.value == [] ==> f == src.name
  {
    match newName
    case Some(n) => if n != [] then n else src.name
    case None => src.name
  }

  /**
   `organize_file(file_info, destination, new_name)`. The destination is the
   resolver's answer for `destination/filename` against the files as they
   are, so it is free and keeps the requested directory. The action is
   always returned; it succeeds exactly when the environment lets the copy
   through. A success appends the action to `history`, empties `undoStack`
   and puts a copy of the source at the destination; a failure changes
   nothing. The source must exist: its modification time is read outside
   any error handling.
   */
  function OrganizeFile(w: World, src: Path, destination: string, newName: Option<string>, copyOk: bool): (r: Step<Action>)
    requires src in w.fs
    ensures r.out.source == src
    ensures r.out.destination == UniqueFilename(w.fs, Path(destination, TargetFilename(src, newName)))
    ensures r.out.destination.dir == destination && r.out.destination !in w.fs
    ensures r.out.timestamp == w.fs[src].mtime
    ensures r.out.success <==> copyOk && destination != []
    ensures r.out.success ==> r.world.ledger == Ledger(w.ledger.history + [r.out], [])
    ensures r.out.success ==> r.world.fs == w.fs[r.out.destination := w.fs[src]]
    ensures !r.out.success ==> r.world == w
  {
    var filename := TargetFilename(src, newName);
    var destPath := UniqueFilename(w.fs, Path(destination, filename));
    var copied := SafeCopyFile(w.fs, src, destPath, copyOk);
    var action := Action(src, destPath, w.fs[src].mtime, copied.ok);
    if copied.ok then
      Step(World(Ledger(w.ledger.history + [action], []), copied.fs), action)
    else
      Step(w, action)
  }

  /**
   `undo_last_action()`. With an empty `history` nothing happens and `None`
   is returned. Otherwise the newest action's destination file is removed
   if it exists (`removeOk` is whether the removal goes through) and the
   action moves from `history` to the top of `undoStack` and is returned; a
   destination that is already gone needs no removal. A failed removal puts
   the action back, so nothing changes and `None` is returned.
   */
  function UndoLastAction(w: World, removeOk: bool): (r: Step<Option<Action>>)
    ensures w.ledger.history == [] ==> r == Step(w, None)
    ensures r.out.Some? <==>
      w.ledger.history != [] && (Last(w.ledger.history).destination !in w.fs || removeOk)
    ensures r.out.Some? ==>
      && r.out.value == Last(w.ledger.history)
      && r.world.ledger == Ledger(DropLast(w.ledger.history), w.ledger.undoStack + [r.out.value])
      && r.world.fs == w.fs - {r.out.value.destination}
    ensures r.out.None? ==> r.world == w
    ensures multiset(r.world.ledger.history + r.world.ledger.undoStack)
         == multiset(w.ledger.history + w.ledger.undoStack)
  {
    var l := w.ledger;
    if l.history == [] then Step(w, None)
    else
      var action := Last(l.history);
      var rest := DropLast(l.history);
      assert l.history == rest + [action];
      if action.destination in w.fs && !removeOk then
        Step(w, None)
      else
        assert multiset(rest + (l.undoStack + [action])) == multiset(l.history + l.undoStack);
        Step(World(Ledger(rest, l.undoStack + [action]), w.fs - {action.destination}), Some(action))
  }

  /**
   `redo_last_action()`. With an empty `undoStack` nothing happens and
   `None` is returned. Otherwise the newest undone action is copied again to
   its recorded destination, without resolving collisions afresh, so a file
   there is overwritten. On success it moves back to `history` and is
   returned, the older undone actions staying where they are; when the copy
   fails it is put back and nothing changes.
   */
  function RedoLastAction(w: World, copyOk: bool): (r: Step<Option<Action>>)
    ensures w.ledger.undoStack == [] ==> r == Step(w, None)
    ensures r.out.Some? <==>
      && w.ledger.undoStack != []
      && copyOk
      && Last(w.ledger.undoStack).destination.dir != []
      && Last(w.ledger.undoStack).source in w.fs
      && Last(w.ledger.undoStack).source != Last(w.ledger.undoStack).destination
    ensures r.out.Some? ==>
      && r.out.value == Last(w.ledger.undoStack)
      && r.world.ledger == Ledger(w.ledger.history + [r.out.value], DropLast(w.ledger.undoStack))
      && r.world.fs == w.fs[r.out.value.destination := w.fs[r.out.value.source]]
    ensures r.out.None? ==> r.world == w
    ensures multiset(r.world.ledger.history + r.world.ledger.undoStack)
         == multiset(w.ledger.history + w.ledger.undoStack)
  {
    var l := w.ledger;
    if l.undoStack == [] then Step(w, None)
    else
      var action := Last(l.undoStack);
      var rest := DropLast(l.undoStack);
      assert l.undoStack == rest + [action];
      var copied := SafeCopyFile(w.fs, action.source, action.destination, copyOk);
      if copied.ok then
        assert multiset((l.history + [action]) + rest) == multiset(l.history + l.undoStack);
        Step(World(Ledger(l.history + [action], rest), copied.fs), Some(action))
      else
        Step(w, None)
  }

  /**
   The organizer's ledger matches the files: every recorded action
   succeeded; committed actions have distinct destinations, all present;
   undone actions have distinct destinations, all absent (so no action is
   in both stacks).
   */
  ghost predicate Consistent(w: World)
  {
    var h, u := w.ledger.history, w.ledger.undoStack;
    && (forall i :: 0 <= i < |h| ==> h[i].success && h[i].destination in w.fs)
    && (forall i :: 0 <= i < |u| ==> u[i].success && u[i].destination !in w.fs)
    && (forall i, j :: 0 <= i < j < |h| ==> h[i].destination != h[j].destination)
    && (forall i, j :: 0 <= i < j < |u| ==> u[i].destination != u[j].destination)
  }

  /** `get_history()`: the committed actions, oldest first; nothing changes. */
  function GetHistory(w: World): (r: seq<Action>)
    ensures r == w.ledger.history
  {
    w.ledger.history
  }

  /** On a consistent organizer, every entry `get_history` reports is a successful copy that is on disk. */
  lemma HistoryEntriesCommitted(w: World)
    requires Consistent(w)
    ensures forall i :: 0 <= i < |GetHistory(w)| ==>
      GetHistory(w)[i].success && GetHistory(w)[i].destination in w.fs
  {
  }
}
