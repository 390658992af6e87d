/**
 A worked run of the organizer: two different files both named `a.jpg` are
 filed into `/out`, both copies are undone, and one is redone.
 */
module Scenario {
  import opened Wrappers
  import opened Paths
  import opened Utils
  import opened Organizer

  lemma SplitJpg()
    ensures SplitExt("a.jpg") == ("a", ".jpg")
  {
    var s := "a.jpg";
    assert s[..1] == "a" && s[1..] == ".jpg";
    assert s[..1][0] == 'a';
    SplitExtAt(s, 1);
  }

  /** The second `a.jpg` filed into `/out` lands at `/out/a_1.jpg`. */
  lemma SecondCopyIsRenamed(fs: FileSystem)
    requires Path("/out", "a.jpg") in fs && Path("/out", "a_1.jpg") !in fs
    ensures UniqueFilename(fs, Path("/out", "a.jpg")) == Path("/out", "a_1.jpg")
  {
    SplitJpg();
    var p := Path("/out", "a.jpg");
    assert DecimalDigits(1) == "1";
    assert Candidate(p, 1) == Path("/out", "a_1.jpg");
    var k := ProbeIndex(fs, p);
    FirstFreeUnique(fs, p, 1, k);
  }

  const Src1 := Path("/in", "a.jpg")
  const Src2 := Path("/in/more", "a.jpg")
  const Out1 := Path("/out", "a.jpg")
  const Out2 := Path("/out", "a_1.jpg")

  function Start(f1: FileData, f2: FileData): FileSystem
  {
    map[Src1 := f1, Src2 := f2]
  }

  function Copy1(f1: FileData): Action
  {
    Action(Src1, Out1, f1.mtime, true)
  }

  function Copy2(f2: FileData): Action
  {
    Action(Src2, Out2, f2.mtime, true)
  }

  lemma FirstOrganize(f1: FileData, f2: FileData)
    ensures OrganizeFile(NewOrganizer(Start(f1, f2)), Src1, "/out", None, true)
         == Step(World(Ledger([Copy1(f1)], []), Start(f1, f2)[Out1 := f1]), Copy1(f1))
  {
  }

  /** A copy the environment lets through, spelled out once the resolved destination is known. */
  lemma OrganizeTo(w: World, src: Path, dir: string, dest: Path)
    requires src in w.fs && dir != []
    requires UniqueFilename(w.fs, Path(dir, src.name)) == dest
    ensures OrganizeFile(w, src, dir, None, true)
         == Step(World(Ledger(w.ledger.history + [Action(src, dest, w.fs[src].mtime, true)], []),
                       w.fs[dest := w.fs[src]]),
                 Action(src, dest, w.fs[src].mtime, true))
  {
  }

  lemma SecondOrganize(f1: FileData, f2: FileData)
    ensures OrganizeFile(World(Ledger([Copy1(f1)], []), Start(f1, f2)[Out1 := f1]), Src2, "/out", None, true)
         == Step(World(Ledger([Copy1(f1), Copy2(f2)], []), Start(f1, f2)[Out1 := f1][Out2 := f2]), Copy2(f2))
  {
    var fs := Start(f1, f2)[Out1 := f1];
    SecondCopyIsRenamed(fs);
    OrganizeTo(World(Ledger([Copy1(f1)], []), fs), Src2, "/out", Out2);
  }

  lemma FirstUndo(f1: FileData, f2: FileData)
    ensures UndoLastAction(World(Ledger([Copy1(f1), Copy2(f2)], []), Start(f1, f2)[Out1 := f1][Out2 := f2]), true)
         == Step(World(Ledger([Copy1(f1)], [Copy2(f2)]), Start(f1, f2)[Out1 := f1]), Some(Copy2(f2)))
  {
  }

  lemma SecondUndo(f1: FileData, f2: FileData)
    ensures UndoLastAction(World(Ledger([Copy1(f1)], [Copy2(f2)]), Start(f1, f2)[Out1 := f1]), true)
         == Step(World(Ledger([], [Copy2(f2), Copy1(f1)]), Start(f1, f2)), Some(Copy1(f1)))
  {
  }

  lemma FirstRedo(f1: FileData, f2: FileData)
    ensures RedoLastAction(World(Ledger([], [Copy2(f2), Copy1(f1)]), Start(f1, f2)), true)
         == Step(World(Ledger([Copy1(f1)], [Copy2(f2)]), Start(f1, f2)[Out1 := f1]), Some(Copy1(f1)))
  {
  }

  /**
   Filing two files named `a.jpg` into `/out` gives `/out/a.jpg` and
   `/out/a_1.jpg`; undoing twice removes both copies and leaves the undo
   stack newest-undone last; a redo then brings back the most recently
   undone action, the first copy `/out/a.jpg`.
   */
  lemma TwoCopiesUndoneOneRedone(f1: FileData, f2: FileData)
    ensures
      var w0 := NewOrganizer(Start(f1, f2));
      var s1 := OrganizeFile(w0, Src1, "/out", None, true);
      var s2 := OrganizeFile(s1.world, Src2, "/out", None, true);
      var u1 := UndoLastAction(s2.world, true);
      var u2 := UndoLastAction(u1.world, true);
      var r1 := RedoLastAction(u2.world, true);
      && s1.out.destination == Out1
      && s2.out.destination == Out2
      && u1.out == Some(s2.out) && u2.out == Some(s1.out)
      && u2.world == World(Ledger([], [s2.out, s1.out]), Start(f1, f2))
      && r1.out == Some(s1.out)
      && r1.world.ledger == Ledger([s1.out], [s2.out])
      && r1.world.fs == Start(f1, f2)[Out1 := f1]
  {
    FirstOrganize(f1, f2);
    SecondOrganize(f1, f2);
    FirstUndo(f1, f2);
    SecondUndo(f1, f2);
    FirstRedo(f1, f2);
  }
}
