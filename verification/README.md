# Media file sorter: the organize / undo / redo engine

This project models the part of the media file sorter that files a file into
a destination folder and can take that back. `FileOrganizer` keeps two
stacks. `history` holds the committed copy actions. `undo_stack` holds the
undone actions that can be redone. It has four operations: `organize_file`,
`undo_last_action`, `redo_last_action` and `get_history`. Two helpers from
`utils.py` support it. `generate_unique_filename` picks a destination name
that no file occupies yet, by probing `stem_1.ext`, `stem_2.ext`, and so on.
`safe_copy_file` copies one file and reports success as a boolean.

The model is functional:

- A path is a directory plus a base name (`Paths.Path`). `os.path.join`
  builds one, `os.path.basename` reads its name, and `os.path.splitext` is
  `Paths.SplitExt`.
- The filesystem is a finite map from paths to file data: bytes plus a
  modification time (`Utils.FileSystem`).
- Each operation maps the stacks and the files to new stacks, new files
  and the value the source returns (`Organizer.Step`).
- The environment's verdict on a copy or a removal (permissions, disk
  space) is an extra boolean input.

Files:

- `wrappers.dfy`: `Option`, for the source's `None` returns.
- `paths.dfy`: paths, the stem/extension split, the decimal printing of the
  probe counter, and the probe candidates.
- `utils.dfy`: the copy primitive, the resolver as a function, and its
  probing loop as a method.
- `organizer.dfy`: actions, the ledger, the four operations, and the
  consistency invariant between the stacks and the files.
- `organizer_lemmas.dfy`: properties that span several operations.
- `scenario.dfy`: a worked run with two files named `a.jpg`.

The consistency invariant (`Organizer.Consistent`) has four parts:

- every recorded action succeeded;
- the committed actions have distinct destinations, and all of them are on
  disk;
- the undone actions have distinct destinations, and none of them is on
  disk;
- so no action sits in both stacks.

A fresh organizer satisfies the invariant, and every operation keeps it,
whatever the environment's verdicts.

Both stacks are last-in, first-out. In the worked run, undoing twice
leaves `undo_stack` as `[second copy, first copy]`. A redo pops the newest
entry, so it brings back the first copy `/out/a.jpg`, and the second copy
`/out/a_1.jpg` stays undone (`Scenario.TwoCopiesUndoneOneRedone`).

## Model

| member | source | states |
|---|---|---|
| Paths.SplitExt | utils.py:153 | The split is lossless: stem followed by extension is the name. There is an extension exactly when some '.' follows a character that is not '.'. The extension then starts with the last '.', and the stem is not made only of dots, so ".bashrc" has no extension. |
| Paths.DecimalDigits | utils.py:157 | `str(counter)`: at least one character, all of them decimal digits (so never a '.'). |
| Paths.Candidate | utils.py:157 | The probe `join(directory, f"{name}_{counter}{ext}")` stays in the directory of the path asked for, and its name is strictly longer, so it never equals that path. |
| Paths.DecimalDigitsInjective | utils.py:157 | `str(counter)` gives different text for different counters. |
| Paths.CandidateInjective | utils.py:157 | Different counters give different probe paths `dir/stem_k.ext`. |
| Paths.CandidateSplit | utils.py:151-157 | A probe keeps the extension of the path asked for. Splitting it again gives the original stem followed by `_k`. |
| Utils.SafeCopyFile | utils.py:141-148 | Success exactly when the environment allows it, the destination has a directory part (`os.makedirs('')` fails), the source exists and the source is not the destination. On success the destination holds the source's data (an existing file is overwritten), only the destination is added, and no other file changes. On failure it returns false and the files are unchanged. |
| Utils.Pigeonhole | utils.py:154-158 | If the path itself and probes `1..k-1` are all occupied, then `k` is at most the number of files. This is why the probing loop stops. |
| Utils.ProbeFrom | utils.py:154-158 | Probing from counter `k` (all earlier probes occupied) stops at the first free counter `r >= k`. Every probe before `r` is occupied, and `r` is at most the number of files. |
| Utils.ProbeIndex | utils.py:154-158 | The counter where the loop stops is 0 exactly when the path is free. Otherwise it is the smallest `k >= 1` with a free candidate, and every smaller candidate is occupied. |
| Utils.FirstFreeUnique | utils.py:154-158 | Only one counter can be free while every probe before it is occupied. |
| Utils.UniqueFilename | utils.py:150-160 | The result is never occupied. A free path is returned unchanged. Otherwise the result is `stem_k.ext` for some `k <= |fs|` with every earlier probe occupied. The directory and the extension are kept. |
| Utils.GenerateUniqueFilename | utils.py:150-160 | The probing `while` loop terminates. It returns a free path, the same one `UniqueFilename` describes. |
| Organizer.NewOrganizer | organizer.py:6-8 | A new organizer starts with both stacks empty. |
| Organizer.TargetFilename | organizer.py:17-20 | A non-empty new name is used as given. A missing or empty one falls back to the source's base name. |
| Organizer.OrganizeFile | organizer.py:10-38 | The destination is the resolver's answer for `join(destination, filename)`: free, in the requested directory. The action records the source, that destination and the source's mtime. It is always returned, and it succeeds exactly when the copy is let through and the destination directory is not empty. On success it is appended to `history`, `undo_stack` is emptied, and the destination holds the source's data. On failure nothing changes. |
| Organizer.UndoLastAction | organizer.py:40-56 | An empty `history` gives `None` and no change. Otherwise it returns an action exactly when the destination is already absent or its removal succeeds. The newest entry then moves to the top of `undo_stack` and its destination is gone. A failed removal changes nothing and gives `None`. The multiset of all actions is preserved. |
| Organizer.RedoLastAction | organizer.py:58-71 | An empty `undo_stack` gives `None` and no change. Otherwise the newest undone action is re-copied to its recorded destination, with no new collision check. It succeeds exactly when the copy goes through: the environment allows it, the recorded destination has a directory part, and the source exists and differs from the destination. On success the action is appended to `history`, the older undone entries stay, and the destination holds the source's data. On failure nothing changes. The multiset of all actions is preserved. |
| Organizer.GetHistory | organizer.py:73-75 | Returns exactly the committed actions, oldest first, for any state, and changes nothing. |
| Organizer.HistoryEntriesCommitted | organizer.py:33-36 | For a consistent organizer, every entry `get_history` reports is a successful copy whose destination is on disk. |
| OrganizerLemmas.NewOrganizerConsistent | organizer.py:6-8 | A fresh organizer is consistent with any files. |
| OrganizerLemmas.OrganizePreservesConsistent | organizer.py:17-38 | Organize keeps the stacks consistent with the files, whether the copy succeeds or fails. |
| OrganizerLemmas.UndoPreservesConsistent | organizer.py:40-56 | Undo keeps the stacks consistent with the files, whatever the removal does. |
| OrganizerLemmas.RedoPreservesConsistent | organizer.py:58-71 | Redo keeps the stacks consistent with the files, whatever the copy does. |
| OrganizerLemmas.OrganizeThenUndo | organizer.py:33-52 | A successful organize followed by an undo returns the same action and restores the files exactly. `history` is as before and `undo_stack` holds just that action. |
| OrganizerLemmas.UndoThenRedo | organizer.py:45-68 | A successful undo followed by a successful redo returns the same action and restores both stacks exactly. |
| OrganizerLemmas.RedoThenUndo | organizer.py:45-68 | On a consistent organizer, a successful redo followed by an undo restores the whole state, files included, and returns the redone action. |
| OrganizerLemmas.RedoUndoesUndo | organizer.py:45-68 | A successful redo from the stacks a successful undo left gives back the stacks from before that undo. |
| OrganizerLemmas.UndoMany | organizer.py:40-56 | Any run of undos, successful or not, loses and duplicates no action. |
| OrganizerLemmas.RedoMany | organizer.py:58-71 | Any run of redos, successful or not, loses and duplicates no action. |
| OrganizerLemmas.UndoManyThenRedoMany | organizer.py:40-71 | `n` successful undos followed by `n` successful redos restore both stacks exactly. |
| Scenario.SecondCopyIsRenamed | utils.py:150-160 | With `/out/a.jpg` taken and `/out/a_1.jpg` free, the resolver returns `/out/a_1.jpg`. |
| Scenario.TwoCopiesUndoneOneRedone | organizer.py:10-71 | Two `a.jpg` files filed into `/out` land at `/out/a.jpg` and `/out/a_1.jpg`. Two undos remove both copies and leave `undo_stack` newest-undone last. One redo restores `/out/a.jpg` and leaves the second copy undone. |

## Left out

- Directory creation in `safe_copy_file` (`os.makedirs`) is not modelled, because the model has files only, no directories. Its one failure the model can see is kept: a destination with an empty directory part makes `os.makedirs('')` raise, so that copy always fails.
- Utils.SafeCopyFile: a failed copy leaves the files unchanged. A real `shutil.copy2` that fails part-way may leave a partial destination file; that is not modelled. The error log line is not modelled either.
- Path strings are not normalised. `os.path.join(destination, filename)` is the pair `(destination, filename)`. The following are not modelled: a new name that contains a separator or is absolute, trailing separators, and two spellings of one file (symlinks, `..`).
- `os.path.splitext` is modelled for POSIX base names (no alternative separator).
- Organizer.OrganizeFile requires the source to exist. `os.path.getmtime` sits outside any error handling, so a missing source raises in the original; the model does not represent that exception.
- Action kinds other than copy are not modelled. The organizer creates only copy actions, so the non-copy branches of undo and redo cannot be reached.
- Organizer.UndoLastAction: the printed error message is not modelled. The failure that triggers the rollback is the environment's `removeOk = false`; an `os.path.exists` check that races with another writer is not modelled.
- Aliasing is not modelled. `get_history` returns the live `history` list, and the action dictionaries that organize, undo and redo return are the same objects held on the stacks. A caller that mutates them changes the ledger; the model returns immutable values.
- Organizer.OrganizeFile: the timestamp is an `int`, whereas `os.path.getmtime` returns a float. No operation computes with it, so it is treated as an opaque value copied from the source file.
- Concurrency (the background scan thread) is out of scope. The organizer is used from one thread.
- The file-info dictionary is reduced to its `path`. Metadata, hashing, thumbnails, the GUI, the video player, the scanner and the bootstrap are not part of this model.
