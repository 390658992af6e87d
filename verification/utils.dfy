/**
 The two filesystem helpers the organizer relies on: the copy primitive that
 reports success as a boolean, and the resolver that picks a destination name
 no file occupies yet.
 */
module Utils {
  import opened Paths

  /** A file's bytes and its modification time (`shutil.copy2` copies both). */
  datatype FileData = FileData(content: seq<bv8>, mtime: int)

  /** The files on disk, by path. */
  type FileSystem = map<Path, FileData>

  /** What `safe_copy_file` reports, and the filesystem it leaves behind. */
  datatype CopyResult = CopyResult(ok: bool, fs: FileSystem)

  /**
   `safe_copy_file(src, dest)`. `envOk` is the environment's verdict on
   everything the model does not see (permissions, free space, a valid
   destination directory). The copy also fails when the destination has no
   directory part (creating the directory '' fails), when the source is
   missing, and when source and destination are the same file. A failure is reported
   as `false`, never raised, and leaves the files as they were; a success
   puts the source's data at `dest`, overwriting whatever was there, and
   touches nothing else.
   */
  function SafeCopyFile(fs: FileSystem, src: Path, dest: Path, envOk: bool): (r: CopyResult)
    ensures r.ok <==> envOk && dest.dir != [] && src in fs && src != dest
    ensures r.ok ==> dest in r.fs && r.fs[dest] == fs[src]
    ensures r.ok ==> r.fs.Keys == fs.Keys + {dest}
    ensures forall q :: q in fs && q != dest ==> q in r.fs && r.fs[q] == fs[q]
    ensures !r.ok ==> r.fs == fs
  {
    if envOk && dest.dir != [] && src in fs && src != dest then CopyResult(true, fs[dest := fs[src]])
    else CopyResult(false, fs)
  }

  /** Every probe `1 .. k-1` is occupied. */
  ghost predicate ProbedOccupied(fs: FileSystem, p: Path, k: nat)
  {
    forall j :: 1 <= j < k ==> Candidate(p, j) in fs
  }

  /** The candidates `1 .. k-1`. */
  function Probed(p: Path, k: nat): set<Path>
  {
    if k <= 1 then {} else Probed(p, k - 1) + {Candidate(p, k - 1)}
  }

  lemma {:induction false} ProbedMembers(p: Path, k: nat, q: Path)
    requires q in Probed(p, k)
    ensures q != p
    ensures exists j :: 1 <= j < k && q == Candidate(p, j)
  {
    if q != Candidate(p, k - 1) {
      ProbedMembers(p, k - 1, q);
    }
  }

  lemma {:induction false} ProbedSize(p: Path, k: nat)
    ensures |Probed(p, k)| == if k == 0 then 0 else k - 1
  {
    if k > 1 {
      ProbedSize(p, k - 1);
      if Candidate(p, k - 1) in Probed(p, k - 1) {
        ProbedMembers(p, k - 1, Candidate(p, k - 1));
        var j :| 1 <= j < k - 1 && Candidate(p, k - 1) == Candidate(p, j);
        CandidateInjective(p, j, k - 1);
      }
    }
  }

  lemma {:induction false} ProbedInside(fs: FileSystem, p: Path, k: nat)
    requires ProbedOccupied(fs, p, k)
    ensures Probed(p, k) <= fs.Keys
  {
    if k > 1 {
      ProbedInside(fs, p, k - 1);
    }
  }

  /**
   Pigeonhole: when the original path and the probes `1 .. k-1` are all
   occupied, they are `k` distinct files, so `k` cannot exceed the number of
   files.
   */
  lemma Pigeonhole(fs: FileSystem, p: Path, k: nat)
    requires p in fs && 1 <= k
    requires ProbedOccupied(fs, p, k)
    ensures k <= |fs|
  {
    ProbedInside(fs, p, k);
    ProbedSize(p, k);
    if p in Probed(p, k) {
      ProbedMembers(p, k, p);
    }
    var all := Probed(p, k) + {p};
    assert |all| == k;
    assert all <= fs.Keys;
    SubsetSize(all, fs.Keys);
  }

  lemma {:induction false} SubsetSize<T>(a: set<T>, b: set<T>)
    requires a <= b
    ensures |a| <= |b|
    decreases a
  {
    if a != {} {
      var x :| x in a;
      SubsetSize(a - {x}, b - {x});
    }
  }

  /**
   The first free counter at or after `k`, given that the original path and
   every earlier probe are occupied.
   */
  function ProbeFrom(fs: FileSystem, p: Path, k: nat): (r: nat)
    requires p in fs && 1 <= k
    requires ProbedOccupied(fs, p, k)
    ensures k <= r <= |fs|
    ensures Candidate(p, r) !in fs
    ensures ProbedOccupied(fs, p, r)
    decreases |fs| - k
  {
    Pigeonhole(fs, p, k);
    if Candidate(p, k) !in fs then k
    else
      Pigeonhole(fs, p, k + 1);
      ProbeFrom(fs, p, k + 1)
  }

  /**
   The counter `generate_unique_filename` stops at: 0 when the path itself
   is free, otherwise the smallest `k >= 1` whose candidate is free.
   */
  function ProbeIndex(fs: FileSystem, p: Path): (k: nat)
    ensures k == 0 <==> p !in fs
    ensures k <= |fs|
    ensures k >= 1 ==> Candidate(p, k) !in fs && ProbedOccupied(fs, p, k)
  {
    if p !in fs then 0 else ProbeFrom(fs, p, 1)
  }

  /**
   `generate_unique_filename` as a function of the current files: the path
   itself when it is free, otherwise `dir/stem_k.ext` for the smallest free
   `k`. The result is never occupied, and it keeps the directory and the
   extension of the path asked for.
   */
  function UniqueFilename(fs: FileSystem, p: Path): (r: Path)
    ensures r !in fs
    ensures p !in fs ==> r == p
    ensures p in fs ==> exists k :: 1 <= k <= |fs| && r == Candidate(p, k) && ProbedOccupied(fs, p, k)
    ensures r.dir == p.dir
    ensures SplitExt(r.name).1 == SplitExt(p.name).1
  {
    var k := ProbeIndex(fs, p);
    if k == 0 then p
    else
      CandidateSplit(p, k);
      Candidate(p, k)
  }

  /** Two free counters that both have every earlier probe occupied are the same counter. */
  lemma FirstFreeUnique(fs: FileSystem, p: Path, a: nat, b: nat)
    requires 1 <= a && 1 <= b
    requires Candidate(p, a) !in fs && ProbedOccupied(fs, p, a)
    requires Candidate(p, b) !in fs && ProbedOccupied(fs, p, b)
    ensures a == b
  {
  }

  /**
   The probing loop of `generate_unique_filename`: tries the path, then
   `stem_1.ext`, `stem_2.ext`, ... and returns the first one absent from the
   files. It terminates because at most `|fs|` probes can be occupied.
   */
  method GenerateUniqueFilename(fs: FileSystem, filepath: Path) returns (r: Path)
    ensures r !in fs
    ensures r == UniqueFilename(fs, filepath)
  {
    var directory := filepath.dir;
    var (name, ext) := SplitExt(filepath.name);
    var counter: nat := 1;
    r := filepath;
    while r in fs
      invariant 1 <= counter
      invariant counter == 1 ==> r == filepath
      invariant counter > 1 ==> filepath in fs && r == Candidate(filepath, counter - 1)
      invariant ProbedOccupied(fs, filepath, counter - 1)
      decreases |fs| - counter
    {
      Pigeonhole(fs, filepath, counter);
      r := Path(directory, name + "_" + DecimalDigits(counter) + ext);
      counter := counter + 1;
    }
    if counter > 1 {
      FirstFreeUnique(fs, filepath, counter - 1, ProbeIndex(fs, filepath));
    }
  }
}
