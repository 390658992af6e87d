/**
 Paths as the organizer uses them: a directory and a file name, with the
 stem/extension split of `os.path.splitext` and the `stem_k.ext` candidates
 that the collision resolver probes.
 */
module Paths {

  /** `os.path.join(dir, name)`: the directory part and the base name. */
  datatype Path = Path(dir: string, name: string)

  /** Index of the last '.' in `s`, or -1 when there is none. */
  function LastDot(s: string): (i: int)
    ensures -1 <= i < |s|
    ensures i >= 0 ==> s[i] == '.'
    ensures forall j :: i < j < |s| ==> s[j] != '.'
  {
    if |s| == 0 then -1
    else if s[|s| - 1] == '.' then |s| - 1
    else LastDot(s[..|s| - 1])
  }

  predicate AllDots(s: string)
  {
    forall i :: 0 <= i < |s| ==> s[i] == '.'
  }

  /** A name has an extension when some '.' comes after a character that is not a '.'. */
  ghost predicate HasExtension(name: string)
  {
    exists j, i :: 0 <= j < i < |name| && name[j] != '.' && name[i] == '.'
  }

  /**
   `os.path.splitext` on a base name: the extension runs from the last '.'
   to the end, unless every character before that '.' is itself a '.'
   (a leading-dot name such as ".bashrc" has no extension).
   */
  function SplitExt(name: string): (r: (string, string))
    ensures r.0 + r.1 == name
    ensures r.1 != [] <==> HasExtension(name)
    ensures r.1 != [] ==> r.1[0] == '.' && !AllDots(r.0)
    ensures forall i :: 1 <= i < |r.1| ==> r.1[i] != '.'
  {
    var i := LastDot(name);
    if i >= 0 && !AllDots(name[..i]) then
      assert HasExtension(name) by {
        var j :| 0 <= j < i && name[..i][j] != '.';
        assert name[j] != '.' && name[i] == '.';
      }
      (name[..i], name[i..])
    else
      assert !HasExtension(name) by {
        if i >= 0 {
          forall j, k | 0 <= j < k < |name| && name[k] == '.'
            ensures name[j] == '.'
          {
            assert k <= i;
            assert name[..i][j] == '.';
          }
        }
      }
      (name, "")
  }

  function Digit(d: nat): (c: char)
    requires d < 10
    ensures '0' <= c <= '9'
    ensures c as int - '0' as int == d
  {
    ('0' as int + d) as char
  }

  predicate IsDecimal(s: string)
  {
    forall i :: 0 <= i < |s| ==> '0' <= s[i] <= '9'
  }

  /** Python's `str(k)` for a natural number: its decimal digits, most significant first. */
  function DecimalDigits(k: nat): (s: string)
    ensures |s| >= 1
    ensures IsDecimal(s)
  {
    if k < 10 then [Digit(k)] else DecimalDigits(k / 10) + [Digit(k % 10)]
  }

  /** The value of a string of decimal digits. */
  function ParseDecimal(s: string): nat
    requires IsDecimal(s)
  {
    if |s| == 0 then 0
    else ParseDecimal(s[..|s| - 1]) * 10 + (s[|s| - 1] as int - '0' as int)
  }

  lemma {:induction false} ParseDecimalDigits(k: nat)
    ensures ParseDecimal(DecimalDigits(k)) == k
  {
    var s := DecimalDigits(k);
    if k >= 10 {
      ParseDecimalDigits(k / 10);
      assert s[..|s| - 1] == DecimalDigits(k / 10);
    }
  }

  /** Distinct counters print differently. */
  lemma DecimalDigitsInjective(a: nat, b: nat)
    requires DecimalDigits(a) == DecimalDigits(b)
    ensures a == b
  {
    ParseDecimalDigits(a);
    ParseDecimalDigits(b);
  }

  /** The k-th probe of the resolver: `dir/stem_k.ext` for `dir/stem.ext`. */
  function Candidate(p: Path, k: nat): (q: Path)
    ensures q.dir == p.dir
    ensures |q.name| > |p.name|
  {
    var (stem, ext) := SplitExt(p.name);
    Path(p.dir, stem + "_" + DecimalDigits(k) + ext)
  }

  /** Distinct counters give distinct candidates. */
  lemma CandidateInjective(p: Path, a: nat, b: nat)
    requires Candidate(p, a) == Candidate(p, b)
    ensures a == b
  {
    var (stem, ext) := SplitExt(p.name);
    var n := Candidate(p, a).name;
    var da, db := DecimalDigits(a), DecimalDigits(b);
    assert |da| == |db|;
    assert da == n[|stem| + 1 .. |stem| + 1 + |da|];
    assert db == n[|stem| + 1 .. |stem| + 1 + |db|];
    DecimalDigitsInjective(a, b);
  }

  /** Splitting at a known last dot. */
  lemma SplitExtAt(s: string, i: int)
    requires 0 <= i < |s| && s[i] == '.'
    requires forall j :: i < j < |s| ==> s[j] != '.'
    ensures SplitExt(s) == if AllDots(s[..i]) then (s, "") else (s[..i], s[i..])
  {
  }

  lemma SplitExtNoDot(s: string)
    requires forall j :: 0 <= j < |s| ==> s[j] != '.'
    ensures SplitExt(s) == (s, "")
  {
  }

  /**
   A candidate keeps the extension of the path it was made from, and its
   stem is the original stem followed by `_k`.
   */
  lemma CandidateSplit(p: Path, k: nat)
    ensures SplitExt(Candidate(p, k).name)
         == (SplitExt(p.name).0 + "_" + DecimalDigits(k), SplitExt(p.name).1)
  {
    var (stem, ext) := SplitExt(p.name);
    var d := DecimalDigits(k);
    var s := Candidate(p, k).name;
    assert s == (stem + "_" + d) + ext;
    if ext != [] {
      var i := |stem| + 1 + |d|;
      assert s[..i] == stem + "_" + d;
      assert s[i..] == ext;
      var j :| 0 <= j < |stem| && stem[j] != '.';
      assert s[..i][j] != '.';
      SplitExtAt(s, i);
    } else {
      var name := p.name;
      assert s == name + "_" + d;
      var i := LastDot(name);
      if i < 0 {
        SplitExtNoDot(s);
      } else {
        assert AllDots(name[..i]);
        assert s[..i] == name[..i];
        SplitExtAt(s, i);
      }
    }
  }
}
