/** How `pathlib` turns an archive member name into an output path below the
    output directory (`outdir / filename.parent / filename.name`). */
module Paths {

  /** A path as the list of its components; a first component "/" is the
      file-system root and the empty path is the working directory. */
  type Path = seq<string>

  /** `name.split("/")`: the pieces between slashes, empty ones included. */
  function Segments(name: string): (r: seq<string>)
    ensures |r| >= 1
    decreases |name|
  {
    if name == [] then [[]]
    else
      var rest := Segments(name[1..]);
      if name[0] == '/' then [[]] + rest else [[name[0]] + rest[0]] + rest[1..]
  }

  /** The segments that `pathlib.PurePosixPath` keeps: empty and "." segments
      are dropped, ".." is kept. */
  function KeepNamed(segments: seq<string>): seq<string>
  {
    if segments == [] then []
    else
      (if segments[0] == "" || segments[0] == "." then [] else [segments[0]]) + KeepNamed(segments[1..])
  }

  /** The components of a member name: `pathlib.PurePosixPath(name).parts`
      without the root. */
  function Components(name: string): seq<string>
  {
    KeepNamed(Segments(name))
  }

  lemma {:induction false} SegmentsPlain(name: string)
    ensures forall i :: 0 <= i < |Segments(name)| ==> '/' !in Segments(name)[i]
    decreases |name|
  {
    if name != [] {
      SegmentsPlain(name[1..]);
    }
  }

  lemma {:induction false} KeepNamedItems(segments: seq<string>)
    ensures forall i :: 0 <= i < |KeepNamed(segments)| ==>
      KeepNamed(segments)[i] in segments && KeepNamed(segments)[i] != "" && KeepNamed(segments)[i] != "."
  {
    if segments != [] {
      KeepNamedItems(segments[1..]);
    }
  }

  /** Every component is a proper name: not empty, not ".", without a slash. */
  lemma ComponentsNamed(name: string)
    ensures forall i :: 0 <= i < |Components(name)| ==>
      Components(name)[i] != "" && Components(name)[i] != "." && '/' !in Components(name)[i]
  {
    SegmentsPlain(name);
    KeepNamedItems(Segments(name));
  }

  predicate IsAbsolute(name: string) {
    |name| > 0 && name[0] == '/'
  }

  /** Where `outdir / name` starts: the root for an absolute name, which replaces
      the output directory, and the output directory otherwise. */
  function Base(outdir: Path, name: string): Path {
    if IsAbsolute(name) then ["/"] else outdir
  }

  /** `outdir / Path(name)`: the output file of a member. */
  function OutPath(outdir: Path, name: string): Path {
    Base(outdir, name) + Components(name)
  }

  /** `outdir / Path(name).parent`: the directory created for a member. A name
      without components has "." as its own parent. */
  function TargetDir(outdir: Path, name: string): (r: Path)
    ensures |r| <= |OutPath(outdir, name)| <= |r| + 1
    ensures OutPath(outdir, name)[..|r|] == r
  {
    var c := Components(name);
    var b := Base(outdir, name);
    if c == [] then b
    else
      assert (b + c)[..|b| + |c| - 1] == b + c[..|c| - 1];
      b + c[..|c| - 1]
  }

  /** The output path of a relative member name textually begins with the
      output directory. A `..` segment stays a component here, so this is not a
      claim about where the file ends up once the path is resolved. */
  lemma RelativeNameStaysBelow(outdir: Path, name: string)
    requires !IsAbsolute(name)
    ensures |OutPath(outdir, name)| >= |outdir| && OutPath(outdir, name)[..|outdir|] == outdir
  {
  }

  lemma {:induction false} SegmentsOfPlainName(name: string)
    requires '/' !in name
    ensures Segments(name) == [name]
    decreases |name|
  {
    if name != [] {
      SegmentsOfPlainName(name[1..]);
      assert [name[0]] + name[1..] == name;
    }
  }

  lemma {:induction false} SegmentsOfJoin(a: string, b: string)
    requires '/' !in a
    ensures Segments(a + "/" + b) == [a] + Segments(b)
    decreases |a|
  {
    if a == [] {
      assert a + "/" + b == ['/'] + b && (['/'] + b)[1..] == b;
    } else {
      var s := a + "/" + b;
      assert s[0] == a[0] && s[1..] == a[1..] + "/" + b;
      SegmentsOfJoin(a[1..], b);
      assert [a[0]] + a[1..] == a;
    }
  }

  /** A name written as `d1/d2/.../file` with plain segments is split at its
      slashes: `outdir / "annotation/x.xml"` is `outdir + ["annotation", "x.xml"]`. */
  lemma {:induction false} ComponentsOfJoin(dir: string, name: string)
    requires '/' !in dir && dir != "" && dir != "."
    ensures Components(dir + "/" + name) == [dir] + Components(name)
  {
    SegmentsOfJoin(dir, name);
    var segs := [dir] + Segments(name);
    assert segs[1..] == Segments(name);
  }

  lemma ComponentsOfPlainName(name: string)
    requires '/' !in name && name != "" && name != "."
    ensures Components(name) == [name]
  {
    SegmentsOfPlainName(name);
    assert [name][1..] == [];
    assert KeepNamed([name]) == [name] + KeepNamed([]);
  }
}
