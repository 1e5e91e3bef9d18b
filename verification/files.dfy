/**
 * Paths, pathlib's suffix rule, and the write-then-rename protocol every
 * parquet file of the program goes through.  A filesystem is a map from
 * paths to stored tables; a file whose write was interrupted is `Partial`.
 */
module Files {
  import opened Text

  /** A path as its components, root first. */
  type Path = seq<string>

  /** What a path holds: a complete table, or bytes a reader cannot parse. */
  datatype Stored<T> = Whole(value: T) | Partial

  /** `str.rfind`: the last index of `c` in `s`, or `-1`. */
  function LastIndexOf(s: string, c: char): (i: int)
    ensures -1 <= i < |s|
    ensures i >= 0 ==> s[i] == c
    ensures forall j :: i < j < |s| ==> s[j] != c
  {
    if |s| == 0 then -1
    else if s[|s| - 1] == c then |s| - 1
    else LastIndexOf(s[..|s| - 1], c)
  }

  /** `PurePath.suffix` of a file name: from the last dot, unless it leads or ends the name. */
  function Suffix(name: string): (r: string)
    ensures r == "" || (r[0] == '.' && |r| >= 2 && '.' !in r[1..] && EndsWith(name, r) && |r| < |name|)
  {
    var i := LastIndexOf(name, '.');
    if 0 < i < |name| - 1 then
      var r := name[i..];
      assert forall j :: 1 <= j < |r| ==> r[j] == name[i + j];
      r
    else ""
  }

  /** `PurePath.with_suffix`: the last component's suffix replaced (or `suffix` appended). */
  function WithSuffix(p: Path, suffix: string): (r: Path)
    requires |p| > 0 && p[|p| - 1] != ""
    ensures |r| == |p| && r[..|p| - 1] == p[..|p| - 1]
  {
    var name := p[|p| - 1];
    var sfx := Suffix(name);
    p[..|p| - 1] + [name[..|name| - |sfx|] + suffix]
  }

  /** The sibling a table is first written to. */
  function TmpPath(p: Path): Path
    requires |p| > 0 && p[|p| - 1] != ""
  {
    WithSuffix(p, ".parquet.tmp")
  }

  /** The temporary sibling is never the target itself. */
  lemma TmpPathDiffers(p: Path)
    requires |p| > 0 && p[|p| - 1] != ""
    ensures TmpPath(p) != p
  {
    var name := p[|p| - 1];
    var sfx := Suffix(name);
    var stem := name[..|name| - |sfx|];
    var t := TmpPath(p)[|p| - 1];
    assert t == stem + ".parquet.tmp";
  }

  /** A file named `*.parquet` gets the temporary name `*.parquet.tmp`. */
  lemma TmpOfParquetName(dir: Path, stem: string)
    requires stem != "" && stem[0] != '.'
    ensures TmpPath(dir + [stem + ".parquet"]) == dir + [stem + ".parquet.tmp"]
  {
    var p := dir + [stem + ".parquet"];
    var name := stem + ".parquet";
    assert p[|p| - 1] == name;
    assert LastIndexOf(name, '.') == |stem| by {
      assert name[|stem|] == '.';
      var i := LastIndexOf(name, '.');
      assert name[|stem| + 1..] == "parquet";
    }
    assert Suffix(name) == ".parquet";
    assert p[..|p| - 1] == dir;
  }

  /** Temporary files never match the `*.parquet` pattern readers list. */
  lemma TmpIsNotParquet(p: Path)
    requires |p| > 0 && p[|p| - 1] != ""
    ensures !EndsWith(TmpPath(p)[|p| - 1], ".parquet")
  {
    var t := TmpPath(p)[|p| - 1];
    assert t[|t| - 1] == 'p';
  }

  /** Where a write can stop: the directory, the table conversion, the write, the rename. */
  datatype Fault = NoFault | MkdirFails | ConvertFails | WriteFails(leftover: bool) | RenameFails

  /**
   * `atomic_write_parquet`: create the parent, convert, write the sibling
   * `*.parquet.tmp`, then rename it onto the target.  The second component
   * reports whether the call raised.
   */
  function AtomicWrite<T(==)>(fs: map<Path, Stored<T>>, path: Path, content: T, fault: Fault)
    : (r: (map<Path, Stored<T>>, bool))
    requires |path| > 0 && path[|path| - 1] != ""
    ensures r.1 <==> fault != NoFault
    ensures !r.1 ==> path in r.0 && r.0[path] == Whole(content) && TmpPath(path) !in r.0
    ensures r.1 ==> (path in r.0 <==> path in fs) && (path in fs ==> r.0[path] == fs[path])
    ensures forall q :: q != path && q != TmpPath(path) ==>
      (q in r.0 <==> q in fs) && (q in fs ==> r.0[q] == fs[q])
  {
    var tmp := TmpPath(path);
    TmpPathDiffers(path);
    match fault
    case MkdirFails => (fs, true)
    case ConvertFails => (fs, true)
    case WriteFails(leftover) => (if leftover then fs[tmp := Partial] else fs, true)
    case RenameFails => (fs[tmp := Whole(content)], true)
    case NoFault => ((fs - {tmp})[path := Whole(content)], false)
  }
}
