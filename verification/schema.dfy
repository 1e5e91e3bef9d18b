/**
 * The lake audit script: every parquet file of the completed-task lake is
 * read for its schema, and a file counts as bad when the read fails or its
 * column names are not exactly the expected list, in the expected order.
 */
module LakeAudit {
  import opened Text

  /** The column list every lake file must carry, in this order. */
  const Expected: seq<string> := [
    "TaskID", "UserName", "TaskName", "TaskCadence", "StartTimestampUTC",
    "EndTimestampUTC", "DurationSeconds", "UploadTimestampUTC", "AppVersion"]

  /** What reading one file's schema gives. */
  datatype SchemaRead = Unreadable | Columns(names: seq<string>)

  predicate IsBad(s: SchemaRead) {
    s.Unreadable? || s.names != Expected
  }

  /** The positions of the bad files, in listing order. */
  function BadFiles(files: seq<SchemaRead>): (r: seq<nat>)
    ensures forall i: nat :: i in r <==> i < |files| && IsBad(files[i])
    ensures forall a, b :: 0 <= a < b < |r| ==> r[a] < r[b]
    ensures forall a :: 0 <= a < |r| ==> r[a] < |files|
    ensures |r| <= |files|
  {
    if |files| == 0 then []
    else
      var n := |files| - 1;
      var before := BadFiles(files[..n]);
      assert forall i: nat :: i < n ==> files[..n][i] == files[i];
      before + (if IsBad(files[n]) then [n] else [])
  }

  /**
   * `main`: one pass over the listed files, adding one for each file whose
   * schema cannot be read or differs from the expected list.
   */
  method CountBad(files: seq<SchemaRead>) returns (bad: nat)
    ensures bad == |BadFiles(files)|
    ensures bad <= |files|
    ensures bad == 0 <==> forall i :: 0 <= i < |files| ==> !IsBad(files[i])
  {
    bad := 0;
    var i := 0;
    while i < |files|
      invariant 0 <= i <= |files|
      invariant bad == |BadFiles(files[..i])|
    {
      BadFilesStep(files, i);
      if IsBad(files[i]) {
        bad := bad + 1;
      }
      i := i + 1;
    }
    assert files[..i] == files;
    NoBadFiles(files);
  }

  /** One more file adds one to the count exactly when it is bad. */
  lemma BadFilesStep(files: seq<SchemaRead>, i: nat)
    requires i < |files|
    ensures |BadFiles(files[..i + 1])| == |BadFiles(files[..i])| + (if IsBad(files[i]) then 1 else 0)
  {
    assert files[..i + 1][..i] == files[..i];
  }

  /** The count is zero exactly when no file is bad. */
  lemma NoBadFiles(files: seq<SchemaRead>)
    ensures |BadFiles(files)| == 0 <==> forall i :: 0 <= i < |files| ==> !IsBad(files[i])
  {
    var r := BadFiles(files);
    if |r| == 0 {
      forall j | 0 <= j < |files| ensures !IsBad(files[j]) {
        assert j !in r;
      }
    } else {
      assert r[0] in r;
    }
  }

  /** The count over a listing split in two is the sum of the counts of the parts. */
  lemma {:induction false} BadFilesConcat(a: seq<SchemaRead>, b: seq<SchemaRead>)
    ensures |BadFiles(a + b)| == |BadFiles(a)| + |BadFiles(b)|
    decreases |b|
  {
    if |b| > 0 {
      var n := |b| - 1;
      assert (a + b)[..|a| + n] == a + b[..n];
      assert (a + b)[|a| + n] == b[n];
      BadFilesConcat(a, b[..n]);
    } else {
      assert a + b == a;
    }
  }

  /** The order the files are listed in does not change the count. */
  lemma {:induction false} BadFilesOrderFree(a: seq<SchemaRead>, b: seq<SchemaRead>)
    requires multiset(a) == multiset(b)
    ensures |BadFiles(a)| == |BadFiles(b)|
    decreases |a|
  {
    if |a| > 0 {
      var x := a[|a| - 1];
      assert x in multiset(b);
      var k :| 0 <= k < |b| && b[k] == x;
      var rest := b[..k] + b[k + 1..];
      assert b == b[..k] + [x] + b[k + 1..];
      assert a == a[..|a| - 1] + [x];
      assert multiset(a[..|a| - 1]) == multiset(rest) by {
        assert multiset(a) == multiset(a[..|a| - 1]) + multiset{x};
        assert multiset(b) == multiset(b[..k] + [x] + b[k + 1..]);
        assert multiset(b) == multiset(rest) + multiset{x};
        assert multiset(a[..|a| - 1]) == multiset(a) - multiset{x};
        assert multiset(rest) == multiset(b) - multiset{x};
      }
      BadFilesOrderFree(a[..|a| - 1], rest);
      BadFilesConcat(a[..|a| - 1], [x]);
      BadFilesConcat(b[..k] + [x], b[k + 1..]);
      BadFilesConcat(b[..k], [x]);
      BadFilesConcat(b[..k], b[k + 1..]);
    } else {
      assert b == [];
    }
  }

  /** A file holding exactly the expected columns in another order is bad. */
  lemma ReorderedColumnsBad(names: seq<string>)
    requires multiset(names) == multiset(Expected) && names != Expected
    ensures IsBad(Columns(names))
    ensures |BadFiles([Columns(names)])| == 1
  {
    assert BadFiles([Columns(names)]) == BadFiles([]) + [0];
  }

  /** Swapping the first two expected columns is such a reordering. */
  lemma SwappedColumnsBad()
    ensures IsBad(Columns([Expected[1], Expected[0]] + Expected[2..]))
  {
    var names := [Expected[1], Expected[0]] + Expected[2..];
    assert names[0] == "UserName";
  }

  /** The expected columns in order are the only readable schema that is not bad. */
  lemma OnlyExpectedPasses(s: SchemaRead)
    ensures !IsBad(s) <==> s == Columns(Expected)
  {
  }
}
