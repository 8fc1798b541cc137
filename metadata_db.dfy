/**
 * The sample metadata store: the two SQLite tables `analysis_root_dirs(id, dir_path)`
 * and `samples(id, analysis_root_dir_id, file_path UNIQUE)`, held in memory as
 * sequences of rows, and the four operations the program runs against them.
 */
module MetadataDb {
  import opened Common

  /** A row of `analysis_root_dirs`. */
  datatype RootRow = RootRow(id: int, dirPath: string)

  /** A row of `samples`. Foreign keys are not enforced, so `rootId` may name no root. */
  datatype SampleRow = SampleRow(id: int, rootId: int, filePath: string)

  /** One listed sample, `AudioFile { id, path }`. */
  datatype AudioFile = AudioFile(id: int, path: string)


  const NoRootTable := "no such table: analysis_root_dirs"
  const NoSampleTable := "Failed to prepare sqlite query: no such table: samples"

  // ---------------------------------------------------------------------------
  // Row ids
  // ---------------------------------------------------------------------------

  function RootIds(roots: seq<RootRow>): (ids: seq<int>)
    ensures |ids| == |roots| && forall i :: 0 <= i < |roots| ==> ids[i] == roots[i].id
  {
    seq(|roots|, i requires 0 <= i < |roots| => roots[i].id)
  }

  function SampleIds(samples: seq<SampleRow>): (ids: seq<int>)
    ensures |ids| == |samples| && forall i :: 0 <= i < |samples| ==> ids[i] == samples[i].id
  {
    seq(|samples|, i requires 0 <= i < |samples| => samples[i].id)
  }

  /**
   * The rowid SQLite gives a new row of a table whose `INTEGER PRIMARY KEY` has no
   * AUTOINCREMENT: one more than the largest id in the table, or 1 when it is empty.
   */
  function NextRowId(ids: seq<int>): (r: int)
    ensures forall i :: 0 <= i < |ids| ==> ids[i] < r
    ensures |ids| == 0 ==> r == 1
    ensures |ids| > 0 ==> r - 1 in ids
  {
    if |ids| == 0 then 1
    else
      var rest := NextRowId(ids[1..]);
      if |ids| == 1 || ids[0] + 1 >= rest then ids[0] + 1 else rest
  }

  // ---------------------------------------------------------------------------
  // Table invariants
  // ---------------------------------------------------------------------------

  ghost predicate UniqueRootIds(roots: seq<RootRow>) {
    forall i, j :: 0 <= i < j < |roots| ==> roots[i].id != roots[j].id
  }

  /** No constraint enforces this one: it holds because roots are only ever added by get-or-insert. */
  ghost predicate UniqueDirPaths(roots: seq<RootRow>) {
    forall i, j :: 0 <= i < j < |roots| ==> roots[i].dirPath != roots[j].dirPath
  }

  ghost predicate UniqueSampleIds(samples: seq<SampleRow>) {
    forall i, j :: 0 <= i < j < |samples| ==> samples[i].id != samples[j].id
  }

  /** The `UNIQUE` constraint on `samples.file_path`. */
  ghost predicate UniquePaths(samples: seq<SampleRow>) {
    forall i, j :: 0 <= i < j < |samples| ==> samples[i].filePath != samples[j].filePath
  }

  ghost predicate TablesWellFormed(roots: seq<RootRow>, samples: seq<SampleRow>) {
    UniqueRootIds(roots) && UniqueDirPaths(roots) && UniqueSampleIds(samples) && UniquePaths(samples)
  }

  // ---------------------------------------------------------------------------
  // Lookups: `SELECT id ... WHERE dir_path = ?1` and `... WHERE file_path = ?1`
  // ---------------------------------------------------------------------------

  /** The id of the first root row whose path is `dir`, if there is one. */
  function RootIdOf(roots: seq<RootRow>, dir: string): (r: Option<int>)
    ensures r.None? <==> forall i :: 0 <= i < |roots| ==> roots[i].dirPath != dir
    ensures r.Some? ==> exists i :: 0 <= i < |roots| && roots[i].dirPath == dir && roots[i].id == r.value
  {
    if |roots| == 0 then None
    else if roots[0].dirPath == dir then Some(roots[0].id)
    else
      var r := RootIdOf(roots[1..], dir);
      assert forall i :: 1 <= i < |roots| ==> roots[i] == roots[1..][i - 1];
      r
  }

  /** The id of the first sample row whose path is `path`, if there is one. */
  function SampleIdOf(samples: seq<SampleRow>, path: string): (r: Option<int>)
    ensures r.None? <==> forall i :: 0 <= i < |samples| ==> samples[i].filePath != path
    ensures r.Some? ==> exists i :: 0 <= i < |samples| && samples[i].filePath == path && samples[i].id == r.value
  {
    if |samples| == 0 then None
    else if samples[0].filePath == path then Some(samples[0].id)
    else
      var r := SampleIdOf(samples[1..], path);
      assert forall i :: 1 <= i < |samples| ==> samples[i] == samples[1..][i - 1];
      r
  }

  /** A row that holds `dir` behind rows that do not is the one the lookup finds. */
  lemma {:induction false} RootIdOfFirstMatch(roots: seq<RootRow>, dir: string, k: nat)
    requires k < |roots| && roots[k].dirPath == dir
    requires forall i :: 0 <= i < k ==> roots[i].dirPath != dir
    ensures RootIdOf(roots, dir) == Some(roots[k].id)
  {
    if k > 0 {
      RootIdOfFirstMatch(roots[1..], dir, k - 1);
    }
  }

  lemma {:induction false} SampleIdOfFirstMatch(samples: seq<SampleRow>, path: string, k: nat)
    requires k < |samples| && samples[k].filePath == path
    requires forall i :: 0 <= i < k ==> samples[i].filePath != path
    ensures SampleIdOf(samples, path) == Some(samples[k].id)
  {
    if k > 0 {
      SampleIdOfFirstMatch(samples[1..], path, k - 1);
    }
  }

  /** Under the UNIQUE constraint the lookup returns the id of the one row holding the path. */
  lemma SampleIdOfUnique(samples: seq<SampleRow>, k: nat)
    requires UniquePaths(samples) && k < |samples|
    ensures SampleIdOf(samples, samples[k].filePath) == Some(samples[k].id)
  {
    SampleIdOfFirstMatch(samples, samples[k].filePath, k);
  }

  // ---------------------------------------------------------------------------
  // Listing: `SELECT id, file_path FROM samples WHERE id > ?1 ORDER BY file_path LIMIT ?2`
  // ---------------------------------------------------------------------------

  /**
   * SQLite's BINARY collation: memcmp over the UTF-8 bytes, then the shorter string
   * first. UTF-8 byte order agrees with code point order, so comparing characters
   * gives the same order.
   */
  predicate PathLess(a: string, b: string)
    decreases |a|
  {
    if |a| == 0 then |b| > 0
    else if |b| == 0 then false
    else if a[0] != b[0] then a[0] < b[0]
    else PathLess(a[1..], b[1..])
  }

  lemma {:induction false} PathLessIrreflexive(a: string)
    ensures !PathLess(a, a)
    decreases |a|
  {
    if |a| > 0 {
      PathLessIrreflexive(a[1..]);
    }
  }

  lemma {:induction false} PathLessTransitive(a: string, b: string, c: string)
    requires PathLess(a, b) && PathLess(b, c)
    ensures PathLess(a, c)
    decreases |a|
  {
    if |a| > 0 && |b| > 0 && |c| > 0 && a[0] == b[0] == c[0] {
      PathLessTransitive(a[1..], b[1..], c[1..]);
    }
  }

  lemma {:induction false} PathLessTotal(a: string, b: string)
    requires a != b
    ensures PathLess(a, b) || PathLess(b, a)
    decreases |a|
  {
    if |a| > 0 && |b| > 0 && a[0] == b[0] {
      assert a == [a[0]] + a[1..] && b == [b[0]] + b[1..];
      PathLessTotal(a[1..], b[1..]);
    }
  }

  /** The rows of `samples` whose id is above the threshold, in table order. */
  function Above(samples: seq<SampleRow>, threshold: int): (r: seq<SampleRow>)
    ensures |r| <= |samples|
  {
    if |samples| == 0 then []
    else if samples[0].id > threshold then [samples[0]] + Above(samples[1..], threshold)
    else Above(samples[1..], threshold)
  }

  /** The filter keeps exactly the rows whose id is above the threshold. */
  lemma {:induction false} AboveMembers(samples: seq<SampleRow>, threshold: int)
    ensures forall x :: x in Above(samples, threshold) <==> x in samples && x.id > threshold
  {
    if |samples| > 0 {
      AboveMembers(samples[1..], threshold);
      assert samples == [samples[0]] + samples[1..];
    }
  }

  lemma {:induction false} AboveUniquePaths(samples: seq<SampleRow>, threshold: int)
    requires UniquePaths(samples)
    ensures UniquePaths(Above(samples, threshold))
  {
    if |samples| > 0 {
      var tail := samples[1..];
      AboveMembers(tail, threshold);
      assert UniquePaths(tail) by {
        forall i, j | 0 <= i < j < |tail| ensures tail[i].filePath != tail[j].filePath {
          assert tail[i] == samples[i + 1] && tail[j] == samples[j + 1];
        }
      }
      AboveUniquePaths(tail, threshold);
      if samples[0].id > threshold {
        var rest := Above(tail, threshold);
        forall x | x in rest ensures x.filePath != samples[0].filePath {
          var k :| 0 <= k < |tail| && tail[k] == x;
          assert x == samples[k + 1];
        }
      }
    }
  }

  ghost predicate AscendingPaths(rows: seq<SampleRow>) {
    forall i, j :: 0 <= i < j < |rows| ==> PathLess(rows[i].filePath, rows[j].filePath)
  }

  /** Places `x` in front of the first row whose path is not below its own. */
  function InsertByPath(x: SampleRow, rows: seq<SampleRow>): (r: seq<SampleRow>)
    ensures |r| == |rows| + 1
    ensures forall y :: y in r <==> y == x || y in rows
  {
    if |rows| == 0 || !PathLess(rows[0].filePath, x.filePath) then [x] + rows
    else [rows[0]] + InsertByPath(x, rows[1..])
  }

  /** `ORDER BY file_path`, as an insertion sort. */
  function SortByPath(rows: seq<SampleRow>): (r: seq<SampleRow>)
    ensures |r| == |rows|
    ensures forall y :: y in r <==> y in rows
  {
    if |rows| == 0 then [] else InsertByPath(rows[0], SortByPath(rows[1..]))
  }

  lemma {:induction false} InsertByPathAscending(x: SampleRow, rows: seq<SampleRow>)
    requires AscendingPaths(rows)
    requires forall y :: y in rows ==> y.filePath != x.filePath
    ensures AscendingPaths(InsertByPath(x, rows))
  {
    var r := InsertByPath(x, rows);
    if |rows| == 0 {
    } else if !PathLess(rows[0].filePath, x.filePath) {
      PathLessTotal(x.filePath, rows[0].filePath);
      forall i, j | 0 <= i < j < |r| ensures PathLess(r[i].filePath, r[j].filePath) {
        if i == 0 && j > 1 {
          PathLessTransitive(x.filePath, rows[0].filePath, rows[j - 1].filePath);
        }
      }
    } else {
      var tail := rows[1..];
      assert AscendingPaths(tail) by {
        forall i, j | 0 <= i < j < |tail| ensures PathLess(tail[i].filePath, tail[j].filePath) {
          assert tail[i] == rows[i + 1] && tail[j] == rows[j + 1];
        }
      }
      InsertByPathAscending(x, tail);
      var rest := InsertByPath(x, tail);
      forall i, j | 0 <= i < j < |r| ensures PathLess(r[i].filePath, r[j].filePath) {
        if i == 0 {
          var y := rest[j - 1];
          assert y in rest;
          if y != x {
            var k :| 0 <= k < |tail| && tail[k] == y;
            assert y == rows[k + 1];
          }
        } else {
          assert r[i] == rest[i - 1] && r[j] == rest[j - 1];
        }
      }
    }
  }

  lemma {:induction false} SortByPathAscending(rows: seq<SampleRow>)
    requires UniquePaths(rows)
    ensures AscendingPaths(SortByPath(rows))
  {
    if |rows| > 0 {
      var tail := rows[1..];
      assert UniquePaths(tail) by {
        forall i, j | 0 <= i < j < |tail| ensures tail[i].filePath != tail[j].filePath {
          assert tail[i] == rows[i + 1] && tail[j] == rows[j + 1];
        }
      }
      SortByPathAscending(tail);
      forall y | y in SortByPath(tail) ensures y.filePath != rows[0].filePath {
        var k :| 0 <= k < |tail| && tail[k] == y;
        assert y == rows[k + 1];
      }
      InsertByPathAscending(rows[0], SortByPath(tail));
    }
  }

  function Min(a: int, b: int): int { if a <= b then a else b }

  /** The rows the listing query yields, in the order it yields them. */
  function QueryRows(samples: seq<SampleRow>, startOffset: int, limit: nat): (r: seq<SampleRow>)
  {
    var sorted := SortByPath(Above(samples, startOffset));
    sorted[..Min(limit, |sorted|)]
  }

  function ToAudioFiles(rows: seq<SampleRow>): (files: seq<AudioFile>)
    ensures |files| == |rows|
    ensures forall i :: 0 <= i < |rows| ==> files[i] == AudioFile(rows[i].id, rows[i].filePath)
  {
    if |rows| == 0 then [] else [AudioFile(rows[0].id, rows[0].filePath)] + ToAudioFiles(rows[1..])
  }

  /**
   * The listing is exactly the first `limit` qualifying rows by path: it holds
   * only rows whose id is above the threshold, in strictly ascending path order,
   * as many as there are or `limit` of them, and every qualifying row it leaves
   * out sorts after every row it keeps.
   */
  lemma QueryRowsFirstByPath(samples: seq<SampleRow>, startOffset: int, limit: nat)
    requires UniquePaths(samples)
    ensures var r := QueryRows(samples, startOffset, limit);
      && |r| == Min(limit, |Above(samples, startOffset)|)
      && (forall x :: x in r ==> x in samples && x.id > startOffset)
      && AscendingPaths(r)
      && (forall x, i :: x in samples && x.id > startOffset && x !in r && 0 <= i < |r| ==>
            PathLess(r[i].filePath, x.filePath))
  {
    var q := Above(samples, startOffset);
    AboveMembers(samples, startOffset);
    AboveUniquePaths(samples, startOffset);
    SortByPathAscending(q);
    var sorted := SortByPath(q);
    var r := QueryRows(samples, startOffset, limit);
    assert r == sorted[..Min(limit, |sorted|)];
    forall x, i | x in samples && x.id > startOffset && x !in r && 0 <= i < |r|
      ensures PathLess(r[i].filePath, x.filePath)
    {
      assert x in sorted;
      var j :| 0 <= j < |sorted| && sorted[j] == x;
      assert forall k :: 0 <= k < |r| ==> r[k] == sorted[k] && r[k] != x;
      assert j >= |r|;
      assert r[i] == sorted[i];
    }
  }

  /** The listing never holds two rows with the same id, since it holds no two rows with the same path. */
  lemma QueryRowsDistinct(samples: seq<SampleRow>, startOffset: int, limit: nat)
    requires UniquePaths(samples) && UniqueSampleIds(samples)
    ensures var r := QueryRows(samples, startOffset, limit);
      forall i, j :: 0 <= i < j < |r| ==> r[i].id != r[j].id && r[i].filePath != r[j].filePath
  {
    QueryRowsFirstByPath(samples, startOffset, limit);
    var r := QueryRows(samples, startOffset, limit);
    forall i, j | 0 <= i < j < |r| ensures r[i].id != r[j].id && r[i].filePath != r[j].filePath {
      PathLessIrreflexive(r[i].filePath);
      assert r[i] in samples && r[j] in samples;
      var a :| 0 <= a < |samples| && samples[a] == r[i];
      var b :| 0 <= b < |samples| && samples[b] == r[j];
      assert a != b;
    }
  }

  /**
   * `start_offset` is an id threshold, not a position: with paths sorted against the
   * order of ids, the page from offset 0 and the page from offset 2 are the same rows.
   */
  lemma IdThresholdPagesOverlap()
    ensures var rows := [SampleRow(1, 1, "c"), SampleRow(2, 1, "d"), SampleRow(3, 1, "a"), SampleRow(4, 1, "b")];
      QueryRows(rows, 0, 2) == QueryRows(rows, 2, 2) == [SampleRow(3, 1, "a"), SampleRow(4, 1, "b")]
  {
    var a, b, c, d := SampleRow(3, 1, "a"), SampleRow(4, 1, "b"), SampleRow(1, 1, "c"), SampleRow(2, 1, "d");
    ExampleSorted(a, b, c, d);
    ExampleAbove(a, b, c, d);
    ExamplePathOrder();
    assert SortByPath([a, b]) == [a, b] by {
      assert [a, b][1..] == [b];
    }
    assert [a, b, c, d][..2] == [a, b];
  }

  lemma ExampleAbove(a: SampleRow, b: SampleRow, c: SampleRow, d: SampleRow)
    requires a.id == 3 && b.id == 4 && c.id == 1 && d.id == 2
    ensures Above([c, d, a, b], 0) == [c, d, a, b]
    ensures Above([c, d, a, b], 2) == [a, b]
  {
    assert [c, d, a, b][1..] == [d, a, b] && [d, a, b][1..] == [a, b] && [a, b][1..] == [b];
    assert [b][1..] == [];
    assert Above([b], 0) == [b] && Above([a, b], 0) == [a, b] && Above([d, a, b], 0) == [d, a, b];
    assert Above([b], 2) == [b] && Above([a, b], 2) == [a, b] && Above([d, a, b], 2) == [a, b];
  }

  lemma ExamplePathOrder()
    ensures PathLess("a", "b") && PathLess("a", "c") && PathLess("b", "c") && PathLess("c", "d")
    ensures !PathLess("b", "a") && !PathLess("c", "a") && !PathLess("d", "b") && !PathLess("d", "c")
  {
    assert "a"[1..] == "" && "b"[1..] == "";
  }

  lemma ExampleSorted(a: SampleRow, b: SampleRow, c: SampleRow, d: SampleRow)
    requires a.filePath == "a" && b.filePath == "b" && c.filePath == "c" && d.filePath == "d"
    ensures SortByPath([c, d, a, b]) == [a, b, c, d]
  {
    ExamplePathOrder();
    assert [c, d, a, b][1..] == [d, a, b] && [d, a, b][1..] == [a, b] && [a, b][1..] == [b];
    assert SortByPath([b]) == [b];
    assert SortByPath([a, b]) == [a, b];
    assert InsertByPath(d, [b]) == [b, d];
    assert SortByPath([d, a, b]) == [a, b, d];
    assert InsertByPath(c, [d]) == [c, d];
    assert InsertByPath(c, [b, d]) == [b, c, d];
  }

  // ---------------------------------------------------------------------------
  // The database
  // ---------------------------------------------------------------------------

  /** `MetadataDatabase` and the state of its SQLite connection. */
  class MetadataDatabase {
    /** Whether `analysis_root_dirs`, `samples` and the `idx_file_path` index exist. */
    var tablesExist: bool
    var roots: seq<RootRow>
    var samples: seq<SampleRow>
    /** The connection's `last_insert_rowid()`: the id of the latest successful INSERT, 0 before any. */
    var lastInsertRowid: int

    ghost predicate Valid()
      reads this
    {
      && (!tablesExist ==> roots == [] && samples == [])
      && TablesWellFormed(roots, samples)
    }

    /** `load_from_disk`: a connection to a store file written by this program (or a new, empty one). */
    constructor (existingTables: bool, existingRoots: seq<RootRow>, existingSamples: seq<SampleRow>)
      requires !existingTables ==> existingRoots == [] && existingSamples == []
      requires TablesWellFormed(existingRoots, existingSamples)
      ensures Valid()
      ensures tablesExist == existingTables && roots == existingRoots && samples == existingSamples
      ensures lastInsertRowid == 0
    {
      tablesExist := existingTables;
      roots := existingRoots;
      samples := existingSamples;
      lastInsertRowid := 0;
    }

    /** `SELECT id from analysis_root_dirs WHERE dir_path=?1`, first row. */
    method SelectRootId(dir: string) returns (found: Option<int>)
      requires Valid() && tablesExist
      ensures found.None? <==> forall i :: 0 <= i < |roots| ==> roots[i].dirPath != dir
      ensures found.Some? ==> exists i :: 0 <= i < |roots| && roots[i].dirPath == dir && roots[i].id == found.value
      ensures found == RootIdOf(roots, dir)
    {
      var i := 0;
      while i < |roots|
        invariant 0 <= i <= |roots|
        invariant forall k :: 0 <= k < i ==> roots[k].dirPath != dir
      {
        if roots[i].dirPath == dir {
          RootIdOfFirstMatch(roots, dir, i);
          return Some(roots[i].id);
        }
        i := i + 1;
      }
      return None;
    }

    /** `INSERT INTO analysis_root_dirs (dir_path) VALUES (?1)`. */
    method InsertRootRow(dir: string)
      requires Valid() && tablesExist
      requires forall i :: 0 <= i < |roots| ==> roots[i].dirPath != dir
      modifies this
      ensures Valid()
      ensures tablesExist && samples == old(samples)
      ensures lastInsertRowid == NextRowId(RootIds(old(roots)))
      ensures roots == old(roots) + [RootRow(lastInsertRowid, dir)]
    {
      var id := NextRowId(RootIds(roots));
      roots := roots + [RootRow(id, dir)];
      lastInsertRowid := id;
    }

    /** `get_id_for_analysis_dir`: get-or-insert on the root table. */
    method GetIdForAnalysisDir(dir: string) returns (r: Result<int>)
      requires Valid()
      modifies this
      ensures Valid()
      ensures tablesExist == old(tablesExist) && samples == old(samples)
      ensures !tablesExist ==>
        r == Err(NoRootTable) && roots == old(roots) && lastInsertRowid == old(lastInsertRowid)
      ensures tablesExist && RootIdOf(old(roots), dir).Some? ==>
        r == Ok(RootIdOf(old(roots), dir).value) && roots == old(roots) && lastInsertRowid == old(lastInsertRowid)
      ensures tablesExist && RootIdOf(old(roots), dir).None? ==>
        var id := NextRowId(RootIds(old(roots)));
        r == Ok(id) && roots == old(roots) + [RootRow(id, dir)] && lastInsertRowid == id
    {
      if !tablesExist {
        return Err(NoRootTable);
      }
      var found := SelectRootId(dir);
      if found.Some? {
        r := Ok(found.value);
      } else {
        InsertRootRow(dir);
        r := Ok(lastInsertRowid);
      }
    }

    /** `initialize`: create the tables and the path index if absent, then get-or-insert the root. */
    method Initialize(analysisRootDir: string) returns (r: Result<int>)
      requires Valid()
      modifies this
      ensures Valid() && tablesExist
      ensures samples == old(samples)
      ensures RootIdOf(old(roots), analysisRootDir).Some? ==>
        r == Ok(RootIdOf(old(roots), analysisRootDir).value) && roots == old(roots)
        && lastInsertRowid == old(lastInsertRowid)
      ensures RootIdOf(old(roots), analysisRootDir).None? ==>
        var id := NextRowId(RootIds(old(roots)));
        r == Ok(id) && roots == old(roots) + [RootRow(id, analysisRootDir)] && lastInsertRowid == id
    {
      tablesExist := true;
      r := GetIdForAnalysisDir(analysisRootDir);
    }

    /** `INSERT INTO samples (file_path, analysis_root_dir_id) VALUES (?1, ?2)`; false when rejected. */
    method InsertSampleRow(filePath: string, rootId: int) returns (ok: bool)
      requires Valid()
      modifies this
      ensures Valid()
      ensures tablesExist == old(tablesExist) && roots == old(roots)
      ensures ok <==> tablesExist && SampleIdOf(old(samples), filePath).None?
      ensures ok ==> lastInsertRowid == NextRowId(SampleIds(old(samples)))
      ensures ok ==> samples == old(samples) + [SampleRow(lastInsertRowid, rootId, filePath)]
      ensures !ok ==> samples == old(samples) && lastInsertRowid == old(lastInsertRowid)
    {
      if !tablesExist || SampleIdOf(samples, filePath).Some? {
        return false;
      }
      var id := NextRowId(SampleIds(samples));
      samples := samples + [SampleRow(id, rootId, filePath)];
      lastInsertRowid := id;
      ok := true;
    }

    /** `SELECT id FROM samples WHERE file_path = ?1`, first row. */
    method SelectSampleId(filePath: string) returns (found: Option<int>)
      requires Valid() && tablesExist
      ensures found.None? <==> forall i :: 0 <= i < |samples| ==> samples[i].filePath != filePath
      ensures found.Some? ==> exists i :: 0 <= i < |samples| && samples[i].filePath == filePath && samples[i].id == found.value
      ensures found == SampleIdOf(samples, filePath)
    {
      var i := 0;
      while i < |samples|
        invariant 0 <= i <= |samples|
        invariant forall k :: 0 <= k < i ==> samples[k].filePath != filePath
      {
        if samples[i].filePath == filePath {
          SampleIdOfFirstMatch(samples, filePath, i);
          return Some(samples[i].id);
        }
        i := i + 1;
      }
      return None;
    }

    /**
     * `insert_sample_metadata`: try the INSERT; when it is rejected, look the path up.
     * The lookup cannot come back empty, since a present path is the only reason
     * the INSERT is rejected once the tables exist.
     */
    method InsertSampleMetadata(filePath: string, analysisRootDirId: int) returns (r: Result<int>)
      requires Valid()
      modifies this
      ensures Valid()
      ensures tablesExist == old(tablesExist) && roots == old(roots)
      ensures !tablesExist ==>
        r == Err(NoSampleTable) && samples == old(samples) && lastInsertRowid == old(lastInsertRowid)
      ensures tablesExist && SampleIdOf(old(samples), filePath).None? ==>
        var id := NextRowId(SampleIds(old(samples)));
        r == Ok(id) && samples == old(samples) + [SampleRow(id, analysisRootDirId, filePath)]
        && lastInsertRowid == id
      ensures tablesExist && SampleIdOf(old(samples), filePath).Some? ==>
        r == Ok(SampleIdOf(old(samples), filePath).value) && samples == old(samples)
        && lastInsertRowid == old(lastInsertRowid)
    {
      var inserted := InsertSampleRow(filePath, analysisRootDirId);
      if inserted {
        r := Ok(lastInsertRowid);
      } else if !tablesExist {
        r := Err(NoSampleTable);
      } else {
        var found := SelectSampleId(filePath);
        if found.Some? {
          r := Ok(found.value);
        } else {
          r := Err("Failed to insert or lookup id for sample " + filePath);
        }
      }
    }

    /** `list_audio_files`: the query's rows, pushed one by one onto `files`. */
    method ListAudioFiles(startOffset: U32, limit: U32) returns (r: Result<seq<AudioFile>>)
      requires Valid()
      ensures !tablesExist ==> r == Err(NoSampleTable)
      ensures tablesExist ==> r == Ok(ToAudioFiles(QueryRows(samples, startOffset, limit)))
      ensures r.Ok? ==> |r.value| <= limit
      ensures r.Ok? ==> forall i :: 0 <= i < |r.value| ==>
        var f := r.value[i];
        f.id > startOffset && exists k :: 0 <= k < |samples| && samples[k].id == f.id && samples[k].filePath == f.path
      ensures r.Ok? ==> forall i, j :: 0 <= i < j < |r.value| ==> PathLess(r.value[i].path, r.value[j].path)
    {
      if !tablesExist {
        return Err(NoSampleTable);
      }
      var rows := QueryRows(samples, startOffset, limit);
      var files: seq<AudioFile> := [];
      var i := 0;
      while i < |rows|
        invariant 0 <= i <= |rows|
        invariant files == ToAudioFiles(rows[..i])
      {
        assert rows[..i + 1] == rows[..i] + [rows[i]];
        ToAudioFilesAppend(rows[..i], rows[i]);
        files := files + [AudioFile(rows[i].id, rows[i].filePath)];
        i := i + 1;
      }
      assert rows[..i] == rows;
      ListingOfQuery(samples, startOffset, limit);
      r := Ok(files);
    }
  }

  /** The listing's files, read off the query's rows: at most `limit`, above the threshold, stored, ascending. */
  lemma ListingOfQuery(samples: seq<SampleRow>, startOffset: int, limit: nat)
    requires UniquePaths(samples)
    ensures var files := ToAudioFiles(QueryRows(samples, startOffset, limit));
      && |files| <= limit
      && (forall i :: 0 <= i < |files| ==>
            files[i].id > startOffset &&
            exists k :: 0 <= k < |samples| && samples[k].id == files[i].id && samples[k].filePath == files[i].path)
      && (forall i, j :: 0 <= i < j < |files| ==> PathLess(files[i].path, files[j].path))
  {
    var rows := QueryRows(samples, startOffset, limit);
    var files := ToAudioFiles(rows);
    QueryRowsFirstByPath(samples, startOffset, limit);
    forall i | 0 <= i < |files|
      ensures files[i].id > startOffset
      ensures exists k :: 0 <= k < |samples| && samples[k].id == files[i].id && samples[k].filePath == files[i].path
    {
      assert rows[i] in rows;
    }
  }

  lemma {:induction false} ToAudioFilesAppend(rows: seq<SampleRow>, x: SampleRow)
    ensures ToAudioFiles(rows + [x]) == ToAudioFiles(rows) + [AudioFile(x.id, x.filePath)]
  {
    var lhs := ToAudioFiles(rows + [x]);
    var rhs := ToAudioFiles(rows) + [AudioFile(x.id, x.filePath)];
    assert |lhs| == |rhs|;
    forall i | 0 <= i < |lhs| ensures lhs[i] == rhs[i] {
      if i < |rows| {
        assert (rows + [x])[i] == rows[i];
      }
    }
  }

  // ---------------------------------------------------------------------------
  // Properties of the operations as callers see them
  // ---------------------------------------------------------------------------

  /** Running `initialize` twice with one directory yields one id and adds no row the second time. */
  method InitializeTwice(db: MetadataDatabase, dir: string) returns (first: Result<int>, second: Result<int>)
    requires db.Valid()
    modifies db
    ensures db.Valid() && db.tablesExist
    ensures first.Ok? && first == second
    ensures db.samples == old(db.samples)
    ensures |db.roots| <= |old(db.roots)| + 1
  {
    first := db.Initialize(dir);
    ghost var rootsAfterFirst := db.roots;
    assert RootIdOf(db.roots, dir).Some? by {
      if RootIdOf(old(db.roots), dir).None? {
        RootIdOfFirstMatch(db.roots, dir, |db.roots| - 1);
      }
    }
    second := db.Initialize(dir);
    assert db.roots == rootsAfterFirst;
  }

  /** Inserting a path that is already present returns its id again and changes nothing. */
  method InsertSampleTwice(db: MetadataDatabase, path: string, rootId: int, otherRootId: int)
    returns (first: Result<int>, second: Result<int>)
    requires db.Valid() && db.tablesExist
    modifies db
    ensures db.Valid()
    ensures first.Ok? && first == second
    ensures |db.samples| <= |old(db.samples)| + 1
    ensures exists k :: 0 <= k < |db.samples| && db.samples[k].filePath == path && db.samples[k].id == first.value
  {
    first := db.InsertSampleMetadata(path, rootId);
    ghost var samplesAfterFirst := db.samples;
    assert SampleIdOf(db.samples, path) == Some(first.value) by {
      if SampleIdOf(old(db.samples), path).None? {
        SampleIdOfFirstMatch(db.samples, path, |db.samples| - 1);
      }
    }
    second := db.InsertSampleMetadata(path, otherRootId);
    assert db.samples == samplesAfterFirst;
  }

  /** A new sample row's id is held by no other row of the table. */
  lemma NewSampleIdFresh(samples: seq<SampleRow>, path: string, rootId: int)
    requires TablesWellFormed([], samples) && SampleIdOf(samples, path).None?
    ensures var id := NextRowId(SampleIds(samples));
      var s' := samples + [SampleRow(id, rootId, path)];
      && (forall k :: 0 <= k < |samples| ==> samples[k].id != id)
      && UniqueSampleIds(s') && UniquePaths(s')
      && SampleIdOf(s', path) == Some(id)
  {
    var id := NextRowId(SampleIds(samples));
    var s' := samples + [SampleRow(id, rootId, path)];
    assert forall k :: 0 <= k < |samples| ==> SampleIds(samples)[k] < id;
    SampleIdOfFirstMatch(s', path, |samples|);
  }
}
