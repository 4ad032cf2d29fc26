/**
 * The configuration document: one `Application` record per row, with the
 * row's path and its enabled flag written "1" or "0". Status is never saved.
 */
module Config {
  import opened Wrappers
  import opened Processes
  import opened Table

  /** One `Application` element: its `path` and `enabled` attributes, None where absent. */
  datatype Record = Record(path: Option<string>, enabled: Option<string>)

  /** The flag as read back: on exactly when the attribute is "1", so any other text is off. */
  predicate DecodeFlag(text: string)
  {
    text == "1"
  }

  /** The flag as saved, which reads back as the flag it came from. */
  function EncodeFlag(enabled: bool): (text: string)
    ensures DecodeFlag(text) == enabled
    ensures text == "1" || text == "0"
  {
    if enabled then "1" else "0"
  }

  function EncodeRow(row: Row): Record
  {
    Record(Some(row.path), Some(EncodeFlag(row.enabled)))
  }

  /** The saved document: one record per row, in row order, holding the row's path and flag. */
  function EncodeRows(rows: seq<Row>): (doc: seq<Record>)
    ensures |doc| == |rows|
    ensures forall i :: 0 <= i < |rows| ==>
      doc[i].path == Some(rows[i].path) && doc[i].enabled.Some? && DecodeFlag(doc[i].enabled.value) == rows[i].enabled
  {
    if rows == [] then [] else EncodeRows(rows[..|rows| - 1]) + [EncodeRow(rows[|rows| - 1])]
  }

  /** The (path, enabled) pairs of a table: what a save keeps of it. */
  function Settings(rows: seq<Row>): seq<(Path, bool)>
  {
    seq(|rows|, i requires 0 <= i < |rows| => (rows[i].path, rows[i].enabled))
  }

  /**
   * Reading this record throws: its path attribute is missing, or its path
   * exists and its enabled attribute is missing. A record whose path does not
   * exist is dropped before its enabled attribute is read.
   */
  predicate Faulty(rec: Record, fileExists: Path -> bool)
  {
    rec.path.None? || (fileExists(rec.path.value) && rec.enabled.None?)
  }

  /** The row a well-formed record adds: none when its file is gone, else its decoding with a fresh status. */
  function LoadStep(rec: Record, fileExists: Path -> bool, canon: Canon, snap: Snapshot): (added: seq<Row>)
    requires !Faulty(rec, fileExists)
    ensures |added| <= 1
    ensures added != [] <==> fileExists(rec.path.value)
    ensures added != [] ==>
      && added[0].path == rec.path.value
      && (added[0].enabled <==> rec.enabled.value == "1")
      && (added[0].status == Running <==> AnyMatch(snap, canon, rec.path.value))
  {
    if fileExists(rec.path.value) then [RecordRow(rec, canon, snap)] else []
  }

  /** The row a record with both attributes decodes to, with the status its snapshot gives. */
  function RecordRow(rec: Record, canon: Canon, snap: Snapshot): Row
    requires rec.path.Some? && rec.enabled.Some?
  {
    Row(rec.path.value, DecodeFlag(rec.enabled.value), StatusFor(snap, canon, rec.path.value))
  }

  /** What loading does with the records: the rows it adds and whether a record threw. */
  datatype Loaded = Loaded(rows: seq<Row>, faulted: bool)

  /**
   * Loading the first n records. Record k is matched against `tables(k)`, the
   * process table as it was when that record was read; the first faulty record
   * ends the load and the rows added before it stay.
   */
  function LoadUpTo(doc: seq<Record>, fileExists: Path -> bool, canon: Canon, tables: nat -> Snapshot, n: nat): Loaded
    requires n <= |doc|
  {
    if n == 0 then Loaded([], false)
    else
      var before := LoadUpTo(doc, fileExists, canon, tables, n - 1);
      if before.faulted then before
      else if Faulty(doc[n - 1], fileExists) then before.(faulted := true)
      else before.(rows := before.rows + LoadStep(doc[n - 1], fileExists, canon, tables(n - 1)))
  }

  /** A load faults exactly when one of the records read is faulty. */
  lemma {:induction false} LoadFaultsIffFaultyRecord(
    doc: seq<Record>, fileExists: Path -> bool, canon: Canon, tables: nat -> Snapshot, n: nat)
    requires n <= |doc|
    ensures LoadUpTo(doc, fileExists, canon, tables, n).faulted <==>
      exists k :: 0 <= k < n && Faulty(doc[k], fileExists)
  {
    if n > 0 {
      LoadFaultsIffFaultyRecord(doc, fileExists, canon, tables, n - 1);
    }
  }

  /** Once a load has faulted, reading further records changes nothing. */
  lemma {:induction false} LoadFaultSticks(
    doc: seq<Record>, fileExists: Path -> bool, canon: Canon, tables: nat -> Snapshot, n: nat)
    requires 0 < n <= |doc|
    requires LoadUpTo(doc, fileExists, canon, tables, n).faulted
    decreases |doc| - n
    ensures forall m :: n <= m <= |doc| ==>
      LoadUpTo(doc, fileExists, canon, tables, m) == LoadUpTo(doc, fileExists, canon, tables, n)
  {
    if n < |doc| {
      LoadFaultSticks(doc, fileExists, canon, tables, n + 1);
    }
  }

  /** One more well-formed record after a load without fault adds what LoadStep gives. */
  lemma LoadUpToStep(doc: seq<Record>, fileExists: Path -> bool, canon: Canon, tables: nat -> Snapshot, n: nat)
    requires 0 < n <= |doc|
    requires !LoadUpTo(doc, fileExists, canon, tables, n - 1).faulted && !Faulty(doc[n - 1], fileExists)
    ensures LoadUpTo(doc, fileExists, canon, tables, n) ==
      Loaded(LoadUpTo(doc, fileExists, canon, tables, n - 1).rows + LoadStep(doc[n - 1], fileExists, canon, tables(n - 1)), false)
  {
  }

  /** The rows the records at positions ids decode to, in the order of ids; record k against `tables(k)`. */
  function RecordsAt(doc: seq<Record>, canon: Canon, tables: nat -> Snapshot, ids: seq<nat>): (rows: seq<Row>)
    requires forall p :: 0 <= p < |ids| ==> ids[p] < |doc| && doc[ids[p]].path.Some? && doc[ids[p]].enabled.Some?
    ensures |rows| == |ids|
    ensures forall p :: 0 <= p < |ids| ==> rows[p] == RecordRow(doc[ids[p]], canon, tables(ids[p]))
  {
    if ids == [] then []
    else RecordsAt(doc, canon, tables, ids[..|ids| - 1]) + [RecordRow(doc[ids[|ids| - 1]], canon, tables(ids[|ids| - 1]))]
  }

  /** The positions, among the first n well-formed records, whose file exists: increasing, and exactly those. */
  function ExistingPositions(doc: seq<Record>, fileExists: Path -> bool, n: nat): (ids: seq<nat>)
    requires n <= |doc|
    requires forall k :: 0 <= k < n ==> doc[k].path.Some? && !Faulty(doc[k], fileExists)
    ensures forall p :: 0 <= p < |ids| ==> ids[p] < n && doc[ids[p]].path.Some? && doc[ids[p]].enabled.Some?
    ensures forall k :: 0 <= k < n ==> (k in ids <==> fileExists(doc[k].path.value))
    ensures forall p, q :: 0 <= p < q < |ids| ==> ids[p] < ids[q]
  {
    if n == 0 then []
    else
      var before := ExistingPositions(doc, fileExists, n - 1);
      assert n - 1 !in before && !Faulty(doc[n - 1], fileExists);
      if fileExists(doc[n - 1].path.value) then before + [n - 1] else before
  }

  /**
   * Without a faulty record, a load keeps exactly the records whose file
   * exists, in document order: decoding the records at ExistingPositions, each
   * against the process table read for it, gives exactly the loaded rows.
   */
  lemma {:induction false} LoadKeepsExistingInOrder(
    doc: seq<Record>, fileExists: Path -> bool, canon: Canon, tables: nat -> Snapshot, n: nat)
    requires n <= |doc|
    requires forall k :: 0 <= k < n ==> doc[k].path.Some? && !Faulty(doc[k], fileExists)
    ensures !LoadUpTo(doc, fileExists, canon, tables, n).faulted
    ensures LoadUpTo(doc, fileExists, canon, tables, n).rows ==
      RecordsAt(doc, canon, tables, ExistingPositions(doc, fileExists, n))
  {
    if n > 0 {
      LoadKeepsExistingInOrder(doc, fileExists, canon, tables, n - 1);
      LoadKeepsNext(doc, fileExists, canon, tables, n);
    }
  }

  /** The step of LoadKeepsExistingInOrder: the record at n - 1 adds its row last exactly when its file exists. */
  lemma LoadKeepsNext(doc: seq<Record>, fileExists: Path -> bool, canon: Canon, tables: nat -> Snapshot, n: nat)
    requires 0 < n <= |doc|
    requires forall k :: 0 <= k < n ==> doc[k].path.Some? && !Faulty(doc[k], fileExists)
    requires !LoadUpTo(doc, fileExists, canon, tables, n - 1).faulted
    requires LoadUpTo(doc, fileExists, canon, tables, n - 1).rows ==
      RecordsAt(doc, canon, tables, ExistingPositions(doc, fileExists, n - 1))
    ensures !LoadUpTo(doc, fileExists, canon, tables, n).faulted
    ensures LoadUpTo(doc, fileExists, canon, tables, n).rows ==
      RecordsAt(doc, canon, tables, ExistingPositions(doc, fileExists, n))
  {
    var m := n - 1;
    var before := ExistingPositions(doc, fileExists, m);
    var ids := ExistingPositions(doc, fileExists, n);
    if fileExists(doc[m].path.value) {
      assert ids == before + [m];
      assert ids[..|ids| - 1] == before;
      KeepExistingRecord(doc, fileExists, canon, tables, n, ids);
    } else {
      assert ids == before;
      SkipMissingRecord(doc, fileExists, canon, tables, n, RecordsAt(doc, canon, tables, before));
    }
  }

  /** A well-formed record whose file is gone leaves the rows loaded so far as they were. */
  lemma SkipMissingRecord(doc: seq<Record>, fileExists: Path -> bool, canon: Canon, tables: nat -> Snapshot, n: nat, before: seq<Row>)
    requires 0 < n <= |doc| && !Faulty(doc[n - 1], fileExists) && !fileExists(doc[n - 1].path.value)
    requires !LoadUpTo(doc, fileExists, canon, tables, n - 1).faulted
    requires LoadUpTo(doc, fileExists, canon, tables, n - 1).rows == before
    ensures !LoadUpTo(doc, fileExists, canon, tables, n).faulted
    ensures LoadUpTo(doc, fileExists, canon, tables, n).rows == before
  {
    LoadUpToStep(doc, fileExists, canon, tables, n);
    assert LoadStep(doc[n - 1], fileExists, canon, tables(n - 1)) == [];
    assert before + [] == before;
  }

  /** A well-formed record whose file exists puts its row after the rows loaded so far. */
  lemma KeepExistingRecord(doc: seq<Record>, fileExists: Path -> bool, canon: Canon, tables: nat -> Snapshot, n: nat, ids: seq<nat>)
    requires 0 < n <= |doc| && !Faulty(doc[n - 1], fileExists) && fileExists(doc[n - 1].path.value)
    requires |ids| > 0 && ids[|ids| - 1] == n - 1
    requires forall p :: 0 <= p < |ids| ==> ids[p] < n && doc[ids[p]].path.Some? && doc[ids[p]].enabled.Some?
    requires !LoadUpTo(doc, fileExists, canon, tables, n - 1).faulted
    requires LoadUpTo(doc, fileExists, canon, tables, n - 1).rows == RecordsAt(doc, canon, tables, ids[..|ids| - 1])
    ensures !LoadUpTo(doc, fileExists, canon, tables, n).faulted
    ensures LoadUpTo(doc, fileExists, canon, tables, n).rows == RecordsAt(doc, canon, tables, ids)
  {
    LoadUpToStep(doc, fileExists, canon, tables, n);
    assert LoadStep(doc[n - 1], fileExists, canon, tables(n - 1)) == [RecordRow(doc[n - 1], canon, tables(n - 1))];
  }

  /** Some well-formed record among the first n decodes to `row`, against the snapshot taken when it was read. */
  ghost predicate DecodedFrom(doc: seq<Record>, fileExists: Path -> bool, canon: Canon, tables: nat -> Snapshot, n: nat, row: Row)
    requires n <= |doc|
  {
    exists k :: 0 <= k < n && !Faulty(doc[k], fileExists) && LoadStep(doc[k], fileExists, canon, tables(k)) == [row]
  }

  /**
   * Every loaded row is the decoding of a well-formed record whose file exists,
   * with the status its own snapshot gives.
   */
  lemma {:induction false} LoadedRowsComeFromRecords(
    doc: seq<Record>, fileExists: Path -> bool, canon: Canon, tables: nat -> Snapshot, n: nat)
    requires n <= |doc|
    ensures forall row :: row in LoadUpTo(doc, fileExists, canon, tables, n).rows ==>
      fileExists(row.path) && DecodedFrom(doc, fileExists, canon, tables, n, row)
  {
    if n > 0 {
      LoadedRowsComeFromRecords(doc, fileExists, canon, tables, n - 1);
      var before := LoadUpTo(doc, fileExists, canon, tables, n - 1).rows;
      var rows := LoadUpTo(doc, fileExists, canon, tables, n).rows;
      forall row | row in rows
        ensures fileExists(row.path) && DecodedFrom(doc, fileExists, canon, tables, n, row)
      {
        if row in before {
          var k :| 0 <= k < n - 1 && !Faulty(doc[k], fileExists) && LoadStep(doc[k], fileExists, canon, tables(k)) == [row];
          assert 0 <= k < n;
        } else {
          var added := LoadStep(doc[n - 1], fileExists, canon, tables(n - 1));
          assert rows == before + added;
          assert added == [row];
        }
      }
    }
  }

  /** Loading what a save wrote gives back every row's path and flag, in order, when every file still exists. */
  lemma {:induction false} SaveThenLoadPrefix(
    rows: seq<Row>, fileExists: Path -> bool, canon: Canon, tables: nat -> Snapshot, n: nat)
    requires n <= |rows|
    requires forall i :: 0 <= i < |rows| ==> fileExists(rows[i].path)
    ensures !LoadUpTo(EncodeRows(rows), fileExists, canon, tables, n).faulted
    ensures Settings(LoadUpTo(EncodeRows(rows), fileExists, canon, tables, n).rows) == Settings(rows[..n])
  {
    if n > 0 {
      SaveThenLoadPrefix(rows, fileExists, canon, tables, n - 1);
      var doc := EncodeRows(rows);
      var before := LoadUpTo(doc, fileExists, canon, tables, n - 1);
      var added := LoadStep(doc[n - 1], fileExists, canon, tables(n - 1));
      assert added[0].path == rows[n - 1].path && added[0].enabled == rows[n - 1].enabled;
      var after := before.rows + added;
      assert Settings(after) == Settings(before.rows) + [(rows[n - 1].path, rows[n - 1].enabled)];
      assert Settings(rows[..n]) == Settings(rows[..n - 1]) + [(rows[n - 1].path, rows[n - 1].enabled)];
    }
  }

  lemma {:induction false} SaveThenLoad(rows: seq<Row>, fileExists: Path -> bool, canon: Canon, tables: nat -> Snapshot)
    requires forall i :: 0 <= i < |rows| ==> fileExists(rows[i].path)
    ensures var loaded := LoadUpTo(EncodeRows(rows), fileExists, canon, tables, |rows|);
      !loaded.faulted && Settings(loaded.rows) == Settings(rows)
  {
    SaveThenLoadPrefix(rows, fileExists, canon, tables, |rows|);
    assert rows[..|rows|] == rows;
  }
}
