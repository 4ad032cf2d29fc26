/**
 * The application starter form without its widgets: the grid of rows it owns
 * and the operations its buttons, its load event and its status worker run
 * over that grid. Launches and kills are recorded in a log of effects.
 */
module Form {
  import opened Wrappers
  import opened Processes
  import opened Table
  import opened Supervision
  import opened Config

  /** Why a button refuses to act: the grid has no rows. */
  datatype Refusal = NoApplications

  class ApplicationStarter {
    /** The grid's rows, in display order. */
    var rows: seq<Row>
    /** Every launch and kill issued so far, in order. */
    ghost var log: seq<Effect>

    constructor ()
      ensures rows == [] && log == []
    {
      rows := [];
      log := [];
    }

    /**
     * The load event: when a configuration exists, append a row for each record
     * whose file exists, with its flag decoded and its status from the process
     * table read for that record. A faulty record ends the load (ok is false)
     * and leaves the rows added before it.
     */
    method Load(config: Option<seq<Record>>, fileExists: Path -> bool, canon: Canon, tables: nat -> Snapshot)
      returns (ok: bool)
      modifies this
      ensures config.None? ==> rows == old(rows) && ok
      ensures config.Some? ==>
        var loaded := LoadUpTo(config.value, fileExists, canon, tables, |config.value|);
        rows == old(rows) + loaded.rows && ok == !loaded.faulted
      ensures log == old(log)
    {
      ok := true;
      if config.None? {
        return;
      }
      var doc := config.value;
      var k := 0;
      while k < |doc|
        invariant 0 <= k <= |doc|
        invariant !LoadUpTo(doc, fileExists, canon, tables, k).faulted
        invariant rows == old(rows) + LoadUpTo(doc, fileExists, canon, tables, k).rows
        invariant log == old(log)
      {
        var item := doc[k];
        if item.path.None? {
          ok := false;
          LoadFaultSticks(doc, fileExists, canon, tables, k + 1);
          return;
        }
        var path := item.path.value;
        if fileExists(path) {
          if item.enabled.None? {
            ok := false;
            LoadFaultSticks(doc, fileExists, canon, tables, k + 1);
            return;
          }
          var enabled := false;
          var status := Stopped;
          if item.enabled.value == "1" {
            enabled := true;
          }
          var found := FindProcess(tables(k), canon, path);
          if found.Some? {
            status := Running;
          }
          rows := rows + [Row(path, enabled, status)];
        }
        k := k + 1;
      }
    }

    /** The add button: a chosen file becomes a new disabled row at the end; a cancelled dialog changes nothing. */
    method Add(chosen: Option<Path>)
      modifies this
      ensures chosen.None? ==> rows == old(rows)
      ensures chosen.Some? ==> rows == old(rows) + [Row(chosen.value, false, Stopped)]
      ensures log == old(log)
    {
      if chosen.Some? {
        rows := rows + [Row(chosen.value, false, Stopped)];
      }
    }

    /**
     * The remove button: remove each selected row at the position it has when
     * its turn comes. `selected` lists the rows selected before the click, by
     * position, in the order the selection enumerates them.
     */
    method Remove(selected: seq<nat>)
      requires forall k :: 0 <= k < |selected| ==> selected[k] < |rows|
      requires forall k, l :: 0 <= k < l < |selected| ==> selected[k] != selected[l]
      modifies this
      ensures rows == Kept(old(rows), set i | i in selected)
      ensures log == old(log)
    {
      ghost var original := rows;
      // ids[p] identifies the row now at position p by its position before the click
      var count := |rows|;
      var ids: seq<nat> := seq(count, i requires 0 <= i < count => i);
      forall i | 0 <= i < count ensures i in ids {
        assert ids[i] == i;
      }
      var k := 0;
      while k < |selected|
        invariant 0 <= k <= |selected|
        invariant Tracks(original, ids, rows)
        invariant forall i :: 0 <= i < |original| ==> (i in ids <==> i !in selected[..k])
        invariant log == old(log)
      {
        var item := selected[k];
        assert item !in selected[..k];
        var index := IndexOf(ids, item);
        TracksAfterRemoval(original, ids, rows, index);
        IdentitiesAfterRemoval(ids, index);
        SelectionStep(|original|, ids, ids[..index] + ids[index + 1..], selected, k);
        rows := rows[..index] + rows[index + 1..];
        ids := ids[..index] + ids[index + 1..];
        k := k + 1;
      }
      assert selected[..k] == selected;
      KeptIsUnselectedInOrder(original, (set i | i in selected), ids);
    }

    /** The live position of the row identified by `id`. */
    static method IndexOf(ids: seq<nat>, id: nat) returns (index: nat)
      requires id in ids
      ensures index < |ids| && ids[index] == id
    {
      index := 0;
      while ids[index] != id
        invariant index < |ids|
        invariant id !in ids[..index]
        decreases |ids| - index
      {
        index := index + 1;
      }
    }

    /** The status worker: rewrite every row's status from one snapshot, and nothing else. */
    method RefreshStatus(snap: Snapshot, canon: Canon)
      modifies this
      ensures |rows| == |old(rows)|
      ensures forall i :: 0 <= i < |rows| ==>
        rows[i] == old(rows)[i].(status := StatusFor(snap, canon, old(rows)[i].path))
      ensures forall i :: 0 <= i < |rows| ==> (rows[i].status == Running <==> AnyMatch(snap, canon, rows[i].path))
      ensures log == old(log)
    {
      var i := 0;
      while i < |rows|
        invariant 0 <= i <= |rows| == |old(rows)|
        invariant forall j :: 0 <= j < i ==> rows[j] == old(rows)[j].(status := StatusFor(snap, canon, old(rows)[j].path))
        invariant forall j :: i <= j < |rows| ==> rows[j] == old(rows)[j]
        invariant log == old(log)
      {
        var status := Stopped;
        var found := FindProcess(snap, canon, rows[i].path);
        if found.Some? {
          status := Running;
        }
        rows := rows[i := rows[i].(status := status)];
        i := i + 1;
      }
    }

    /** The start pass: launch each enabled row that no process of the snapshot runs. */
    method StartApplications(snap: Snapshot, canon: Canon)
      modifies this
      ensures rows == old(rows)
      ensures log == old(log) + StartEffects(rows, snap, canon)
    {
      var i := 0;
      while i < |rows|
        invariant 0 <= i <= |rows|
        invariant rows == old(rows)
        invariant log == old(log) + StartEffects(rows[..i], snap, canon)
      {
        var row := rows[i];
        var isRunning := false;
        var path := row.path;
        var found := FindProcess(snap, canon, path);
        if found.Some? {
          isRunning := true;
        }
        var shouldStart := row.enabled;
        if !isRunning && shouldStart {
          log := log + [Launch(path)];
        }
        assert rows[..i + 1][..i] == rows[..i];
        i := i + 1;
      }
      assert rows[..i] == rows;
    }

    /**
     * The stop pass: the process matched by the latest matching row is kept
     * from row to row and killed at every enabled row.
     */
    method StopApplications(snap: Snapshot, canon: Canon)
      modifies this
      ensures rows == old(rows)
      ensures log == old(log) + StopEffects(rows, snap, canon)
    {
      var currentProcess: Option<nat> := None;
      var shouldStop := false;
      var i := 0;
      while i < |rows|
        invariant 0 <= i <= |rows|
        invariant rows == old(rows)
        invariant log == old(log) + StopEffectsUpTo(rows, snap, canon, i)
        invariant currentProcess == if i == 0 then None else Carried(rows, snap, canon, i - 1)
      {
        var found := FindProcess(snap, canon, rows[i].path);
        if found.Some? {
          currentProcess := found;
        }
        shouldStop := rows[i].enabled;
        if currentProcess.Some? && shouldStop {
          log := log + [Kill(currentProcess.value)];
        }
        i := i + 1;
      }
    }

    /** The start button: refused on an empty grid, otherwise one start pass. */
    method StartAll(snap: Snapshot, canon: Canon) returns (outcome: Result<(), Refusal>)
      modifies this
      ensures rows == old(rows)
      ensures rows == [] ==> outcome == Failure(NoApplications) && log == old(log)
      ensures rows != [] ==> outcome == Success(()) && log == old(log) + StartEffects(rows, snap, canon)
    {
      if |rows| == 0 {
        return Failure(NoApplications);
      }
      StartApplications(snap, canon);
      outcome := Success(());
    }

    /** The stop button: refused on an empty grid, otherwise one stop pass. */
    method StopAll(snap: Snapshot, canon: Canon) returns (outcome: Result<(), Refusal>)
      modifies this
      ensures rows == old(rows)
      ensures rows == [] ==> outcome == Failure(NoApplications) && log == old(log)
      ensures rows != [] ==> outcome == Success(()) && log == old(log) + StopEffects(rows, snap, canon)
    {
      if |rows| == 0 {
        return Failure(NoApplications);
      }
      StopApplications(snap, canon);
      outcome := Success(());
    }

    /**
     * The restart button: refused on an empty grid, otherwise a stop pass and
     * then a start pass, each on the process table it reads when it begins.
     */
    method RestartAll(stopSnap: Snapshot, startSnap: Snapshot, canon: Canon) returns (outcome: Result<(), Refusal>)
      modifies this
      ensures rows == old(rows)
      ensures rows == [] ==> outcome == Failure(NoApplications) && log == old(log)
      ensures rows != [] ==>
        outcome == Success(()) && log == old(log) + StopEffects(rows, stopSnap, canon) + StartEffects(rows, startSnap, canon)
    {
      if |rows| == 0 {
        return Failure(NoApplications);
      }
      StopApplications(stopSnap, canon);
      StartApplications(startSnap, canon);
      outcome := Success(());
    }

    /** The save button: refused on an empty grid, otherwise one record per row, in row order. */
    method Save() returns (saved: Result<seq<Record>, Refusal>)
      ensures rows == [] ==> saved == Failure(NoApplications)
      ensures rows != [] ==> saved == Success(EncodeRows(rows))
    {
      if |rows| == 0 {
        return Failure(NoApplications);
      }
      var doc := [];
      var i := 0;
      while i < |rows|
        invariant 0 <= i <= |rows|
        invariant doc == EncodeRows(rows[..i])
      {
        var row := rows[i];
        var enabled := if row.enabled then "1" else "0";
        doc := doc + [Record(Some(row.path), Some(enabled))];
        assert rows[..i + 1][..i] == rows[..i];
        i := i + 1;
      }
      assert rows[..i] == rows;
      saved := Success(doc);
    }
  }
}
