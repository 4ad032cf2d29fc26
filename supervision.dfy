/**
 * What the start and stop passes do to the operating system, row by row, as a
 * log of effects: launches of an executable and kills of a process of the
 * snapshot the pass took.
 */
module Supervision {
  import opened Wrappers
  import opened Processes
  import opened Table

  datatype Effect =
    | Launch(path: Path)    // start the executable at path, with no arguments
    | Kill(process: nat)    // terminate the process at this position of the pass's snapshot

  // ---------------------------------------------------------------- start pass

  /** A row is launched when it is enabled and nothing in the snapshot runs its path. */
  function StartEffect(row: Row, snap: Snapshot, canon: Canon): seq<Effect>
  {
    if row.enabled && FirstMatch(snap, canon, row.path).None? then [Launch(row.path)] else []
  }

  /** The launches of a start pass over `rows`, in table order, all decided on one snapshot. */
  function StartEffects(rows: seq<Row>, snap: Snapshot, canon: Canon): seq<Effect>
  {
    if rows == [] then []
    else StartEffects(rows[..|rows| - 1], snap, canon) + StartEffect(rows[|rows| - 1], snap, canon)
  }

  /** A start pass launches path p exactly when some row with path p is enabled and no readable process runs p. */
  lemma {:induction false} StartLaunchesPath(rows: seq<Row>, snap: Snapshot, canon: Canon, p: Path)
    ensures Launch(p) in StartEffects(rows, snap, canon) <==>
      exists i :: 0 <= i < |rows| && rows[i].path == p && rows[i].enabled && !AnyMatch(snap, canon, p)
  {
    if rows != [] {
      var m := |rows| - 1;
      var front := rows[..m];
      StartLaunchesPath(front, snap, canon, p);
      assert StartEffects(rows, snap, canon) == StartEffects(front, snap, canon) + StartEffect(rows[m], snap, canon);
      if Launch(p) in StartEffects(rows, snap, canon) {
        if Launch(p) in StartEffects(front, snap, canon) {
          var i :| 0 <= i < |front| && front[i].path == p && front[i].enabled && !AnyMatch(snap, canon, p);
          assert rows[i] == front[i];
        } else {
          assert rows[m].path == p && rows[m].enabled && !AnyMatch(snap, canon, p);
        }
      }
      if exists i :: 0 <= i < |rows| && rows[i].path == p && rows[i].enabled && !AnyMatch(snap, canon, p) {
        var i :| 0 <= i < |rows| && rows[i].path == p && rows[i].enabled && !AnyMatch(snap, canon, p);
        if i < m {
          assert front[i] == rows[i];
        }
      }
    }
  }

  /** A start pass issues nothing but launches. */
  lemma {:induction false} StartOnlyLaunches(rows: seq<Row>, snap: Snapshot, canon: Canon)
    ensures forall e :: e in StartEffects(rows, snap, canon) ==> e.Launch?
  {
    if rows != [] {
      StartOnlyLaunches(rows[..|rows| - 1], snap, canon);
    }
  }

  /**
   * A start pass only launches, and it launches a path exactly when some row with
   * that path is enabled and no readable process of the snapshot runs it.
   */
  lemma {:induction false} StartLaunchesExactly(rows: seq<Row>, snap: Snapshot, canon: Canon)
    ensures forall e :: e in StartEffects(rows, snap, canon) ==> e.Launch?
    ensures forall p :: Launch(p) in StartEffects(rows, snap, canon) <==>
      exists i :: 0 <= i < |rows| && rows[i].path == p && rows[i].enabled && !AnyMatch(snap, canon, p)
  {
    StartOnlyLaunches(rows, snap, canon);
    forall p
      ensures Launch(p) in StartEffects(rows, snap, canon) <==>
        exists i :: 0 <= i < |rows| && rows[i].path == p && rows[i].enabled && !AnyMatch(snap, canon, p)
    {
      StartLaunchesPath(rows, snap, canon, p);
    }
  }

  /** Rows are decided independently: the pass over a table is the pass over its parts, one after the other. */
  lemma {:induction false} StartEffectsAppend(a: seq<Row>, b: seq<Row>, snap: Snapshot, canon: Canon)
    ensures StartEffects(a + b, snap, canon) == StartEffects(a, snap, canon) + StartEffects(b, snap, canon)
  {
    if b != [] {
      var m := |b| - 1;
      assert (a + b)[..|a + b| - 1] == a + b[..m];
      StartEffectsAppend(a, b[..m], snap, canon);
    } else {
      assert a + b == a;
    }
  }

  /** A pass over a table whose every enabled row is already running launches nothing. */
  lemma {:induction false} StartNothingWhenAllRunning(rows: seq<Row>, snap: Snapshot, canon: Canon)
    requires forall i :: 0 <= i < |rows| && rows[i].enabled ==> AnyMatch(snap, canon, rows[i].path)
    ensures StartEffects(rows, snap, canon) == []
  {
    if rows != [] {
      StartNothingWhenAllRunning(rows[..|rows| - 1], snap, canon);
    }
  }

  /** The images of the processes a list of launches creates. */
  function LaunchedImages(effects: seq<Effect>): (images: Snapshot)
    ensures forall p :: Launch(p) in effects ==> Some(p) in images
  {
    if effects == [] then []
    else
      var last := effects[|effects| - 1];
      LaunchedImages(effects[..|effects| - 1]) + (if last.Launch? then [Some(last.path)] else [])
  }

  /**
   * Starting twice launches no duplicate: if the second pass sees the first
   * pass's snapshot with the launched processes added (nothing exited, each
   * launched process shows the launched image) and every row's path
   * canonicalises, the second pass launches nothing.
   */
  lemma StartIdempotent(rows: seq<Row>, snap: Snapshot, canon: Canon)
    requires forall i :: 0 <= i < |rows| ==> canon(rows[i].path).Some?
    ensures StartEffects(rows, snap + LaunchedImages(StartEffects(rows, snap, canon)), canon) == []
  {
    var effects := StartEffects(rows, snap, canon);
    var later := snap + LaunchedImages(effects);
    StartLaunchesExactly(rows, snap, canon);
    forall i | 0 <= i < |rows| && rows[i].enabled ensures AnyMatch(later, canon, rows[i].path) {
      var p := rows[i].path;
      if AnyMatch(snap, canon, p) {
        var j :| 0 <= j < |snap| && Matches(canon, snap[j], p);
        assert later[j] == snap[j];
      } else {
        assert Launch(p) in effects;
        var images := LaunchedImages(effects);
        var j :| 0 <= j < |images| && images[j] == Some(p);
        assert later[|snap| + j] == Some(p);
        assert Matches(canon, later[|snap| + j], p);
      }
    }
    StartNothingWhenAllRunning(rows, later, canon);
  }

  // ----------------------------------------------------------------- stop pass

  /**
   * The process a stop pass holds after reading row i. The pass keeps one
   * variable for it across all rows and never clears it, so a row without a
   * match of its own keeps the target of the latest earlier row that had one.
   */
  function Carried(rows: seq<Row>, snap: Snapshot, canon: Canon, i: nat): Option<nat>
    requires i < |rows|
  {
    var own := FirstMatch(snap, canon, rows[i].path);
    if own.Some? then own
    else if i == 0 then None
    else Carried(rows, snap, canon, i - 1)
  }

  /** The kill issued at row i: the carried process, when row i is enabled. */
  function KillAt(rows: seq<Row>, snap: Snapshot, canon: Canon, i: nat): seq<Effect>
    requires i < |rows|
  {
    var target := Carried(rows, snap, canon, i);
    if rows[i].enabled && target.Some? then [Kill(target.value)] else []
  }

  /** The kills of a stop pass over the first n rows, in table order. */
  function StopEffectsUpTo(rows: seq<Row>, snap: Snapshot, canon: Canon, n: nat): seq<Effect>
    requires n <= |rows|
  {
    if n == 0 then [] else StopEffectsUpTo(rows, snap, canon, n - 1) + KillAt(rows, snap, canon, n - 1)
  }

  function StopEffects(rows: seq<Row>, snap: Snapshot, canon: Canon): seq<Effect>
  {
    StopEffectsUpTo(rows, snap, canon, |rows|)
  }

  /**
   * The carried target is that of the latest row at or before i whose path
   * matched; there is none exactly when no row up to i matched.
   */
  lemma {:induction false} CarriedIsLatestMatch(rows: seq<Row>, snap: Snapshot, canon: Canon, i: nat)
    requires i < |rows|
    ensures Carried(rows, snap, canon, i).None? <==>
      forall j :: 0 <= j <= i ==> !AnyMatch(snap, canon, rows[j].path)
    ensures Carried(rows, snap, canon, i).Some? ==>
      exists j :: 0 <= j <= i && Carried(rows, snap, canon, i) == FirstMatch(snap, canon, rows[j].path) &&
        forall k :: j < k <= i ==> !AnyMatch(snap, canon, rows[k].path)
  {
    if FirstMatch(snap, canon, rows[i].path).None? && i > 0 {
      CarriedIsLatestMatch(rows, snap, canon, i - 1);
      if Carried(rows, snap, canon, i).Some? {
        var j :| 0 <= j <= i - 1 && Carried(rows, snap, canon, i - 1) == FirstMatch(snap, canon, rows[j].path) &&
          forall k :: j < k <= i - 1 ==> !AnyMatch(snap, canon, rows[k].path);
        assert forall k :: j < k <= i ==> !AnyMatch(snap, canon, rows[k].path);
      }
    }
  }

  /** A stop pass only kills, and it kills process p exactly when some enabled row carries p. */
  lemma {:induction false} StopKillsExactly(rows: seq<Row>, snap: Snapshot, canon: Canon, n: nat)
    requires n <= |rows|
    ensures forall e :: e in StopEffectsUpTo(rows, snap, canon, n) ==> e.Kill?
    ensures forall p: nat :: Kill(p) in StopEffectsUpTo(rows, snap, canon, n) <==>
      exists i :: 0 <= i < n && rows[i].enabled && Carried(rows, snap, canon, i) == Some(p)
  {
    if n > 0 {
      StopKillsExactly(rows, snap, canon, n - 1);
    }
  }

  /**
   * Process p that a stop pass kills is the first match of some row j, and
   * the kill was issued by an enabled row i >= j, none of whose rows after j
   * matched.
   */
  lemma StopKillTarget(rows: seq<Row>, snap: Snapshot, canon: Canon, p: nat)
    requires Kill(p) in StopEffects(rows, snap, canon)
    ensures p < |snap|
    ensures exists i, j ::
      && 0 <= j <= i < |rows|
      && rows[i].enabled
      && KillAt(rows, snap, canon, i) == [Kill(p)]
      && FirstMatch(snap, canon, rows[j].path) == Some(p)
      && Matches(canon, snap[p], rows[j].path)
      && forall k :: j < k <= i ==> !AnyMatch(snap, canon, rows[k].path)
  {
    StopKillsExactly(rows, snap, canon, |rows|);
    var i :| 0 <= i < |rows| && rows[i].enabled && Carried(rows, snap, canon, i) == Some(p);
    CarriedIsLatestMatch(rows, snap, canon, i);
    var j :| 0 <= j <= i && Carried(rows, snap, canon, i) == FirstMatch(snap, canon, rows[j].path) &&
      forall k :: j < k <= i ==> !AnyMatch(snap, canon, rows[k].path);
    assert KillAt(rows, snap, canon, i) == [Kill(p)];
    assert Matches(canon, snap[p], rows[j].path);
  }

  /**
   * The carried target as written lets a stop pass kill the process of a
   * disabled row: the disabled first row runs process 0, the enabled second
   * row has no process, and the pass kills process 0.
   */
  lemma StopKillsForDisabledRow(canon: Canon)
    requires canon("a") == Some("a") && canon("b") == Some("b")
    ensures var rows := [Row("a", false, Running), Row("b", true, Stopped)];
            var snap := [Some("a")];
            && StopEffects(rows, snap, canon) == [Kill(0)]
            && !rows[0].enabled
            && !AnyMatch(snap, canon, rows[1].path)
  {
    var rows := [Row("a", false, Running), Row("b", true, Stopped)];
    var snap := [Some("a")];
    assert Matches(canon, snap[0], "a");
    assert FirstMatch(snap, canon, "a") == Some(0);
    assert !Matches(canon, snap[0], "b");
    assert Carried(rows, snap, canon, 1) == Some(0);
    assert StopEffectsUpTo(rows, snap, canon, 1) == [];
    assert StopEffectsUpTo(rows, snap, canon, 2) == [Kill(0)];
  }

  /**
   * The carried target as written is killed again at every later enabled row
   * without a match of its own: with two enabled rows of which only the first
   * runs, the pass kills process 0 twice.
   */
  lemma StopKillsCarriedTwice(canon: Canon)
    requires canon("a") == Some("a") && canon("b") == Some("b")
    ensures var rows := [Row("a", true, Running), Row("b", true, Stopped)];
            var snap := [Some("a")];
            StopEffects(rows, snap, canon) == [Kill(0), Kill(0)]
  {
    var rows := [Row("a", true, Running), Row("b", true, Stopped)];
    var snap := [Some("a")];
    assert Matches(canon, snap[0], "a");
    assert FirstMatch(snap, canon, "a") == Some(0);
    assert !Matches(canon, snap[0], "b");
    assert Carried(rows, snap, canon, 1) == Some(0);
    assert StopEffectsUpTo(rows, snap, canon, 1) == [Kill(0)];
  }

  /** The stop pass as intended: each enabled row kills its own match, if it has one. */
  function IntendedKillAt(row: Row, snap: Snapshot, canon: Canon): seq<Effect>
  {
    var own := FirstMatch(snap, canon, row.path);
    if row.enabled && own.Some? then [Kill(own.value)] else []
  }

  function IntendedStopEffects(rows: seq<Row>, snap: Snapshot, canon: Canon): seq<Effect>
  {
    if rows == [] then []
    else IntendedStopEffects(rows[..|rows| - 1], snap, canon) + IntendedKillAt(rows[|rows| - 1], snap, canon)
  }

  /**
   * The intended stop pass kills process p exactly when p is the match of an
   * enabled row; a process matched only by disabled rows is left running.
   */
  lemma {:induction false} IntendedStopKillsOwnMatch(rows: seq<Row>, snap: Snapshot, canon: Canon)
    ensures forall e :: e in IntendedStopEffects(rows, snap, canon) ==> e.Kill?
    ensures forall p: nat :: Kill(p) in IntendedStopEffects(rows, snap, canon) <==>
      exists i :: 0 <= i < |rows| && rows[i].enabled && FirstMatch(snap, canon, rows[i].path) == Some(p)
  {
    if rows != [] {
      var m := |rows| - 1;
      var front := rows[..m];
      IntendedStopKillsOwnMatch(front, snap, canon);
      forall p: nat
        ensures Kill(p) in IntendedStopEffects(rows, snap, canon) <==>
          exists i :: 0 <= i < |rows| && rows[i].enabled && FirstMatch(snap, canon, rows[i].path) == Some(p)
      {
        if Kill(p) in IntendedStopEffects(rows, snap, canon) {
          if Kill(p) in IntendedStopEffects(front, snap, canon) {
            var i :| 0 <= i < |front| && front[i].enabled && FirstMatch(snap, canon, front[i].path) == Some(p);
            assert rows[i] == front[i];
          } else {
            assert rows[m].enabled && FirstMatch(snap, canon, rows[m].path) == Some(p);
          }
        }
        if exists i :: 0 <= i < |rows| && rows[i].enabled && FirstMatch(snap, canon, rows[i].path) == Some(p) {
          var i :| 0 <= i < |rows| && rows[i].enabled && FirstMatch(snap, canon, rows[i].path) == Some(p);
          if i < m {
            assert front[i] == rows[i];
          }
        }
      }
    }
  }
}
