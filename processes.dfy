/**
 * The process matcher: which process of a snapshot of the process table runs
 * the executable at a given path. The source repeats this scan inside every
 * operation of the form (load, status refresh, start pass, stop pass).
 */
module Processes {
  import opened Wrappers

  type Path = string

  /** Full-path canonicalisation (`Path.GetFullPath`); None where it throws. */
  type Canon = Path -> Option<Path>

  /**
   * A snapshot of the process table in enumeration order: the image path of
   * each process, or None where reading its main module threw (access denied,
   * the process exited, a system process without an image).
   */
  type Snapshot = seq<Option<Path>>

  /**
   * Whether a process with this image runs the executable at `path`: both sides
   * canonicalise without throwing and agree. A throw on either side is caught by
   * the scan and counts as no match.
   */
  predicate Matches(canon: Canon, image: Option<Path>, path: Path)
  {
    image.Some? && canon(image.value).Some? && canon(image.value) == canon(path)
  }

  /** Some process of the snapshot runs the executable at `path`. */
  ghost predicate AnyMatch(snap: Snapshot, canon: Canon, path: Path)
  {
    exists j :: 0 <= j < |snap| && Matches(canon, snap[j], path)
  }

  /** The first matching process at or after position `k`. */
  function FirstMatchFrom(snap: Snapshot, canon: Canon, path: Path, k: nat): (found: Option<nat>)
    requires k <= |snap|
    ensures found.Some? ==> k <= found.value < |snap| && Matches(canon, snap[found.value], path)
    ensures found.Some? ==> forall j :: k <= j < found.value ==> !Matches(canon, snap[j], path)
    ensures found.None? ==> forall j :: k <= j < |snap| ==> !Matches(canon, snap[j], path)
    decreases |snap| - k
  {
    if k == |snap| then None
    else if Matches(canon, snap[k], path) then Some(k)
    else FirstMatchFrom(snap, canon, path, k + 1)
  }

  /**
   * The process a scan settles on: the first one in enumeration order whose
   * canonical image is the canonical path; None exactly when no process matches.
   */
  function FirstMatch(snap: Snapshot, canon: Canon, path: Path): (found: Option<nat>)
    ensures found.Some? ==> found.value < |snap| && Matches(canon, snap[found.value], path)
    ensures found.Some? ==> forall j :: 0 <= j < found.value ==> !Matches(canon, snap[j], path)
    ensures found.None? <==> !AnyMatch(snap, canon, path)
  {
    FirstMatchFrom(snap, canon, path, 0)
  }

  /**
   * The scan itself: walk the processes in order, skip those whose image cannot
   * be read or canonicalised, and stop at the first match.
   */
  method FindProcess(snap: Snapshot, canon: Canon, path: Path) returns (found: Option<nat>)
    ensures found == FirstMatch(snap, canon, path)
  {
    found := None;
    var j := 0;
    while j < |snap|
      invariant 0 <= j <= |snap|
      invariant forall i :: 0 <= i < j ==> !Matches(canon, snap[i], path)
    {
      if Matches(canon, snap[j], path) {
        found := Some(j);
        return;
      }
      j := j + 1;
    }
  }

  /** A process whose image cannot be read, wherever it stands, never changes whether a path is running. */
  lemma UnreadableProcessIgnored(snap: Snapshot, canon: Canon, path: Path, k: nat)
    requires k <= |snap|
    ensures AnyMatch(snap[..k] + [None] + snap[k..], canon, path) <==> AnyMatch(snap, canon, path)
  {
    var wider := snap[..k] + [None] + snap[k..];
    if AnyMatch(wider, canon, path) {
      var j :| 0 <= j < |wider| && Matches(canon, wider[j], path);
      if j < k {
        assert wider[j] == snap[j];
      } else {
        assert j != k;
        assert wider[j] == snap[j - 1];
      }
    }
    if AnyMatch(snap, canon, path) {
      var j :| 0 <= j < |snap| && Matches(canon, snap[j], path);
      if j < k {
        assert wider[j] == snap[j];
      } else {
        assert wider[j + 1] == snap[j];
      }
    }
  }
}
