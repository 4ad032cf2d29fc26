/**
 * The grid of applications: one row per supervised executable, with the
 * columns Path, Enabled and Status in that order.
 */
module Table {
  import opened Processes

  datatype Status = Running | Stopped

  datatype Row = Row(path: Path, enabled: bool, status: Status)

  /** The status a scan writes for a path: Running exactly when some readable process matches it. */
  function StatusFor(snap: Snapshot, canon: Canon, path: Path): (status: Status)
    ensures status == Running <==> AnyMatch(snap, canon, path)
  {
    if FirstMatch(snap, canon, path).Some? then Running else Stopped
  }

  /** The rows left after removing those at the positions in `selected`. */
  function Kept<T>(s: seq<T>, selected: set<nat>): seq<T>
  {
    if s == [] then []
    else Kept(s[..|s| - 1], selected) + (if |s| - 1 in selected then [] else [s[|s| - 1]])
  }

  /**
   * Kept is the subsequence of the unselected rows in their original order:
   * listing the unselected positions in increasing order and picking the rows
   * at them gives exactly Kept.
   */
  lemma {:induction false} KeptIsUnselectedInOrder<T>(s: seq<T>, selected: set<nat>, ids: seq<nat>)
    requires forall p, q :: 0 <= p < q < |ids| ==> ids[p] < ids[q]
    requires forall p :: 0 <= p < |ids| ==> ids[p] < |s|
    requires forall i :: 0 <= i < |s| ==> (i in ids <==> i !in selected)
    ensures Kept(s, selected) == seq(|ids|, p requires 0 <= p < |ids| => s[ids[p]])
  {
    if s == [] {
    } else {
      var m := |s| - 1;
      var front := s[..m];
      if m in selected {
        forall p | 0 <= p < |ids| ensures ids[p] < m {
          assert ids[p] in ids;
        }
        KeptIsUnselectedInOrder(front, selected, ids);
        assert Kept(s, selected) == Kept(front, selected);
      } else {
        assert m in ids;
        var p :| 0 <= p < |ids| && ids[p] == m;
        var last := |ids| - 1;
        assert ids[p] <= ids[last];
        assert ids[last] == m;
        var rest := ids[..last];
        forall i | 0 <= i < m ensures (i in rest <==> i !in selected) {
          if i in ids {
            var q :| 0 <= q < |ids| && ids[q] == i;
            assert q != last;
            assert rest[q] == i;
          }
          if i in rest {
            var q :| 0 <= q < |rest| && rest[q] == i;
            assert ids[q] == i;
          }
        }
        forall q | 0 <= q < |rest| ensures rest[q] < m {
          assert ids[q] < ids[last];
        }
        KeptIsUnselectedInOrder(front, selected, rest);
        assert Kept(s, selected) == Kept(front, selected) + [s[m]];
      }
    }
  }

  /**
   * `rows` is what remains of `original` while rows are being removed: ids[p]
   * is the original position of the row now at position p, in increasing order.
   */
  ghost predicate Tracks<T>(original: seq<T>, ids: seq<nat>, rows: seq<T>)
  {
    && |ids| == |rows|
    && (forall p :: 0 <= p < |ids| ==> ids[p] < |original| && rows[p] == original[ids[p]])
    && (forall p, q :: 0 <= p < q < |ids| ==> ids[p] < ids[q])
  }

  /** Removing the row at a live position keeps the tracking of the rows that remain. */
  lemma TracksAfterRemoval<T>(original: seq<T>, ids: seq<nat>, rows: seq<T>, index: nat)
    requires Tracks(original, ids, rows) && index < |ids|
    ensures Tracks(original, ids[..index] + ids[index + 1..], rows[..index] + rows[index + 1..])
  {
    var ids' := ids[..index] + ids[index + 1..];
    var rows' := rows[..index] + rows[index + 1..];
    forall p | 0 <= p < |ids'| ensures ids'[p] == ids[if p < index then p else p + 1] {
    }
    forall p | 0 <= p < |rows'| ensures rows'[p] == rows[if p < index then p else p + 1] {
    }
  }

  /** Removing the identity at a live position forgets exactly that identity. */
  lemma IdentitiesAfterRemoval(ids: seq<nat>, index: nat)
    requires index < |ids|
    requires forall p, q :: 0 <= p < q < |ids| ==> ids[p] < ids[q]
    ensures forall i :: i in ids[..index] + ids[index + 1..] <==> i in ids && i != ids[index]
  {
    var ids' := ids[..index] + ids[index + 1..];
    forall i ensures i in ids' <==> i in ids && i != ids[index] {
      if i in ids' {
        var p :| 0 <= p < |ids'| && ids'[p] == i;
        if p < index {
          assert ids[p] == i && ids[p] < ids[index];
        } else {
          assert ids[p + 1] == i && ids[index] < ids[p + 1];
        }
      }
      if i in ids && i != ids[index] {
        var p :| 0 <= p < |ids| && ids[p] == i;
        if p < index {
          assert ids'[p] == i;
        } else {
          assert ids'[p - 1] == i;
        }
      }
    }
  }

  /** Forgetting the identity of the k-th selected row brings the remaining identities in line with one more selection. */
  lemma SelectionStep(n: nat, ids: seq<nat>, ids': seq<nat>, selected: seq<nat>, k: nat)
    requires k < |selected|
    requires forall i :: 0 <= i < n ==> (i in ids <==> i !in selected[..k])
    requires forall i :: i in ids' <==> i in ids && i != selected[k]
    ensures forall i :: 0 <= i < n ==> (i in ids' <==> i !in selected[..k + 1])
  {
    assert selected[..k + 1] == selected[..k] + [selected[k]];
  }

  /** Removing nothing that is in the table leaves it as it is. */
  lemma {:induction false} KeptNoneSelected<T>(s: seq<T>, selected: set<nat>)
    requires forall i :: 0 <= i < |s| ==> i !in selected
    ensures Kept(s, selected) == s
  {
    if s != [] {
      KeptNoneSelected(s[..|s| - 1], selected);
      assert s[..|s| - 1] + [s[|s| - 1]] == s;
    }
  }

  /** Removing a freshly appended row, by its position, restores the table it was added to. */
  lemma AddThenRemoveRestores<T>(s: seq<T>, added: T)
    ensures Kept(s + [added], {|s|}) == s
  {
    var t := s + [added];
    assert t[..|t| - 1] == s;
    KeptNoneSelected(s, {|s|});
  }

  /** The first and the last of three rows removed together leave the middle one. */
  lemma RemoveFirstAndLast<T>(a: T, b: T, c: T)
    ensures Kept([a, b, c], {0, 2}) == [b]
  {
    assert [a, b, c][..2] == [a, b];
    assert [a, b][..1] == [a];
    assert [a][..0] == [];
    assert Kept([a], {0, 2}) == [];
    assert Kept([a, b], {0, 2}) == [b];
  }
}
