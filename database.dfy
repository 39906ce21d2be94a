/** The database driver's retention rule.

    The audits table is modelled as a sequence of rows already in newest-first
    order, which is the order `latest()` reads them in. Pruning a model keeps
    its `threshold` most recent audits and deletes the rest; a threshold of
    zero or less keeps everything. */
module DatabaseDriver {

  /** The morph key that ties an audit to its model (`AUDITABLE_TYPE`, `AUDITABLE_ID`). */
  datatype Subject = Subject(auditableType: string, auditableId: nat)

  /** One row of the audits table, reduced to what pruning reads: its
      `AUDIT_TRAILS_ID` and the model it belongs to. */
  datatype AuditRow = AuditRow(id: nat, auditable: Subject)

  /** `AUDIT_TRAILS_ID` is the table's auto-increment key: no two rows share it. */
  predicate DistinctIds(rows: seq<AuditRow>) {
    forall i, j | 0 <= i < j < |rows| :: rows[i].id != rows[j].id
  }

  function Min(a: nat, b: nat): nat {
    if a <= b then a else b
  }

  /** `$model->AUDIT_TRAILS()`: the rows of model `m`, in table order. */
  function AuditsOf(rows: seq<AuditRow>, m: Subject): (r: seq<AuditRow>)
    ensures |r| <= |rows|
  {
    if rows == [] then []
    else
      var last := rows[|rows| - 1];
      AuditsOf(rows[..|rows| - 1], m) + if last.auditable == m then [last] else []
  }

  /** `->pluck('AUDIT_TRAILS_ID')`. */
  function Ids(rows: seq<AuditRow>): seq<nat> {
    seq(|rows|, i requires 0 <= i < |rows| => rows[i].id)
  }

  /** `->slice($threshold)->pluck('AUDIT_TRAILS_ID')` on a model's audits in
      newest-first order: the ids of every audit after the first `threshold`
      (none when there are no more than `threshold`). */
  function ForRemoval(audits: seq<AuditRow>, threshold: nat): seq<nat> {
    Ids(audits[Min(threshold, |audits|)..])
  }

  /** Whether `->whereIn('AUDIT_TRAILS_ID', $ids)->delete()` on the audits of
      model `m` removes `row`. */
  predicate Deleted(row: AuditRow, m: Subject, ids: seq<nat>) {
    row.auditable == m && row.id in ids
  }

  /** The table after that delete. */
  function Remaining(rows: seq<AuditRow>, m: Subject, ids: seq<nat>): (r: seq<AuditRow>)
    ensures |r| <= |rows|
  {
    if rows == [] then []
    else
      var last := rows[|rows| - 1];
      Remaining(rows[..|rows| - 1], m, ids) + if Deleted(last, m, ids) then [] else [last]
  }

  /** The audits of `audits` whose id is not in `ids`. */
  function Without(audits: seq<AuditRow>, ids: seq<nat>): (r: seq<AuditRow>)
    ensures |r| <= |audits|
  {
    if audits == [] then []
    else
      var last := audits[|audits| - 1];
      Without(audits[..|audits| - 1], ids) + if last.id in ids then [] else [last]
  }

  // ---------------------------------------------------------------------------
  // Properties of the delete

  /** A row survives exactly when it is not one of the deleted ones. */
  lemma {:induction false} RemainingMembers(rows: seq<AuditRow>, m: Subject, ids: seq<nat>, x: AuditRow)
    ensures x in Remaining(rows, m, ids) <==> x in rows && !Deleted(x, m, ids)
  {
    if rows != [] {
      var init := rows[..|rows| - 1];
      RemainingMembers(init, m, ids, x);
      assert rows == init + [rows[|rows| - 1]];
    }
  }

  /** The model's audits are exactly its rows. */
  lemma {:induction false} AuditsOfMembers(rows: seq<AuditRow>, m: Subject, x: AuditRow)
    ensures x in AuditsOf(rows, m) <==> x in rows && x.auditable == m
  {
    if rows != [] {
      var init := rows[..|rows| - 1];
      AuditsOfMembers(init, m, x);
      assert rows == init + [rows[|rows| - 1]];
    }
  }

  lemma AuditsOfSnoc(rows: seq<AuditRow>, x: AuditRow, m: Subject)
    ensures AuditsOf(rows + [x], m) == AuditsOf(rows, m) + if x.auditable == m then [x] else []
  {
    assert (rows + [x])[..|rows|] == rows;
  }

  lemma WithoutSnoc(audits: seq<AuditRow>, x: AuditRow, ids: seq<nat>)
    ensures Without(audits + [x], ids) == Without(audits, ids) + if x.id in ids then [] else [x]
  {
    assert (audits + [x])[..|audits|] == audits;
  }

  /** The delete leaves the audits of every other model as they were. */
  lemma {:induction false} OthersUntouched(rows: seq<AuditRow>, m: Subject, ids: seq<nat>, other: Subject)
    requires other != m
    ensures AuditsOf(Remaining(rows, m, ids), other) == AuditsOf(rows, other)
  {
    if rows != [] {
      var init := rows[..|rows| - 1];
      var last := rows[|rows| - 1];
      OthersUntouched(init, m, ids, other);
      assert AuditsOf(rows, other) == AuditsOf(init, other) + if last.auditable == other then [last] else [];
      if Deleted(last, m, ids) {
        assert Remaining(rows, m, ids) == Remaining(init, m, ids);
      } else {
        assert Remaining(rows, m, ids) == Remaining(init, m, ids) + [last];
        AuditsOfSnoc(Remaining(init, m, ids), last, other);
      }
    }
  }

  /** The delete removes from the model's own audits exactly those with an id in `ids`. */
  lemma {:induction false} OwnAuditsAfterDelete(rows: seq<AuditRow>, m: Subject, ids: seq<nat>)
    ensures AuditsOf(Remaining(rows, m, ids), m) == Without(AuditsOf(rows, m), ids)
  {
    if rows != [] {
      var init := rows[..|rows| - 1];
      var last := rows[|rows| - 1];
      OwnAuditsAfterDelete(init, m, ids);
      var r := Remaining(init, m, ids);
      var a := AuditsOf(init, m);
      if last.auditable != m {
        assert AuditsOf(rows, m) == a;
        assert Remaining(rows, m, ids) == r + [last];
        AuditsOfSnoc(r, last, m);
      } else {
        assert AuditsOf(rows, m) == a + [last];
        WithoutSnoc(a, last, ids);
        if last.id in ids {
          assert Remaining(rows, m, ids) == r;
        } else {
          assert Remaining(rows, m, ids) == r + [last];
          AuditsOfSnoc(r, last, m);
        }
      }
    }
  }

  /** The delete removes as many rows as the model's audits lose. */
  lemma {:induction false} DeleteCount(rows: seq<AuditRow>, m: Subject, ids: seq<nat>)
    ensures |rows| - |Remaining(rows, m, ids)| == |AuditsOf(rows, m)| - |Without(AuditsOf(rows, m), ids)|
  {
    if rows != [] {
      var init := rows[..|rows| - 1];
      var last := rows[|rows| - 1];
      DeleteCount(init, m, ids);
      var a := AuditsOf(init, m);
      if last.auditable != m {
        assert AuditsOf(rows, m) == a;
        assert Remaining(rows, m, ids) == Remaining(init, m, ids) + [last];
      } else {
        assert AuditsOf(rows, m) == a + [last];
        WithoutSnoc(a, last, ids);
        if last.id in ids {
          assert Remaining(rows, m, ids) == Remaining(init, m, ids);
        } else {
          assert Remaining(rows, m, ids) == Remaining(init, m, ids) + [last];
        }
      }
    }
  }

  /** An empty id list deletes nothing. */
  lemma {:induction false} DeleteNothing(rows: seq<AuditRow>, m: Subject)
    ensures Remaining(rows, m, []) == rows
  {
    if rows != [] {
      DeleteNothing(rows[..|rows| - 1], m);
      assert rows == rows[..|rows| - 1] + [rows[|rows| - 1]];
    }
  }

  /** Dropping the ids of everything after position `t` from a list with distinct
      ids keeps its first `t` elements. */
  lemma {:induction false} WithoutSuffixIds(a: seq<AuditRow>, t: nat, k: nat)
    requires DistinctIds(a) && t <= |a| && k <= |a|
    ensures Without(a[..k], Ids(a[t..])) == a[..Min(k, t)]
  {
    if k > 0 {
      WithoutSuffixIds(a, t, k - 1);
      assert a[..k][..k - 1] == a[..k - 1];
      var x := a[k - 1];
      if k - 1 < t {
        assert a[..k - 1] + [x] == a[..k];
      } else {
        assert Ids(a[t..])[k - 1 - t] == x.id;
      }
    }
  }

  lemma {:induction false} AuditsOfDistinct(rows: seq<AuditRow>, m: Subject)
    requires DistinctIds(rows)
    ensures DistinctIds(AuditsOf(rows, m))
  {
    if rows != [] {
      var init := rows[..|rows| - 1];
      var last := rows[|rows| - 1];
      AuditsOfDistinct(init, m);
      var a := AuditsOf(init, m);
      forall x | x in a
        ensures x.id != last.id
      {
        AuditsOfMembers(init, m, x);
        var i :| 0 <= i < |init| && init[i] == x;
      }
    }
  }

  lemma {:induction false} RemainingDistinct(rows: seq<AuditRow>, m: Subject, ids: seq<nat>)
    requires DistinctIds(rows)
    ensures DistinctIds(Remaining(rows, m, ids))
  {
    if rows != [] {
      var init := rows[..|rows| - 1];
      var last := rows[|rows| - 1];
      RemainingDistinct(init, m, ids);
      var r := Remaining(init, m, ids);
      forall x | x in r
        ensures x.id != last.id
      {
        RemainingMembers(init, m, ids, x);
        var i :| 0 <= i < |init| && init[i] == x;
      }
    }
  }

  /** What a prune with a positive threshold does: the model keeps its
      `threshold` newest audits (all of them when it has fewer), in order; the
      number of deleted rows is the number of audits past the threshold; the
      removal list is empty exactly when there are none; no other model's
      audits change; and ids stay distinct. */
  lemma PruneEffect(rows: seq<AuditRow>, m: Subject, threshold: nat)
    requires DistinctIds(rows) && threshold > 0
    ensures var audits := AuditsOf(rows, m);
      var ids := ForRemoval(audits, threshold);
      var after := Remaining(rows, m, ids);
      && AuditsOf(after, m) == audits[..Min(threshold, |audits|)]
      && |AuditsOf(after, m)| == Min(|audits|, threshold)
      && |rows| - |after| == |audits| - Min(threshold, |audits|)
      && (ids == [] <==> |audits| <= threshold)
      && (forall other | other != m :: AuditsOf(after, other) == AuditsOf(rows, other))
      && DistinctIds(after)
  {
    var audits := AuditsOf(rows, m);
    var ids := ForRemoval(audits, threshold);
    var t := Min(threshold, |audits|);
    AuditsOfDistinct(rows, m);
    OwnAuditsAfterDelete(rows, m, ids);
    DeleteCount(rows, m, ids);
    WithoutSuffixIds(audits, t, |audits|);
    assert audits[..|audits|] == audits;
    assert Ids(audits[t..]) == ids;
    forall other | other != m
      ensures AuditsOf(Remaining(rows, m, ids), other) == AuditsOf(rows, other)
    {
      OthersUntouched(rows, m, ids, other);
    }
    RemainingDistinct(rows, m, ids);
  }

  // ---------------------------------------------------------------------------
  // The driver over a store

  /** The audits table. */
  class AuditStore {
    var rows: seq<AuditRow>

    ghost predicate Valid()
      reads this
    {
      DistinctIds(rows)
    }

    constructor (rows: seq<AuditRow>)
      requires DistinctIds(rows)
      ensures this.rows == rows && Valid()
    {
      this.rows := rows;
    }

    /** `$model->AUDIT_TRAILS()->whereIn('AUDIT_TRAILS_ID', $ids)->delete()`:
        removes the model's rows whose id is in `ids` and returns how many. */
    method DeleteWhereIn(model: Subject, ids: seq<nat>) returns (count: nat)
      requires Valid()
      modifies this
      ensures Valid()
      ensures rows == Remaining(old(rows), model, ids)
      ensures count == |old(rows)| - |rows|
    {
      var all := rows;
      var kept: seq<AuditRow> := [];
      count := 0;
      for i := 0 to |all|
        invariant kept == Remaining(all[..i], model, ids)
        invariant count == i - |kept|
      {
        assert all[..i + 1][..i] == all[..i];
        if Deleted(all[i], model, ids) {
          count := count + 1;
        } else {
          kept := kept + [all[i]];
        }
      }
      assert all[..|all|] == all;
      RemainingDistinct(all, model, ids);
      rows := kept;
    }

    /** `prune`: with a positive threshold, deletes the model's audits past the
        `threshold` newest and reports whether any row went. */
    method Prune(model: Subject, threshold: int) returns (pruned: bool)
      requires Valid()
      modifies this
      ensures Valid()
      ensures threshold <= 0 ==> !pruned && rows == old(rows)
      ensures threshold > 0 ==> rows == Remaining(old(rows), model, ForRemoval(AuditsOf(old(rows), model), threshold))
      ensures threshold > 0 ==>
        var audits := AuditsOf(old(rows), model);
        AuditsOf(rows, model) == audits[..Min(threshold, |audits|)]
      ensures forall other | other != model :: AuditsOf(rows, other) == AuditsOf(old(rows), other)
      ensures pruned <==> |rows| < |old(rows)|
      ensures pruned <==> threshold > 0 && |AuditsOf(old(rows), model)| > threshold
    {
      pruned := false;
      if threshold > 0 {
        var audits := AuditsOf(rows, model);
        var forRemoval := ForRemoval(audits, threshold);
        PruneEffect(rows, model, threshold);
        if forRemoval != [] {
          var count := DeleteWhereIn(model, forRemoval);
          pruned := count > 0;
        } else {
          DeleteNothing(rows, model);
        }
      }
    }
  }
}
