/**
 * The pending-edit ("draft") list of the contacts grid: an upsert keyed by
 * `Id`, the left-to-right application of a batch of cell edits, and the
 * per-record merge that both the draft list and the row list use.
 */
module Drafts {
  import opened Wrappers
  import opened Records

  /** At most one record per `Id`. */
  predicate UniqueIds(rs: seq<Row>) {
    forall i, j :: 0 <= i < j < |rs| ==> IdOf(rs[i]) != IdOf(rs[j])
  }

  /** Some record of `rs` has identity `k`. */
  predicate HasId(rs: seq<Row>, k: Option<Value>) {
    exists i :: 0 <= i < |rs| && IdOf(rs[i]) == k
  }

  /**
   * The `forEach` over a copy of the list: every record whose `Id` matches
   * the edit's receives all of the edit's fields; the others are left alone.
   * The list keeps its length, its order and every record's identity.
   */
  function MergeMatching(rs: seq<Row>, edit: Row): (r: seq<Row>)
    ensures |r| == |rs|
    ensures forall i :: 0 <= i < |rs| && SameId(rs[i], edit) ==> Overrides(r[i], rs[i], edit)
    ensures forall i :: 0 <= i < |rs| && !SameId(rs[i], edit) ==> r[i] == rs[i]
    ensures forall i :: 0 <= i < |rs| ==> IdOf(r[i]) == IdOf(rs[i])
  {
    if rs == [] then []
    else
      var head := if SameId(rs[0], edit) then Merge(rs[0], edit) else rs[0];
      [head] + MergeMatching(rs[1..], edit)
  }

  /**
   * `updateDraftValues`: an edit for an `Id` already in the list is merged
   * into that draft, last write winning field by field; an edit for a new
   * `Id` is appended.
   */
  function UpsertDraft(ds: seq<Row>, edit: Row): (r: seq<Row>)
    ensures !HasId(ds, IdOf(edit)) ==> r == ds + [edit]
    ensures HasId(ds, IdOf(edit)) ==> |r| == |ds|
    ensures HasId(ds, IdOf(edit)) ==>
      forall i :: 0 <= i < |ds| && SameId(ds[i], edit) ==> Overrides(r[i], ds[i], edit)
    ensures forall i :: 0 <= i < |ds| && !SameId(ds[i], edit) ==> r[i] == ds[i]
    ensures forall i :: 0 <= i < |ds| ==> IdOf(r[i]) == IdOf(ds[i])
    ensures forall k :: HasId(r, k) <==> HasId(ds, k) || k == IdOf(edit)
    ensures UniqueIds(ds) ==> UniqueIds(r)
  {
    if HasId(ds, IdOf(edit)) then
      var r := MergeMatching(ds, edit);
      assert forall k :: HasId(r, k) <==> HasId(ds, k) by {
        forall k
          ensures HasId(r, k) <==> HasId(ds, k)
        {
          if HasId(r, k) {
            var i :| 0 <= i < |r| && IdOf(r[i]) == k;
            assert IdOf(ds[i]) == k;
          }
          if HasId(ds, k) {
            var i :| 0 <= i < |ds| && IdOf(ds[i]) == k;
            assert IdOf(r[i]) == k;
          }
        }
      }
      r
    else
      var r := ds + [edit];
      assert IdOf(r[|ds|]) == IdOf(edit);
      assert forall k :: HasId(r, k) ==> HasId(ds, k) || k == IdOf(edit) by {
        forall k | HasId(r, k)
          ensures HasId(ds, k) || k == IdOf(edit)
        {
          var i :| 0 <= i < |r| && IdOf(r[i]) == k;
          if i < |ds| {
            assert IdOf(ds[i]) == k;
          }
        }
      }
      r
  }

  /**
   * `handleCellChange`: the edits of one change event, applied left to right.
   * Drafts already in the list keep their place and identity; the result
   * holds exactly the identities of the old drafts and of the edits; and if
   * the list had one draft per `Id` before, it still has afterwards.
   */
  function ApplyEdits(ds: seq<Row>, edits: seq<Row>): (r: seq<Row>)
    ensures |ds| <= |r|
    ensures forall i :: 0 <= i < |ds| ==> IdOf(r[i]) == IdOf(ds[i])
    ensures forall k :: HasId(r, k) <==> HasId(ds, k) || HasId(edits, k)
    ensures UniqueIds(ds) ==> UniqueIds(r)
    decreases |edits|
  {
    if edits == [] then ds
    else
      var r := ApplyEdits(UpsertDraft(ds, edits[0]), edits[1..]);
      assert forall k :: HasId(edits, k) <==> k == IdOf(edits[0]) || HasId(edits[1..], k) by {
        forall k | HasId(edits, k) && k != IdOf(edits[0])
          ensures HasId(edits[1..], k)
        {
          var i :| 0 <= i < |edits| && IdOf(edits[i]) == k;
          assert IdOf(edits[1..][i - 1]) == k;
        }
      }
      r
  }

  // ---------------------------------------------------------------------------
  // The order of the drafts after a batch of edits.
  // ---------------------------------------------------------------------------

  /** The identities of the records, in list order. */
  function IdList(rs: seq<Row>): (ks: seq<Option<Value>>)
    ensures |ks| == |rs|
    ensures forall i :: 0 <= i < |rs| ==> ks[i] == IdOf(rs[i])
  {
    seq(|rs|, i requires 0 <= i < |rs| => IdOf(rs[i]))
  }

  /** `acc` followed by each key of `ks` not seen before, in order of first appearance. */
  function AppendNew(acc: seq<Option<Value>>, ks: seq<Option<Value>>): seq<Option<Value>>
    decreases |ks|
  {
    if ks == [] then acc
    else AppendNew(if ks[0] in acc then acc else acc + [ks[0]], ks[1..])
  }

  /** One upsert leaves the identity order alone, or appends the edit's `Id` when it is new. */
  lemma UpsertIdList(ds: seq<Row>, edit: Row)
    ensures IdList(UpsertDraft(ds, edit))
         == if IdOf(edit) in IdList(ds) then IdList(ds) else IdList(ds) + [IdOf(edit)]
  {
    var r := UpsertDraft(ds, edit);
    if IdOf(edit) in IdList(ds) {
      var i :| 0 <= i < |IdList(ds)| && IdList(ds)[i] == IdOf(edit);
      assert HasId(ds, IdOf(edit)) by { assert IdOf(ds[i]) == IdOf(edit); }
      assert IdList(r) == IdList(ds);
    } else {
      assert !HasId(ds, IdOf(edit));
      assert IdList(r) == IdList(ds) + [IdOf(edit)];
    }
  }

  /**
   * A batch keeps the old drafts' order and appends the drafts for new
   * `Id`s in the order of each `Id`'s first edit.
   */
  lemma {:induction false} ApplyEditsIdOrder(ds: seq<Row>, edits: seq<Row>)
    ensures IdList(ApplyEdits(ds, edits)) == AppendNew(IdList(ds), IdList(edits))
    decreases |edits|
  {
    if edits != [] {
      UpsertIdList(ds, edits[0]);
      ApplyEditsIdOrder(UpsertDraft(ds, edits[0]), edits[1..]);
      assert IdList(edits)[1..] == IdList(edits[1..]);
    }
  }

  // ---------------------------------------------------------------------------
  // A reference description of a draft after a batch of edits, one Id at a time.
  // ---------------------------------------------------------------------------

  /** The record of `rs` with identity `k` (the first one), or the empty record if there is none. */
  function RecordFor(rs: seq<Row>, k: Option<Value>): Row {
    if rs == [] then map[]
    else if IdOf(rs[0]) == k then rs[0]
    else RecordFor(rs[1..], k)
  }

  /** The edits with identity `k`, folded left to right onto `base`. */
  function FoldEdits(base: Row, edits: seq<Row>, k: Option<Value>): Row
    decreases |edits|
  {
    if edits == [] then base
    else FoldEdits(if IdOf(edits[0]) == k then base + edits[0] else base, edits[1..], k)
  }

  /** The value the last edit with identity `k` that sets field `f` gives it, if any edit does. */
  function LastWrite(edits: seq<Row>, k: Option<Value>, f: string): Option<Value>
    decreases |edits|
  {
    if edits == [] then None
    else
      match LastWrite(edits[1..], k, f)
      case Some(v) => Some(v)
      case None => if IdOf(edits[0]) == k && f in edits[0] then Some(edits[0][f]) else None
  }

  lemma {:induction false} RecordForAt(rs: seq<Row>, i: nat, k: Option<Value>)
    requires UniqueIds(rs)
    requires i < |rs| && IdOf(rs[i]) == k
    ensures RecordFor(rs, k) == rs[i]
    decreases |rs|
  {
    if i > 0 {
      assert IdOf(rs[0]) != k;
      assert UniqueIds(rs[1..]) by {
        forall a, b | 0 <= a < b < |rs[1..]|
          ensures IdOf(rs[1..][a]) != IdOf(rs[1..][b])
        {
          assert rs[1..][a] == rs[a + 1] && rs[1..][b] == rs[b + 1];
        }
      }
      RecordForAt(rs[1..], i - 1, k);
    }
  }

  lemma {:induction false} RecordForAbsent(rs: seq<Row>, k: Option<Value>)
    requires !HasId(rs, k)
    ensures RecordFor(rs, k) == map[]
    decreases |rs|
  {
    if rs != [] {
      assert IdOf(rs[0]) != k;
      RecordForAbsent(rs[1..], k);
    }
  }

  /** One upsert changes the record for `k` exactly as one step of `FoldEdits` does. */
  lemma UpsertRecordFor(ds: seq<Row>, edit: Row, k: Option<Value>)
    requires UniqueIds(ds)
    ensures RecordFor(UpsertDraft(ds, edit), k)
         == if IdOf(edit) == k then RecordFor(ds, k) + edit else RecordFor(ds, k)
  {
    var r := UpsertDraft(ds, edit);
    if HasId(ds, k) {
      var i :| 0 <= i < |ds| && IdOf(ds[i]) == k;
      RecordForAt(ds, i, k);
      assert UniqueIds(r);
      RecordForAt(r, i, k);
      if IdOf(edit) == k {
        assert SameId(ds[i], edit);
        assert Overrides(r[i], ds[i], edit);
        assert r[i].Keys == (ds[i] + edit).Keys;
        forall f | f in r[i]
          ensures r[i][f] == (ds[i] + edit)[f]
        {
        }
        assert r[i] == ds[i] + edit;
      } else {
        assert !SameId(ds[i], edit);
        assert r[i] == ds[i];
      }
    } else if IdOf(edit) == k {
      RecordForAbsent(ds, k);
      RecordForAt(r, |ds|, k);
      assert map[] + edit == edit;
    } else {
      RecordForAbsent(ds, k);
      RecordForAbsent(r, k);
    }
  }

  /**
   * Seen from one `Id`, a batch of edits folds that `Id`'s edits onto its
   * draft, in order (onto the empty record if there was no draft yet).
   */
  lemma {:induction false} ApplyEditsRecordFor(ds: seq<Row>, edits: seq<Row>, k: Option<Value>)
    requires UniqueIds(ds)
    ensures RecordFor(ApplyEdits(ds, edits), k) == FoldEdits(RecordFor(ds, k), edits, k)
    decreases |edits|
  {
    if edits != [] {
      UpsertRecordFor(ds, edits[0], k);
      ApplyEditsRecordFor(UpsertDraft(ds, edits[0]), edits[1..], k);
    }
  }

  /** Field by field, folding edits keeps the last value written and otherwise the base's. */
  lemma {:induction false} FoldEditsField(base: Row, edits: seq<Row>, k: Option<Value>, f: string)
    ensures LastWrite(edits, k, f).Some? ==>
      f in FoldEdits(base, edits, k) && FoldEdits(base, edits, k)[f] == LastWrite(edits, k, f).value
    ensures LastWrite(edits, k, f).None? ==>
      (f in FoldEdits(base, edits, k) <==> f in base)
      && (f in base ==> FoldEdits(base, edits, k)[f] == base[f])
    decreases |edits|
  {
    if edits != [] {
      var next := if IdOf(edits[0]) == k then base + edits[0] else base;
      FoldEditsField(next, edits[1..], k, f);
    }
  }

  /**
   * Last write wins, for any batch of edits: the draft for `Id` `k` holds, for
   * every field, the value of the last edit for `k` that set it, and where no
   * edit set it, whatever the draft held before.
   */
  lemma ApplyEditsLastWriteWins(ds: seq<Row>, edits: seq<Row>, j: nat, f: string)
    requires UniqueIds(ds)
    requires j < |ApplyEdits(ds, edits)|
    ensures var r := ApplyEdits(ds, edits);
      var k := IdOf(r[j]);
      && (LastWrite(edits, k, f).Some? ==> f in r[j] && r[j][f] == LastWrite(edits, k, f).value)
      && (LastWrite(edits, k, f).None? ==>
            (f in r[j] <==> f in RecordFor(ds, k))
            && (f in r[j] ==> r[j][f] == RecordFor(ds, k)[f]))
  {
    var r := ApplyEdits(ds, edits);
    var k := IdOf(r[j]);
    RecordForAt(r, j, k);
    ApplyEditsRecordFor(ds, edits, k);
    FoldEditsField(RecordFor(ds, k), edits, k, f);
  }

  /**
   * Two edits of the same `Id` give one draft for that `Id`, holding the
   * fields of both, the later edit winning on a field both set.
   */
  lemma TwoEditsMerge(ds: seq<Row>, edits: seq<Row>)
    requires UniqueIds(ds)
    requires |edits| == 2 && SameId(edits[0], edits[1])
    ensures HasId(ApplyEdits(ds, edits), IdOf(edits[0]))
    ensures UniqueIds(ApplyEdits(ds, edits))
    ensures forall j :: 0 <= j < |ApplyEdits(ds, edits)| && IdOf(ApplyEdits(ds, edits)[j]) == IdOf(edits[0]) ==>
      && (forall f :: f in edits[1] ==> f in ApplyEdits(ds, edits)[j] && ApplyEdits(ds, edits)[j][f] == edits[1][f])
      && (forall f :: f in edits[0] && f !in edits[1] ==> f in ApplyEdits(ds, edits)[j] && ApplyEdits(ds, edits)[j][f] == edits[0][f])
  {
    var r := ApplyEdits(ds, edits);
    var k := IdOf(edits[0]);
    assert HasId(edits, k);
    assert HasId(r, k);
    forall j | 0 <= j < |r| && IdOf(r[j]) == k
      ensures forall f :: f in edits[1] ==> f in r[j] && r[j][f] == edits[1][f]
      ensures forall f :: f in edits[0] && f !in edits[1] ==> f in r[j] && r[j][f] == edits[0][f]
    {
      RecordForAt(r, j, k);
      ApplyEditsRecordFor(ds, edits, k);
      var base := RecordFor(ds, k);
      assert edits[1..][1..] == [];
      assert FoldEdits(base, edits, k) == FoldEdits(base + edits[0], edits[1..], k);
      assert FoldEdits(base + edits[0], edits[1..], k) == FoldEdits(base + edits[0] + edits[1], [], k);
    }
  }
}
