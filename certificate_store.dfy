/**
 * The certificate store: a table of certificate rows, one appended per save,
 * read back by subject, scope and an inclusive expiry bound.
 */
module CertificateStore {
  import opened Common

  /** The certificate scope as relaynet-core names it. */
  datatype AwalaScope = AwalaPda | AwalaCda

  /** The scope column of the certificate table. */
  datatype StoredScope = Pda | Cda

  /** Translates relaynet-core's scope into the value the table stores. */
  function ConvertScopeFromAwala(awalaScope: AwalaScope): (r: StoredScope)
    ensures r == Pda <==> awalaScope == AwalaPda
    ensures r == Cda <==> awalaScope != AwalaPda
  {
    if awalaScope == AwalaPda then Pda else Cda
  }

  /** Distinct scopes are stored as distinct values, so a query by one scope never sees the other. */
  lemma ConvertScopeFromAwalaInjective(a: AwalaScope, b: AwalaScope)
    ensures ConvertScopeFromAwala(a) == ConvertScopeFromAwala(b) <==> a == b
  {
  }

  /** One row of the certificate table; `id` is generated by the database. */
  datatype CertificateRow = CertificateRow(
    id: nat,
    subjectPrivateAddress: string,
    certificateSerialized: Bytes,
    expiryDate: Timestamp,
    scope: StoredScope)

  /** The conjunctive filter both reads apply: same subject, same scope, expiring at or after `now`. */
  predicate Selected(row: CertificateRow, subject: string, scope: StoredScope, now: Timestamp)
  {
    row.subjectPrivateAddress == subject && row.scope == scope && row.expiryDate >= now
  }

  /** The selected rows of `rows`, in table order. */
  function SelectRows(rows: seq<CertificateRow>, subject: string, scope: StoredScope, now: Timestamp)
    : (r: seq<CertificateRow>)
    ensures forall row :: multiset(r)[row] == if Selected(row, subject, scope, now) then multiset(rows)[row] else 0
    ensures forall row :: row in r <==> row in rows && Selected(row, subject, scope, now)
    ensures |r| <= |rows|
  {
    if rows == [] then []
    else
      var init, last := rows[..|rows| - 1], rows[|rows| - 1];
      assert rows == init + [last];
      SelectRows(init, subject, scope, now) + (if Selected(last, subject, scope, now) then [last] else [])
  }

  /** `row` has an expiry at least that of every selected row of `rows`. */
  ghost predicate IsLatest(row: CertificateRow, rows: seq<CertificateRow>, subject: string, scope: StoredScope, now: Timestamp)
  {
    forall other :: other in rows && Selected(other, subject, scope, now) ==> other.expiryDate <= row.expiryDate
  }

  /**
   * The selected row with the greatest expiry (the first such row in table
   * order on a tie), or None when no row is selected.
   */
  function LatestRow(rows: seq<CertificateRow>, subject: string, scope: StoredScope, now: Timestamp)
    : (r: Option<CertificateRow>)
    ensures r.None? <==> forall row :: row in rows ==> !Selected(row, subject, scope, now)
    ensures r.Some? ==> r.value in rows && Selected(r.value, subject, scope, now)
    ensures r.Some? ==> IsLatest(r.value, rows, subject, scope, now)
  {
    if rows == [] then None
    else
      var init, last := rows[..|rows| - 1], rows[|rows| - 1];
      assert rows == init + [last];
      var earlier := LatestRow(init, subject, scope, now);
      if !Selected(last, subject, scope, now) then earlier
      else if earlier.None? || earlier.value.expiryDate < last.expiryDate then Some(last)
      else earlier
  }

  /** The two reads agree: the latest row exists exactly when some row is selected, and is one of them. */
  lemma LatestRowAmongSelected(rows: seq<CertificateRow>, subject: string, scope: StoredScope, now: Timestamp)
    ensures LatestRow(rows, subject, scope, now).None? <==> SelectRows(rows, subject, scope, now) == []
    ensures LatestRow(rows, subject, scope, now).Some? ==>
              LatestRow(rows, subject, scope, now).value in SelectRows(rows, subject, scope, now)
  {
    var sel := SelectRows(rows, subject, scope, now);
    if sel != [] {
      assert sel[0] in sel;
    }
  }

  /** Appending a row extends the selection by that row exactly when the row is selected. */
  lemma SelectRowsAppend(rows: seq<CertificateRow>, row: CertificateRow, subject: string, scope: StoredScope, now: Timestamp)
    ensures SelectRows(rows + [row], subject, scope, now) ==
            SelectRows(rows, subject, scope, now) + (if Selected(row, subject, scope, now) then [row] else [])
  {
    assert (rows + [row])[..|rows|] == rows;
  }

  /** Saving an older certificate after a newer one does not change which row is the latest. */
  lemma {:induction false} LatestRowIgnoresOlderSave(rows: seq<CertificateRow>, row: CertificateRow, subject: string, scope: StoredScope, now: Timestamp)
    requires LatestRow(rows, subject, scope, now).Some?
    requires row.expiryDate <= LatestRow(rows, subject, scope, now).value.expiryDate
    ensures LatestRow(rows + [row], subject, scope, now) == LatestRow(rows, subject, scope, now)
  {
    assert (rows + [row])[..|rows|] == rows;
  }

  /** Saving a certificate that expires strictly after every selected one makes it the latest. */
  lemma {:induction false} LatestRowAfterNewerSave(rows: seq<CertificateRow>, row: CertificateRow, subject: string, scope: StoredScope, now: Timestamp)
    requires Selected(row, subject, scope, now)
    requires forall other :: other in rows && Selected(other, subject, scope, now) ==> other.expiryDate < row.expiryDate
    ensures LatestRow(rows + [row], subject, scope, now) == Some(row)
  {
    assert (rows + [row])[..|rows|] == rows;
  }

  /** A row of another subject or another scope is never seen by either read. */
  lemma {:induction false} UnselectedSaveInvisible(rows: seq<CertificateRow>, row: CertificateRow, subject: string, scope: StoredScope, now: Timestamp)
    requires row.subjectPrivateAddress != subject || row.scope != scope
    ensures SelectRows(rows + [row], subject, scope, now) == SelectRows(rows, subject, scope, now)
    ensures LatestRow(rows + [row], subject, scope, now) == LatestRow(rows, subject, scope, now)
  {
    assert (rows + [row])[..|rows|] == rows;
  }

  /** The rows an expiry sweep at `now` keeps: those expiring at or after `now`, in table order. */
  function Unexpired(rows: seq<CertificateRow>, now: Timestamp): (r: seq<CertificateRow>)
    ensures forall row :: multiset(r)[row] == if row.expiryDate >= now then multiset(rows)[row] else 0
    ensures forall row :: row in r ==> row.expiryDate >= now
  {
    if rows == [] then []
    else
      var init, last := rows[..|rows| - 1], rows[|rows| - 1];
      assert rows == init + [last];
      Unexpired(init, now) + (if last.expiryDate >= now then [last] else [])
  }

  /** A sweep at `now` removes nothing that a read at `now` would return. */
  lemma {:induction false} SweepPreservesSelection(rows: seq<CertificateRow>, subject: string, scope: StoredScope, now: Timestamp)
    ensures SelectRows(Unexpired(rows, now), subject, scope, now) == SelectRows(rows, subject, scope, now)
  {
    if rows != [] {
      var init, last := rows[..|rows| - 1], rows[|rows| - 1];
      assert rows == init + [last];
      var kept := Unexpired(init, now);
      SweepPreservesSelection(init, subject, scope, now);
      SelectRowsAppend(init, last, subject, scope, now);
      UnexpiredAppend(init, last, now);
      if last.expiryDate >= now {
        assert Unexpired(rows, now) == kept + [last];
        SelectRowsAppend(kept, last, subject, scope, now);
      } else {
        assert Unexpired(rows, now) == kept;
      }
    }
  }

  /** The latest row at `now` survives a sweep at `now`. */
  lemma {:induction false} SweepPreservesLatest(rows: seq<CertificateRow>, subject: string, scope: StoredScope, now: Timestamp)
    ensures LatestRow(Unexpired(rows, now), subject, scope, now) == LatestRow(rows, subject, scope, now)
  {
    if rows != [] {
      var init, last := rows[..|rows| - 1], rows[|rows| - 1];
      assert rows == init + [last];
      var kept := Unexpired(init, now);
      SweepPreservesLatest(init, subject, scope, now);
      LatestRowAppend(init, last, subject, scope, now);
      UnexpiredAppend(init, last, now);
      if last.expiryDate >= now {
        assert Unexpired(rows, now) == kept + [last];
        LatestRowAppend(kept, last, subject, scope, now);
      } else {
        assert Unexpired(rows, now) == kept;
      }
    }
  }

  /** How one appended row changes the latest row: it wins exactly when it is selected and expires strictly later. */
  lemma LatestRowAppend(rows: seq<CertificateRow>, row: CertificateRow, subject: string, scope: StoredScope, now: Timestamp)
    ensures LatestRow(rows + [row], subject, scope, now) ==
            var earlier := LatestRow(rows, subject, scope, now);
            if !Selected(row, subject, scope, now) then earlier
            else if earlier.None? || earlier.value.expiryDate < row.expiryDate then Some(row)
            else earlier
  {
    assert (rows + [row])[..|rows|] == rows;
  }

  /** A sweep of a table with one more row keeps that row exactly when it has not expired. */
  lemma UnexpiredAppend(rows: seq<CertificateRow>, row: CertificateRow, now: Timestamp)
    ensures Unexpired(rows + [row], now) == Unexpired(rows, now) + (if row.expiryDate >= now then [row] else [])
  {
    assert (rows + [row])[..|rows|] == rows;
  }

  /** The serialized certificate of each row, in order. */
  function Serializations(rows: seq<CertificateRow>): (r: seq<Bytes>)
    ensures |r| == |rows|
    ensures forall i :: 0 <= i < |rows| ==> r[i] == rows[i].certificateSerialized
  {
    if rows == [] then [] else [rows[0].certificateSerialized] + Serializations(rows[1..])
  }

  /** Row ids are generated in increasing order, each below the next id to hand out. */
  ghost predicate IdsIncreasing(rows: seq<CertificateRow>, nextId: nat)
  {
    (forall i, j :: 0 <= i < j < |rows| ==> rows[i].id < rows[j].id) &&
    (forall i :: 0 <= i < |rows| ==> rows[i].id < nextId)
  }

  /** With distinct ids every row occurs once, so a selection holds each selected row exactly once. */
  lemma {:induction false} SelectionHasNoDuplicates(rows: seq<CertificateRow>, nextId: nat, subject: string, scope: StoredScope, now: Timestamp)
    requires IdsIncreasing(rows, nextId)
    ensures forall row :: row in SelectRows(rows, subject, scope, now) ==> multiset(SelectRows(rows, subject, scope, now))[row] == 1
  {
    forall row | row in SelectRows(rows, subject, scope, now)
      ensures multiset(SelectRows(rows, subject, scope, now))[row] == 1
    {
      OccursOnce(rows, nextId, row);
    }
  }

  /** In a table with increasing ids, each of its rows occurs exactly once. */
  lemma {:induction false} OccursOnce(rows: seq<CertificateRow>, nextId: nat, row: CertificateRow)
    requires IdsIncreasing(rows, nextId)
    requires row in rows
    ensures multiset(rows)[row] == 1
  {
    var init, last := rows[..|rows| - 1], rows[|rows| - 1];
    assert rows == init + [last];
    assert IdsIncreasing(init, last.id);
    if row == last {
      assert row !in init;
    } else {
      OccursOnce(init, last.id, row);
    }
  }

  /** A sweep keeps the ids of the remaining rows increasing. */
  lemma {:induction false} UnexpiredKeepsIds(rows: seq<CertificateRow>, nextId: nat, now: Timestamp)
    requires IdsIncreasing(rows, nextId)
    ensures IdsIncreasing(Unexpired(rows, now), nextId)
  {
    if rows != [] {
      var init, last := rows[..|rows| - 1], rows[|rows| - 1];
      assert rows == init + [last];
      assert IdsIncreasing(init, last.id);
      UnexpiredKeepsIds(init, last.id, now);
      UnexpiredAppend(init, last, now);
      if last.expiryDate >= now {
        IdsIncreasingAppend(Unexpired(init, now), last, nextId);
      } else {
        IdsIncreasingRaise(Unexpired(init, now), last.id, nextId);
      }
    }
  }

  /** Appending a row whose id is above every earlier id keeps the ids increasing. */
  lemma IdsIncreasingAppend(rows: seq<CertificateRow>, row: CertificateRow, nextId: nat)
    requires IdsIncreasing(rows, row.id) && row.id < nextId
    ensures IdsIncreasing(rows + [row], nextId)
  {
  }

  /** Raising the bound on the next id keeps the ids increasing. */
  lemma IdsIncreasingRaise(rows: seq<CertificateRow>, bound: nat, nextId: nat)
    requires IdsIncreasing(rows, bound) && bound <= nextId
    ensures IdsIncreasing(rows, nextId)
  {
  }

  /** The certificate store over its table of rows. */
  class DBCertificateStore {
    var rows: seq<CertificateRow>
    var nextId: nat

    /**
     * Ids are generated in increasing order; SelectionHasNoDuplicates draws
     * from this that no read returns a row twice.
     */
    ghost predicate Valid()
      reads this
    {
      IdsIncreasing(rows, nextId)
    }

    constructor ()
      ensures Valid() && rows == []
    {
      rows := [];
      nextId := 1;
    }

    /** Appends one row; existing rows are kept, even those of the same subject. */
    method SaveData(subjectPrivateAddress: string, subjectCertificateSerialized: Bytes,
                    subjectCertificateExpiryDate: Timestamp, scope: AwalaScope)
      requires Valid()
      modifies this
      ensures Valid()
      ensures rows == old(rows) + [CertificateRow(old(nextId), subjectPrivateAddress, subjectCertificateSerialized,
                                                  subjectCertificateExpiryDate, ConvertScopeFromAwala(scope))]
      ensures nextId == old(nextId) + 1
    {
      var row := CertificateRow(nextId, subjectPrivateAddress, subjectCertificateSerialized,
                                subjectCertificateExpiryDate, ConvertScopeFromAwala(scope));
      rows := rows + [row];
      nextId := nextId + 1;
    }

    /** The serialization of the unexpired certificate of this subject and scope that expires last. */
    function RetrieveLatestSerialization(subjectPrivateAddress: string, scope: AwalaScope, now: Timestamp)
      : (r: Option<Bytes>)
      reads this
      ensures r.None? <==>
                forall row :: row in rows ==> !Selected(row, subjectPrivateAddress, ConvertScopeFromAwala(scope), now)
      ensures r.Some? ==>
                exists row :: row in rows && Selected(row, subjectPrivateAddress, ConvertScopeFromAwala(scope), now) &&
                  IsLatest(row, rows, subjectPrivateAddress, ConvertScopeFromAwala(scope), now) &&
                  row.certificateSerialized == r.value
    {
      match LatestRow(rows, subjectPrivateAddress, ConvertScopeFromAwala(scope), now)
      case None => None
      case Some(row) => Some(row.certificateSerialized)
    }

    /**
     * The serializations of every unexpired certificate of this subject and
     * scope, one per matching row: a serialization held by two matching rows
     * comes back twice. The order is left open.
     */
    function RetrieveAllSerializations(subjectPrivateAddress: string, scope: AwalaScope, now: Timestamp)
      : (r: seq<Bytes>)
      reads this
      ensures |r| == |SelectRows(rows, subjectPrivateAddress, ConvertScopeFromAwala(scope), now)|
      ensures forall c :: c in r <==>
                exists row :: row in rows && Selected(row, subjectPrivateAddress, ConvertScopeFromAwala(scope), now) &&
                  row.certificateSerialized == c
      ensures multiset(r) == multiset(Serializations(SelectRows(rows, subjectPrivateAddress, ConvertScopeFromAwala(scope), now)))
    {
      Serializations(SelectRows(rows, subjectPrivateAddress, ConvertScopeFromAwala(scope), now))
    }

    /**
     * As written the sweep does nothing: every row, expired or not, stays.
     * DBCertificateStore.spec.ts expects expired rows removed; see SweepExpired.
     */
    method DeleteExpired()
      requires Valid()
      modifies this
      ensures Valid()
      ensures rows == old(rows) && nextId == old(nextId)
    {
    }

    /** The sweep the tests expect: drops every row that expired before `now` and keeps all others. */
    method SweepExpired(now: Timestamp)
      requires Valid()
      modifies this
      ensures Valid()
      ensures rows == Unexpired(old(rows), now)
      ensures nextId == old(nextId)
    {
      UnexpiredKeepsIds(rows, nextId, now);
      rows := Unexpired(rows, now);
    }
  }

  /** After the code's deleteExpired, a certificate that expired before `now` is still in the table. */
  method ExpiredRowOutlivesDeleteExpired(subject: string, serialized: Bytes, now: Timestamp)
    returns (store: DBCertificateStore)
    ensures exists row :: row in store.rows && row.expiryDate < now
  {
    store := new DBCertificateStore();
    store.SaveData(subject, serialized, now - 1000, AwalaPda);
    store.DeleteExpired();
    assert store.rows[0].expiryDate < now;
  }

  /** The corrected sweep applied to the same table leaves no expired row behind. */
  method ExpiredRowRemovedBySweepExpired(subject: string, serialized: Bytes, now: Timestamp)
    returns (store: DBCertificateStore)
    ensures store.rows == []
  {
    store := new DBCertificateStore();
    store.SaveData(subject, serialized, now - 1000, AwalaPda);
    store.SweepExpired(now);
    assert multiset(store.rows) == multiset{};
  }

  /** The two reads of the store agree: no latest certificate exactly when there is none at all, else one of them. */
  lemma RetrieveLatestAmongAll(store: DBCertificateStore, subject: string, scope: AwalaScope, now: Timestamp)
    ensures store.RetrieveLatestSerialization(subject, scope, now).None? <==>
            store.RetrieveAllSerializations(subject, scope, now) == []
    ensures store.RetrieveLatestSerialization(subject, scope, now).Some? ==>
            store.RetrieveLatestSerialization(subject, scope, now).value in store.RetrieveAllSerializations(subject, scope, now)
  {
  }

  /**
   * Two certificates of one subject, the second expiring 3 seconds after the
   * first (10 and 13 seconds after `now`): both are read back, and the later
   * one is the latest.
   */
  method TwoCertificatesScenario(subject: string, early: Bytes, late: Bytes, now: Timestamp)
    returns (store: DBCertificateStore, latest: Option<Bytes>, all: seq<Bytes>)
    ensures latest == Some(late)
    ensures |all| == 2 && early in all && late in all
  {
    store := new DBCertificateStore();
    store.SaveData(subject, early, now + 10000, AwalaPda);
    store.SaveData(subject, late, now + 13000, AwalaPda);
    TwoRows(store.rows, subject, Pda, now, now + 12000);
    assert store.rows[0] in store.rows && store.rows[1] in store.rows;
    latest := store.RetrieveLatestSerialization(subject, AwalaPda, now);
    all := store.RetrieveAllSerializations(subject, AwalaPda, now);
  }

  /** The same two certificates after a sweep 12 seconds after `now`: only the later one is left. */
  method TwoCertificatesSweepScenario(subject: string, early: Bytes, late: Bytes, now: Timestamp)
    returns (store: DBCertificateStore, all: seq<Bytes>)
    ensures all == [late]
  {
    store := new DBCertificateStore();
    store.SaveData(subject, early, now + 10000, AwalaPda);
    store.SaveData(subject, late, now + 13000, AwalaPda);
    ghost var saved := store.rows;
    TwoRows(saved, subject, Pda, now, now + 12000);
    store.SweepExpired(now + 12000);
    assert store.rows == [saved[1]];
    assert store.rows[0] in store.rows;
    all := store.RetrieveAllSerializations(subject, AwalaPda, now + 12000);
    assert all[0] in all;
  }

  /** The reads and the sweep on a table of two selected rows, the second expiring later. */
  lemma TwoRows(rows: seq<CertificateRow>, subject: string, scope: StoredScope, now: Timestamp, later: Timestamp)
    requires |rows| == 2 && Selected(rows[0], subject, scope, now) && Selected(rows[1], subject, scope, now)
    requires rows[0].expiryDate < later <= rows[1].expiryDate
    ensures SelectRows(rows, subject, scope, now) == rows
    ensures LatestRow(rows, subject, scope, now) == Some(rows[1])
    ensures Unexpired(rows, later) == [rows[1]]
    ensures SelectRows([rows[1]], subject, scope, later) == [rows[1]]
  {
    var r1, r2 := rows[0], rows[1];
    assert [r1] == [] + [r1] && [r2] == [] + [r2];
    assert rows == [r1] + [r2];
    SelectTwo(r1, r2, subject, scope, now);
    LatestRowAfterNewerSave([r1], r2, subject, scope, now);
    SweepTwo(r1, r2, later);
    SelectRowsAppend([], r2, subject, scope, later);
  }

  /** Two selected rows are both selected, in table order. */
  lemma SelectTwo(r1: CertificateRow, r2: CertificateRow, subject: string, scope: StoredScope, now: Timestamp)
    requires Selected(r1, subject, scope, now) && Selected(r2, subject, scope, now)
    ensures SelectRows([r1] + [r2], subject, scope, now) == [r1] + [r2]
  {
    assert [r1] == [] + [r1];
    SelectRowsAppend([], r1, subject, scope, now);
    SelectRowsAppend([r1], r2, subject, scope, now);
  }

  /** A sweep between two rows' expiries keeps only the later one. */
  lemma SweepTwo(r1: CertificateRow, r2: CertificateRow, later: Timestamp)
    requires r1.expiryDate < later <= r2.expiryDate
    ensures Unexpired([r1] + [r2], later) == [r2]
  {
    assert [r1] == [] + [r1];
    UnexpiredAppend([], r1, later);
    UnexpiredAppend([r1], r2, later);
  }
}
