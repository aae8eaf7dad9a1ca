/** The EmailAddress table and its find-or-create upsert keyed by (account, address). */
module AddressBook {
  import opened Wrappers

  /** An optional text field of the provider's JSON: left out (`undefined`), or given as
      null or a text. */
  datatype Field = Omitted | Given(value: Option<string>)

  /** An address as the provider sends it. */
  datatype EmailAddress = EmailAddress(name: Field, address: string, raw: Field)

  /** The column after a write of `f`: the database leaves a column alone when the value
      written is `undefined`. */
  function Written(stored: Option<string>, f: Field): Option<string> {
    if f.Omitted? then stored else f.value
  }

  /** A stored address row; `id` is the row's own identity, referenced by emails and threads. */
  datatype AddressRow = AddressRow(id: nat, accountId: string, address: string, name: Option<string>, raw: Option<string>)

  /** The table, keyed by its unique (accountId, address) pair; `nextId` is the identity the
      next created row receives (the database's id generator). */
  datatype AddressTable = AddressTable(rows: map<(string, string), AddressRow>, nextId: nat)

  /** Each row sits under its own (accountId, address) key, has an id already handed out,
      and no two rows share an id. */
  predicate Wf(t: AddressTable) {
    && (forall k :: k in t.rows ==> t.rows[k].accountId == k.0 && t.rows[k].address == k.1)
    && (forall k :: k in t.rows ==> t.rows[k].id < t.nextId)
    && (forall k1, k2 :: k1 in t.rows && k2 in t.rows && k1 != k2 ==> t.rows[k1].id != t.rows[k2].id)
  }

  /** Upsert of one address for `accountId`. A write that fails (its address is in
      `faults`) yields None and changes nothing. Otherwise an existing row for the pair keeps
      its id and only has name and raw overwritten, each only when the field was sent; a
      missing pair gets a fresh row, with null for a field not sent. */
  function UpsertEmailAddress(t: AddressTable, accountId: string, a: EmailAddress, faults: set<string>)
    : (res: (Option<AddressRow>, AddressTable))
    ensures a.address in faults ==> res == (None, t)
    ensures a.address !in faults ==>
      var key := (accountId, a.address);
      && res.0.Some?
      && res.1.rows == t.rows[key := res.0.value]
      && res.0.value.accountId == accountId && res.0.value.address == a.address
      && (a.name.Given? ==> res.0.value.name == a.name.value)
      && (a.raw.Given? ==> res.0.value.raw == a.raw.value)
      && (a.name.Omitted? ==> res.0.value.name == if key in t.rows then t.rows[key].name else None)
      && (a.raw.Omitted? ==> res.0.value.raw == if key in t.rows then t.rows[key].raw else None)
      && (key in t.rows ==> res.0.value.id == t.rows[key].id && res.1.nextId == t.nextId)
      && (key !in t.rows ==> res.0.value.id == t.nextId && res.1.nextId == t.nextId + 1)
    ensures Wf(t) ==> Wf(res.1)
  {
    var key := (accountId, a.address);
    if a.address in faults then (None, t)
    else if key in t.rows then
      var prev := t.rows[key];
      var row := AddressRow(prev.id, accountId, a.address, Written(prev.name, a.name), Written(prev.raw, a.raw));
      (Some(row), t.(rows := t.rows[key := row]))
    else
      var row := AddressRow(t.nextId, accountId, a.address, Written(None, a.name), Written(None, a.raw));
      (Some(row), AddressTable(t.rows[key := row], t.nextId + 1))
  }

  /** Some entry of `addrs` has address `x`. */
  predicate Mentions(addrs: seq<EmailAddress>, x: string) {
    exists j :: 0 <= j < |addrs| && addrs[j].address == x
  }

  /** Upserts every address of `addrs` in order and collects the rows of the writes that
      succeeded, in order. */
  function UpsertAll(t: AddressTable, accountId: string, addrs: seq<EmailAddress>, faults: set<string>)
    : (res: (seq<AddressRow>, AddressTable))
    ensures Wf(t) ==> Wf(res.1)
    ensures res.1.nextId >= t.nextId
  {
    if |addrs| == 0 then ([], t)
    else
      var (rows, t0) := UpsertAll(t, accountId, addrs[..|addrs| - 1], faults);
      var (row, t1) := UpsertEmailAddress(t0, accountId, addrs[|addrs| - 1], faults);
      (if row.Some? then rows + [row.value] else rows, t1)
  }

  /** Upserting a batch never drops a row or changes an existing row's id, and only adds
      rows for addresses of the batch. */
  lemma {:induction false} UpsertAllKeepsRows(t: AddressTable, accountId: string, addrs: seq<EmailAddress>, faults: set<string>)
    ensures var t' := UpsertAll(t, accountId, addrs, faults).1;
      && (forall k :: k in t.rows ==> k in t'.rows && t'.rows[k].id == t.rows[k].id)
      && (forall k :: k in t'.rows ==> k in t.rows || (k.0 == accountId && Mentions(addrs, k.1)))
      && (forall i :: 0 <= i < |addrs| && addrs[i].address !in faults ==> (accountId, addrs[i].address) in t'.rows)
  {
    if |addrs| > 0 {
      var prefix := addrs[..|addrs| - 1];
      UpsertAllKeepsRows(t, accountId, prefix, faults);
      forall x | Mentions(prefix, x) ensures Mentions(addrs, x) {
        var j :| 0 <= j < |prefix| && prefix[j].address == x;
        assert addrs[j] == prefix[j];
      }
      assert Mentions(addrs, addrs[|addrs| - 1].address);
      assert forall i :: 0 <= i < |prefix| ==> addrs[i] == prefix[i];
    }
  }

  /** Every row the batch returns is the stored row of a successfully written address of
      the batch (same id as the final table holds), and every successfully written address
      has a returned row. */
  lemma {:induction false} UpsertAllRows(t: AddressTable, accountId: string, addrs: seq<EmailAddress>, faults: set<string>)
    ensures var res := UpsertAll(t, accountId, addrs, faults);
      var rows := res.0;
      var t' := res.1;
      && (forall i :: 0 <= i < |rows| ==>
        && rows[i].accountId == accountId
        && rows[i].address !in faults
        && Mentions(addrs, rows[i].address)
        && (accountId, rows[i].address) in t'.rows
        && rows[i].id == t'.rows[(accountId, rows[i].address)].id)
      && (forall i :: 0 <= i < |addrs| && addrs[i].address !in faults ==>
        exists j :: 0 <= j < |rows| && rows[j].address == addrs[i].address)
  {
    if |addrs| > 0 {
      var prefix := addrs[..|addrs| - 1];
      UpsertAllRows(t, accountId, prefix, faults);
      var r := UpsertAll(t, accountId, prefix, faults);
      assert r == UpsertAll(t, accountId, prefix, faults);
      UpsertAllRowsStep(r.0, r.1, accountId, prefix, addrs, faults);
    }
  }

  /** The step of `UpsertAllRows`: upserting the last address keeps the returned rows
      faithful to the table. */
  lemma UpsertAllRowsStep(rows: seq<AddressRow>, t0: AddressTable, accountId: string, prefix: seq<EmailAddress>, addrs: seq<EmailAddress>, faults: set<string>)
    requires |addrs| > 0 && prefix == addrs[..|addrs| - 1]
    requires forall i :: 0 <= i < |rows| ==>
        && rows[i].accountId == accountId
        && rows[i].address !in faults
        && Mentions(prefix, rows[i].address)
        && (accountId, rows[i].address) in t0.rows
        && rows[i].id == t0.rows[(accountId, rows[i].address)].id
    requires forall i :: 0 <= i < |prefix| && prefix[i].address !in faults ==>
        exists j :: 0 <= j < |rows| && rows[j].address == prefix[i].address
    ensures var (row, t1) := UpsertEmailAddress(t0, accountId, addrs[|addrs| - 1], faults);
      var rows' := if row.Some? then rows + [row.value] else rows;
      && (forall i :: 0 <= i < |rows'| ==>
        && rows'[i].accountId == accountId
        && rows'[i].address !in faults
        && Mentions(addrs, rows'[i].address)
        && (accountId, rows'[i].address) in t1.rows
        && rows'[i].id == t1.rows[(accountId, rows'[i].address)].id)
      && (forall i :: 0 <= i < |addrs| && addrs[i].address !in faults ==>
        exists j :: 0 <= j < |rows'| && rows'[j].address == addrs[i].address)
  {
    var last := addrs[|addrs| - 1];
    var (row, t1) := UpsertEmailAddress(t0, accountId, last, faults);
    var rows' := if row.Some? then rows + [row.value] else rows;
    forall x | Mentions(prefix, x) ensures Mentions(addrs, x) {
      var j :| 0 <= j < |prefix| && prefix[j].address == x;
      assert addrs[j] == prefix[j];
    }
    assert Mentions(addrs, last.address);
    forall i | 0 <= i < |addrs| && addrs[i].address !in faults
      ensures exists j :: 0 <= j < |rows'| && rows'[j].address == addrs[i].address
    {
      if i == |addrs| - 1 {
        assert rows'[|rows'| - 1].address == addrs[i].address;
      } else {
        assert prefix[i] == addrs[i];
        var j :| 0 <= j < |rows| && rows[j].address == addrs[i].address;
        assert rows'[j] == rows[j];
      }
    }
  }

  /** `new Map(rows.map(r => [r.address, r]))`: the rows by address, a later row
      replacing an earlier one with the same address. */
  function AddressMap(rows: seq<AddressRow>): (m: map<string, AddressRow>)
    ensures forall x :: x in m <==> exists i :: 0 <= i < |rows| && rows[i].address == x
    ensures forall x :: x in m ==> exists i :: 0 <= i < |rows| && rows[i] == m[x] && m[x].address == x
  {
    if |rows| == 0 then map[]
    else
      var m0 := AddressMap(rows[..|rows| - 1]);
      var r := rows[|rows| - 1];
      assert forall i :: 0 <= i < |rows| - 1 ==> rows[..|rows| - 1][i] == rows[i];
      m0[r.address := r]
  }
}
