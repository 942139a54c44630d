/**
 The alert lifecycle: an in-memory index beside the alerts table, kept by
 ingest, expiry and recovery.
 */
module Alerts {
  import opened Wrappers

  datatype State = Active | Superseded | Cancelled | Expired

  datatype Alert = Alert(identifier: string, sent: string, msgType: string, references: seq<string>, body: string)

  datatype Record = Record(alert: Alert, state: State)

  type Index = map<string, Record>

  datatype ServiceError = NotPrepared | NotPersisted

  // Lifecycle rules

  function StateOf(a: Alert): State {
    if a.msgType == "Cancel" then Cancelled else Active
  }

  function ReferenceState(a: Alert): State {
    if a.msgType == "Cancel" then Cancelled else Superseded
  }

  /** One referenced alert leaves the active state. */
  function Mark(m: Index, id: string, state: State): Index {
    if id in m && m[id].state == Active then m[id := m[id].(state := state)] else m
  }

  function MarkAll(m: Index, ids: seq<string>, state: State): Index
    decreases |ids|
  {
    if ids == [] then m else Mark(MarkAll(m, ids[..|ids| - 1], state), ids[|ids| - 1], state)
  }

  /** Marking touches exactly the referenced alerts that were active. */
  lemma {:induction false} MarkAllAt(m: Index, ids: seq<string>, state: State, id: string)
    requires state != Active
    ensures MarkAll(m, ids, state).Keys == m.Keys
    ensures id in m ==>
      MarkAll(m, ids, state)[id] == if id in ids && m[id].state == Active then m[id].(state := state) else m[id]
    decreases |ids|
  {
    if ids == [] {
    } else {
      var init, last := ids[..|ids| - 1], ids[|ids| - 1];
      assert ids == init + [last];
      MarkAllAt(m, init, state, id);
      MarkAllAt(m, init, state, last);
    }
  }

  predicate Repeats(m: Index, a: Alert) {
    a.identifier in m && m[a.identifier].alert.sent == a.sent && m[a.identifier].alert.msgType == a.msgType
  }

  /** The table row first, then the references. */
  function Upserted(t: Index, a: Alert): Index {
    MarkAll(t[a.identifier := Record(a, StateOf(a))], a.references, ReferenceState(a))
  }

  /** In memory the references come first, then the alert. */
  function Remembered(m: Index, a: Alert): Index {
    MarkAll(m, a.references, ReferenceState(a))[a.identifier := Record(a, StateOf(a))]
  }

  /** Rows whose expiry has passed: `due` says which identifiers' expiry has. */
  function Lapsed(t: Index, due: set<string>): set<string> {
    set id | id in t && t[id].state in {Active, Expired} && id in due
  }

  predicate Keyed(t: Index) {
    forall id | id in t :: t[id].alert.identifier == id
  }

  // The store

  class Store {
    var table: Index

    constructor ()
      ensures table == map[]
    {
      table := map[];
    }

    /** `works` is whether the database lets the transaction through. */
    method Upsert(r: Record, references: seq<string>, works: bool) returns (ok: bool)
      requires r.state == StateOf(r.alert) && references == r.alert.references
      modifies this
      ensures ok == works
      ensures table == if ok then Upserted(old(table), r.alert) else old(table)
    {
      if !works {
        return false;
      }
      ghost var inserted := table[r.alert.identifier := r];
      table := table[r.alert.identifier := r];
      var referenceState := Superseded;
      if r.alert.msgType == "Cancel" {
        referenceState := Cancelled;
      }
      for i := 0 to |references|
        invariant table == MarkAll(inserted, references[..i], referenceState)
      {
        var id := references[i];
        assert references[..i + 1][..i] == references[..i];
        if id in table && table[id].state == Active {
          table := table[id := table[id].(state := referenceState)];
        }
      }
      assert references[..|references|] == references;
      return true;
    }

    method Expire(due: set<string>, works: bool) returns (ids: Option<set<string>>)
      modifies this
      ensures ids == if works then Some(Lapsed(old(table), due)) else None
      ensures table == if works then old(table) - Lapsed(old(table), due) else old(table)
      ensures works ==> forall id :: id in ids.value <==> Swept(old(table), due, id)
    {
      if !works {
        return None;
      }
      var lapsed := Lapsed(table, due);
      ids := Some(lapsed);
      var rest := lapsed;
      while rest != {}
        invariant rest <= lapsed
        invariant table == old(table) - (lapsed - rest)
        decreases |rest|
      {
        var id :| id in rest;
        rest := rest - {id};
        assert lapsed - rest == (lapsed - rest - {id}) + {id};
        table := table - {id};
      }
    }

    method LoadAlerts(works: bool) returns (rows: Option<seq<Record>>)
      ensures rows.Some? <==> works
      ensures rows.Some? ==>
        && (forall id | id in table :: table[id] in rows.value)
        && (forall r | r in rows.value :: exists id :: id in table && table[id] == r)
    {
      if !works {
        return None;
      }
      var loaded: seq<Record> := [];
      var rest := table.Keys;
      while rest != {}
        invariant rest <= table.Keys
        invariant forall id | id in table && id !in rest :: table[id] in loaded
        invariant forall r | r in loaded :: exists id :: id in table && table[id] == r
        decreases |rest|
      {
        var id :| id in rest;
        loaded := loaded + [table[id]];
        rest := rest - {id};
      }
      return Some(loaded);
    }
  }

  // Operations on the pair of maps

  datatype Maps = Maps(memory: Index, table: Index)

  /** One complete operation, with what its collaborators answer. */
  datatype Op =
    | Ingest(alert: Alert, publishes: bool, persists: bool)
    | Expire(due: set<string>, works: bool)
    | Recover(due: set<string>, expires: bool, loads: bool)

  function Perform(s: Maps, op: Op): Maps {
    match op
    case Ingest(a, publishes, persists) =>
      if Repeats(s.memory, a) || !publishes || !persists then s
      else Maps(Remembered(s.memory, a), Upserted(s.table, a))
    case Expire(due, works) =>
      if works then Maps(s.memory - Lapsed(s.table, due), s.table - Lapsed(s.table, due)) else s
    case Recover(due, expires, loads) =>
      if !expires then s
      else
        var t := s.table - Lapsed(s.table, due);
        if loads then Maps(s.memory + t, t) else Maps(s.memory, t)
  }

  class Service {
    var alerts: Index
    const store: Store

    constructor (store: Store)
      ensures alerts == map[] && this.store == store
    {
      alerts := map[];
      this.store := store;
    }

    ghost function Current(): Maps
      reads this, store
    {
      Maps(alerts, store.table)
    }

    method Recover(due: set<string>, expires: bool, loads: bool) returns (ok: bool)
      requires Keyed(store.table)
      modifies this, store
      ensures Current() == Perform(old(Current()), Op.Recover(due, expires, loads))
      ensures ok == (expires && loads)
    {
      var expired := store.Expire(due, expires);
      if expired.None? {
        return false;
      }
      var records := store.LoadAlerts(loads);
      if records.None? {
        return false;
      }
      var rows := records.value;
      for i := 0 to |rows|
        invariant store.table == old(store.table) - Lapsed(old(store.table), due)
        invariant alerts == Filled(old(alerts), rows[..i])
      {
        assert rows[..i + 1][..i] == rows[..i];
        alerts := alerts[rows[i].alert.identifier := rows[i]];
      }
      assert rows[..|rows|] == rows;
      FilledFrom(old(alerts), store.table, rows);
      return true;
    }

    method Ingest(a: Alert, publishes: bool, persists: bool) returns (r: Result<(), ServiceError>)
      modifies this, store
      ensures Current() == Perform(old(Current()), Op.Ingest(a, publishes, persists))
      ensures r.Success? <==> Repeats(old(alerts), a) || (publishes && persists)
      ensures Repeats(old(alerts), a) || !publishes || !persists ==>
        alerts == old(alerts) && store.table == old(store.table)
    {
      hide Repeats;
      if Repeats(alerts, a) {
        return Success(());
      }
      if !publishes {
        return Failure(NotPrepared);
      }
      if Repeats(alerts, a) {
        return Success(());
      }
      var state := Active;
      if a.msgType == "Cancel" {
        state := Cancelled;
      }
      var record := Record(a, state);
      var stored := store.Upsert(record, a.references, persists);
      if !stored {
        return Failure(NotPersisted);
      }
      var referenceState := Superseded;
      if a.msgType == "Cancel" {
        referenceState := Cancelled;
      }
      for i := 0 to |a.references|
        invariant alerts == MarkAll(old(alerts), a.references[..i], referenceState)
        invariant store.table == Upserted(old(store.table), a)
      {
        var id := a.references[i];
        assert a.references[..i + 1][..i] == a.references[..i];
        if id in alerts && alerts[id].state == Active {
          alerts := alerts[id := alerts[id].(state := referenceState)];
        }
      }
      assert a.references[..|a.references|] == a.references;
      alerts := alerts[a.identifier := record];
      return Success(());
    }

    method Expire(due: set<string>, works: bool) returns (ok: bool)
      modifies this, store
      ensures Current() == Perform(old(Current()), Op.Expire(due, works))
      ensures ok == works
    {
      var ids := store.Expire(due, works);
      if ids.None? {
        return false;
      }
      var rest := ids.value;
      while rest != {}
        invariant rest <= ids.value
        invariant alerts == old(alerts) - (ids.value - rest)
        invariant store.table == old(store.table) - ids.value
        decreases |rest|
      {
        var id :| id in rest;
        rest := rest - {id};
        assert ids.value - rest == (ids.value - rest - {id}) + {id};
        alerts := alerts - {id};
      }
      return true;
    }
  }

  function Filled(m: Index, rows: seq<Record>): Index
    decreases |rows|
  {
    if rows == [] then m
    else Filled(m, rows[..|rows| - 1])[rows[|rows| - 1].alert.identifier := rows[|rows| - 1]]
  }

  predicate Holds(rows: seq<Record>, id: string) {
    exists r :: r in rows && r.alert.identifier == id
  }

  lemma {:induction false} FilledAt(m: Index, t: Index, rows: seq<Record>, id: string)
    requires forall r | r in rows :: r.alert.identifier in t && t[r.alert.identifier] == r
    ensures id in Filled(m, rows) <==> id in m || Holds(rows, id)
    ensures Holds(rows, id) ==> id in t && Filled(m, rows)[id] == t[id]
    ensures id in m && !Holds(rows, id) ==> Filled(m, rows)[id] == m[id]
    decreases |rows|
  {
    if rows == [] {
    } else {
      var init, last := rows[..|rows| - 1], rows[|rows| - 1];
      assert rows == init + [last];
      assert Holds(rows, id) <==> Holds(init, id) || last.alert.identifier == id;
      FilledAt(m, t, init, id);
    }
  }

  lemma FilledFrom(before: Index, t: Index, rows: seq<Record>)
    requires Keyed(t)
    requires forall id | id in t :: t[id] in rows
    requires forall r | r in rows :: exists id :: id in t && t[id] == r
    ensures Filled(before, rows) == before + t
  {
    hide Filled;
    var after := Filled(before, rows);
    forall id: string
      ensures id in after <==> id in before + t
      ensures id in after ==> after[id] == (before + t)[id]
    {
      FilledAt(before, t, rows, id);
      if id in t {
        assert t[id] in rows && t[id].alert.identifier == id;
      }
    }
  }

  /** Every operation keeps each row under its alert's own identifier, which recovery relies on. */
  lemma PerformKeepsKeyed(s: Maps, op: Op)
    requires Keyed(s.table)
    ensures Keyed(Perform(s, op).table)
  {
    hide MarkAll, Repeats;
    if op.Ingest? {
      var a := op.alert;
      var inserted := s.table[a.identifier := Record(a, StateOf(a))];
      forall id | id in Upserted(s.table, a)
        ensures Upserted(s.table, a)[id].alert.identifier == id
      {
        MarkAllAt(inserted, a.references, ReferenceState(a), id);
      }
    }
  }

  // Agreement

  predicate Agree(s: Maps) {
    s.memory == s.table
  }

  /** An alert that lists itself among its references, and does not cancel. */
  predicate RefersToItself(a: Alert) {
    a.identifier in a.references && a.msgType != "Cancel"
  }

  /** The record is on file unchanged or, if it was active and the alert references it, retired by the alert. */
  predicate RetiredBy(a: Alert, before: Index, after: Index, id: string) {
    id in before ==>
      id in after
      && after[id] ==
           if id in a.references && before[id].state == Active
           then before[id].(state := if a.msgType == "Cancel" then Cancelled else Superseded)
           else before[id]
  }

  /** What Ingest does to both maps, or why it does nothing. */
  lemma IngestExactly(s: Maps, a: Alert, publishes: bool, persists: bool, id: string)
    ensures
      var t := Perform(s, Op.Ingest(a, publishes, persists));
      var repeat := a.identifier in s.memory && s.memory[a.identifier].alert.sent == a.sent
        && s.memory[a.identifier].alert.msgType == a.msgType;
      if repeat || !publishes || !persists then t == s
      else
        && t.memory.Keys == s.memory.Keys + {a.identifier} && t.table.Keys == s.table.Keys + {a.identifier}
        && t.memory[a.identifier] == Record(a, if a.msgType == "Cancel" then Cancelled else Active)
        && t.table[a.identifier] == Record(a,
             if a.msgType == "Cancel" then Cancelled
             else if a.identifier in a.references then Superseded else Active)
        && (id != a.identifier ==> RetiredBy(a, s.memory, t.memory, id) && RetiredBy(a, s.table, t.table, id))
  {
    hide Remembered, Upserted, MarkAll;
    RememberedAt(s.memory, a, id);
    UpsertedAt(s.table, a, id);
  }

  /** The row is one whose expiry sweeps it: still active, or marked expired, and due. */
  predicate Swept(t: Index, due: set<string>, id: string) {
    id in t && (t[id].state == Active || t[id].state == Expired) && id in due
  }

  /** What Expire does: a row is gone from both maps exactly if it is swept, and no other record changes. */
  lemma ExpireExactly(s: Maps, due: set<string>, works: bool, id: string)
    ensures
      var t := Perform(s, Op.Expire(due, works));
      var gone := works && Swept(s.table, due, id);
      && (id in t.table <==> id in s.table && !gone) && (id in t.memory <==> id in s.memory && !gone)
      && (id in t.table ==> t.table[id] == s.table[id]) && (id in t.memory ==> t.memory[id] == s.memory[id])
  {
  }

  /** What Recover does: the sweep on the table, then each remaining row overrides the index, which loses nothing. */
  lemma RecoverExactly(s: Maps, due: set<string>, expires: bool, loads: bool, id: string)
    ensures
      var t := Perform(s, Op.Recover(due, expires, loads));
      var gone := expires && Swept(s.table, due, id);
      var filled := expires && loads && id in t.table;
      && (id in t.table <==> id in s.table && !gone) && (id in t.table ==> t.table[id] == s.table[id])
      && (id in t.memory <==> id in s.memory || filled)
      && (id in t.memory ==> t.memory[id] == if filled then t.table[id] else s.memory[id])
  {
  }

  /** After an ingest the two maps agree exactly when the alert does not supersede itself. */
  lemma IngestAgrees(m: Index, a: Alert)
    ensures Remembered(m, a) == Upserted(m, a) <==> !RefersToItself(a)
  {
    hide MarkAll;
    var memory, table := Remembered(m, a), Upserted(m, a);
    var inserted := m[a.identifier := Record(a, StateOf(a))];
    MarkAllAt(m, a.references, ReferenceState(a), a.identifier);
    MarkAllAt(inserted, a.references, ReferenceState(a), a.identifier);
    if !RefersToItself(a) {
      forall id | id in memory
        ensures memory[id] == table[id]
      {
        MarkAllAt(m, a.references, ReferenceState(a), id);
        MarkAllAt(inserted, a.references, ReferenceState(a), id);
      }
      assert memory.Keys == table.Keys;
    } else {
      assert memory[a.identifier].state == Active && table[a.identifier].state == Superseded;
    }
  }

  /** Exactly when one operation keeps the index and the table the same. */
  predicate KeepsAgreement(s: Maps, op: Op) {
    match op
    case Ingest(a, publishes, persists) => Repeats(s.memory, a) || !publishes || !persists || !RefersToItself(a)
    case Expire(due, works) => true
    case Recover(due, expires, loads) => !expires || Lapsed(s.table, due) == {}
  }

  lemma PerformAgrees(s: Maps, op: Op)
    requires Agree(s)
    ensures Agree(Perform(s, op)) <==> KeepsAgreement(s, op)
  {
    hide Repeats, Remembered, Upserted, RefersToItself;
    match op
    case Ingest(a, publishes, persists) =>
      IngestAgrees(s.memory, a);
    case Expire(due, works) =>
    case Recover(due, expires, loads) =>
      var lapsed := Lapsed(s.table, due);
      if lapsed != {} {
        var id :| id in lapsed;
        assert id in s.memory && id !in s.table - lapsed;
      } else {
        assert s.table - lapsed == s.table;
      }
  }

  /** Start-up: recovery into an empty index makes the two agree, whatever the table held. */
  lemma RecoverAgrees(table: Index, due: set<string>)
    ensures Agree(Perform(Maps(map[], table), Op.Recover(due, true, true)))
  {
    var t := table - Lapsed(table, due);
    assert map[] + t == t;
  }

  /** Complete operations, one after the other. */
  function PerformAll(s: Maps, ops: seq<Op>): Maps
    decreases |ops|
  {
    if ops == [] then s else Perform(PerformAll(s, ops[..|ops| - 1]), ops[|ops| - 1])
  }

  /** Every operation of a run keeps the agreement where it happens. */
  ghost predicate KeepsAlong(s: Maps, ops: seq<Op>) {
    forall i | 0 <= i < |ops| :: KeepsAgreement(PerformAll(s, ops[..i]), ops[i])
  }

  /**
   Over any run of complete recoveries, ingests and expiries the index stays
   equal to the table, as long as no ingested alert supersedes itself and no
   later recovery finds something to expire.
   */
  lemma {:induction false} RunAgrees(s: Maps, ops: seq<Op>)
    requires Agree(s) && KeepsAlong(s, ops)
    ensures Agree(PerformAll(s, ops))
    decreases |ops|
  {
    hide Perform, KeepsAgreement, Agree;
    if ops != [] {
      var n := |ops| - 1;
      forall i | 0 <= i < n
        ensures KeepsAgreement(PerformAll(s, ops[..n][..i]), ops[..n][i])
      {
        assert ops[..n][..i] == ops[..i];
      }
      RunAgrees(s, ops[..n]);
      PerformAgrees(PerformAll(s, ops[..n]), ops[n]);
    }
  }

  /** From start-up on: recovery into an empty index, then such a run. */
  lemma StartUpRunAgrees(table: Index, due: set<string>, ops: seq<Op>)
    requires KeepsAlong(Perform(Maps(map[], table), Op.Recover(due, true, true)), ops)
    ensures Agree(PerformAll(Perform(Maps(map[], table), Op.Recover(due, true, true)), ops))
  {
    hide Perform, KeepsAgreement, Agree;
    RecoverAgrees(table, due);
    RunAgrees(Perform(Maps(map[], table), Op.Recover(due, true, true)), ops);
  }

  predicate Plain(op: Op) {
    match op
    case Ingest(a, _, _) => !RefersToItself(a)
    case Expire(_, _) => true
    case Recover(_, _, _) => false
  }

  /** Ingests of alerts that do not refer to themselves, and expiries, are such runs whatever happens in them. */
  lemma IngestsAndExpiriesKeep(s: Maps, ops: seq<Op>)
    requires forall op | op in ops :: Plain(op)
    ensures KeepsAlong(s, ops)
  {
    hide RefersToItself, Repeats, PerformAll;
    forall i | 0 <= i < |ops|
      ensures KeepsAgreement(PerformAll(s, ops[..i]), ops[i])
    {
      assert ops[i] in ops;
    }
  }

  /** Ingesting the same alert twice is ingesting it once. */
  lemma IngestIsIdempotent(s: Maps, a: Alert)
    ensures
      var once := Perform(s, Op.Ingest(a, true, true));
      Perform(once, Op.Ingest(a, true, true)) == once
  {
    hide MarkAll;
  }

  /** An alert that refers to itself is active in memory and superseded in the table. */
  lemma SelfReferenceDisagrees()
    ensures
      var a := Alert("a", "2024", "Update", ["a"], "");
      var s := Perform(Maps(map[], map[]), Op.Ingest(a, true, true));
      && s.memory == map["a" := Record(a, Active)]
      && s.table == map["a" := Record(a, Superseded)]
  {
    var a := Alert("a", "2024", "Update", ["a"], "");
    var inserted: Index := map["a" := Record(a, Active)];
    assert a.references[..0] == [];
    assert MarkAll(inserted, [], Superseded) == inserted;
    assert MarkAll(inserted, ["a"], Superseded) == Mark(inserted, "a", Superseded);
    var empty: Index := map[];
    assert MarkAll(empty, ["a"], Superseded) == Mark(empty, "a", Superseded);
  }

  // Overlapping operations: both Expire and Recover leave the lock around a store call

  /** What the store keeps of an alert once its own references are marked. */
  function StoredState(a: Alert): State {
    if RefersToItself(a) then Superseded else StateOf(a)
  }

  lemma UpsertedAt(t: Index, a: Alert, id: string)
    ensures Upserted(t, a).Keys == t.Keys + {a.identifier}
    ensures Upserted(t, a)[a.identifier] == Record(a, StoredState(a))
    ensures id in t && id != a.identifier ==>
      Upserted(t, a)[id] == if id in a.references && t[id].state == Active then t[id].(state := ReferenceState(a))
        else t[id]
  {
    hide MarkAll;
    var inserted := t[a.identifier := Record(a, StateOf(a))];
    MarkAllAt(inserted, a.references, ReferenceState(a), id);
    MarkAllAt(inserted, a.references, ReferenceState(a), a.identifier);
  }

  lemma RememberedAt(m: Index, a: Alert, id: string)
    ensures Remembered(m, a).Keys == m.Keys + {a.identifier}
    ensures Remembered(m, a)[a.identifier] == Record(a, StateOf(a))
    ensures id in m && id != a.identifier ==>
      Remembered(m, a)[id] == if id in a.references && m[id].state == Active then m[id].(state := ReferenceState(a))
        else m[id]
  {
    hide MarkAll;
    MarkAllAt(m, a.references, ReferenceState(a), id);
  }

  predicate Ineffective(m: Index, op: Op)
    requires op.Ingest?
  {
    Repeats(m, op.alert) || !op.publishes || !op.persists
  }

  /** The rows leave the table, one ingest runs, and only then does the sweep reach the index. */
  function ExpireAround(s: Maps, due: set<string>, op: Op): Maps {
    var ids := Lapsed(s.table, due);
    var mid := Perform(Maps(s.memory, s.table - ids), op);
    Maps(mid.memory - ids, mid.table)
  }

  /**
   An expiry with an ingest between its halves keeps the agreement exactly
   when the ingested alert is not itself among the lapsed.
   */
  lemma ExpireOverlapExactly(s: Maps, due: set<string>, op: Op)
    requires Agree(s) && op.Ingest?
    ensures Agree(ExpireAround(s, due, op))
       <==> Ineffective(s.memory, op) || (!RefersToItself(op.alert) && op.alert.identifier !in Lapsed(s.table, due))
  {
    hide Repeats, Remembered, Upserted, RefersToItself;
    var a, ids := op.alert, Lapsed(s.table, due);
    if !Ineffective(s.memory, op) {
      var m, t := Remembered(s.memory, a), Upserted(s.table - ids, a);
      forall id: string
        ensures id in m <==> id in s.memory || id == a.identifier
        ensures id in t <==> id in s.table - ids || id == a.identifier
        ensures id in s.table - ids && id != a.identifier ==> id in m && id in t && m[id] == t[id]
      {
        RememberedAt(s.memory, a, id);
        UpsertedAt(s.table - ids, a, id);
      }
      RememberedAt(s.memory, a, a.identifier);
      UpsertedAt(s.table - ids, a, a.identifier);
      OwnStates(a);
      assert m[a.identifier] == t[a.identifier] <==> !RefersToItself(a);
      if a.identifier !in ids && !RefersToItself(a) {
        assert m - ids == t;
      } else {
        assert a.identifier in t;
      }
    }
  }

  lemma OwnStates(a: Alert)
    ensures StoredState(a) == StateOf(a) <==> !RefersToItself(a)
  {
  }

  /** In particular a new version of an alert that is just lapsing stays in the table but is lost from the index. */
  lemma OverlapLosesAnAlert(s: Maps, a: Alert, due: set<string>)
    requires Agree(s) && a.identifier in Lapsed(s.table, due)
    requires !Repeats(s.memory, a) && !RefersToItself(a)
    ensures
      var end := ExpireAround(s, due, Op.Ingest(a, true, true));
      && !Agree(end)
      && a.identifier !in end.memory
      && a.identifier in end.table && end.table[a.identifier] == Record(a, StateOf(a))
  {
    hide Repeats, Remembered, Upserted, RefersToItself;
    ExpireOverlapExactly(s, due, Op.Ingest(a, true, true));
    UpsertedAt(s.table - Lapsed(s.table, due), a, a.identifier);
    OwnStates(a);
  }

  /** The rows are loaded, one ingest runs, and only then do they fill the index. */
  function RecoverAround(s: Maps, due: set<string>, op: Op): Maps {
    var t := s.table - Lapsed(s.table, due);
    var mid := Perform(Maps(s.memory, t), op);
    Maps(mid.memory + t, mid.table)
  }

  /** The table is the same after the ingest for every row that was loaded. */
  predicate LeavesRows(t: Index, a: Alert) {
    && (forall id | id in a.references && id in t && id != a.identifier :: t[id].state != Active)
    && (a.identifier in t ==> t[a.identifier] == Record(a, StoredState(a)))
  }

  lemma LeavesRowsIs(t: Index, a: Alert)
    requires forall id | id in t :: id in Upserted(t, a)
    ensures LeavesRows(t, a) <==> forall id | id in t :: Upserted(t, a)[id] == t[id]
  {
    hide Upserted, RefersToItself;
    UpsertedAt(t, a, a.identifier);
    forall id | id in t
      ensures id != a.identifier ==>
        Upserted(t, a)[id] == if id in a.references && t[id].state == Active then t[id].(state := ReferenceState(a))
          else t[id]
    {
      UpsertedAt(t, a, id);
    }
    if forall id | id in t :: Upserted(t, a)[id] == t[id] {
      forall id | id in a.references && id in t && id != a.identifier
        ensures t[id].state != Active
      {
        assert Upserted(t, a)[id] == t[id];
      }
    }
  }

  /**
   A recovery with an ingest between its load and its fill leaves the two
   equal exactly when the index held nothing else and the ingest changed no
   loaded row: the fill puts the old rows back.
   */
  lemma RecoverOverlapExactly(s: Maps, due: set<string>, op: Op)
    requires op.Ingest?
    ensures
      var t, a := s.table - Lapsed(s.table, due), op.alert;
      Agree(RecoverAround(s, due, op))
      <==> if Ineffective(s.memory, op) then s.memory.Keys <= t.Keys
           else
             && s.memory.Keys <= t.Keys + {a.identifier}
             && LeavesRows(t, a)
             && (a.identifier !in t ==> !RefersToItself(a))
  {
    hide Repeats, Remembered, Upserted, RefersToItself, LeavesRows;
    var t, a := s.table - Lapsed(s.table, due), op.alert;
    if Ineffective(s.memory, op) {
      assert (s.memory + t).Keys == s.memory.Keys + t.Keys;
      if s.memory.Keys <= t.Keys {
        assert s.memory + t == t;
      }
    } else {
      var m, u := Remembered(s.memory, a) + t, Upserted(t, a);
      RememberedAt(s.memory, a, a.identifier);
      UpsertedAt(t, a, a.identifier);
      LeavesRowsIs(t, a);
      OwnStates(a);
      assert m.Keys == s.memory.Keys + {a.identifier} + t.Keys && u.Keys == t.Keys + {a.identifier};
      assert m.Keys == u.Keys <==> s.memory.Keys <= t.Keys + {a.identifier};
      if m == u {
        forall id | id in t
          ensures u[id] == t[id]
        {
          assert m[id] == u[id];
        }
      }
      if m.Keys == u.Keys && LeavesRows(t, a) && (a.identifier !in t ==> !RefersToItself(a)) {
        assert m == u;
      }
    }
  }
}
