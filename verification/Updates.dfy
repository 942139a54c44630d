/**
 What an update does to the broadcasts of the alert it updates: the same
 serial number but for the next update number, so a phone replaces the
 message; and a new alert starts at update number 0.
 */
module Updates {
  import opened Wrappers
  import opened Serials
  import opened Prepare
  import Container

  /** An update concerns the first alert it references, any other alert itself. */
  predicate Concerns(a: Alert, id: string) {
    if a.msgType == "Update" && a.references != [] then a.references[0] == id else a.identifier == id
  }

  /** An update of that alert. */
  predicate Updating(a: Alert, id: string) {
    a.msgType == "Update" && a.references != [] && a.references[0] == id
  }

  lemma ConcernsBase(a: Alert, id: string)
    ensures Concerns(a, id) <==> BaseKey(a) == id
    ensures Updating(a, id) <==> IsUpdate(a) && Concerns(a, id)
  {
  }

  // Which allocations an alert touches

  lemma {:induction false} TouchedKeys(
    t: Table, a: Alert, allow: bool, n: nat, id: string, messageId: uint16, scope: uint8)
    requires n <= |a.infos| && AllocationKey(id, messageId, scope) in Prepared(t, a, allow, n).serials
    ensures Concerns(a, id)
    decreases n
  {
    hide AllocationKey, ChooseTarget, Allocate, Encoding.Accepts, Encoding.Refusal;
    if n > 0 {
      var key := AllocationKey(id, messageId, scope);
      var p, info := Prepared(t, a, allow, n - 1), a.infos[n - 1];
      if key in p.serials {
        TouchedKeys(t, a, allow, n - 1, id, messageId, scope);
      } else {
        var call := CallFor(a, info, allow);
        assert key == call.key;
        AllocationKeyInjective(id, messageId, scope, BaseKey(a), call.messageId, call.scope);
        ConcernsBase(a, id);
      }
    }
  }

  lemma {:induction false} PreparedIsValid(t: Table, a: Alert, allow: bool, n: nat)
    requires n <= |a.infos| && Valid(t)
    ensures Valid(Prepared(t, a, allow, n).table)
    decreases n
  {
    hide AllocationKey, ChooseTarget, Allocate, Encoding.Accepts, Encoding.Refusal, Valid;
    if n > 0 {
      PreparedIsValid(t, a, allow, n - 1);
      var p, info := Prepared(t, a, allow, n - 1), a.infos[n - 1];
      if Resolved(info, allow) {
        AllocateKeepsValid(p.table, CallFor(a, info, allow));
      }
    }
  }

  lemma {:induction false} AllValid(alerts: seq<Alert>, allow: bool)
    ensures Valid(PreparedAll(alerts, allow))
    decreases |alerts|
  {
    hide Prepared, Valid;
    if alerts == [] {
      RunIsValid([]);
    } else {
      var a := alerts[|alerts| - 1];
      AllValid(alerts[..|alerts| - 1], allow);
      PreparedIsValid(PreparedAll(alerts[..|alerts| - 1], allow), a, allow, |a.infos|);
    }
  }

  /** An alert that does not update id leaves id's allocations as they are. */
  lemma OthersKeep(t: Table, a: Alert, allow: bool, id: string, messageId: uint16, scope: uint8)
    requires !Updating(a, id) && AllocationKey(id, messageId, scope) in t
    ensures
      var key, u := AllocationKey(id, messageId, scope), Prepared(t, a, allow, |a.infos|).table;
      key in u && u[key] == t[key]
  {
    hide Prepared, AllocationKey, Serial;
    var key := AllocationKey(id, messageId, scope);
    var p := Prepared(t, a, allow, |a.infos|);
    EachAllocationAdvancesOnce(t, a, allow, |a.infos|, key);
    if key in p.serials {
      TouchedKeys(t, a, allow, |a.infos|, id, messageId, scope);
      ConcernsBase(a, id);
    }
  }

  lemma {:induction false} BetweenKeeps(
    before: seq<Alert>, between: seq<Alert>, allow: bool, id: string, messageId: uint16, scope: uint8)
    requires AllocationKey(id, messageId, scope) in PreparedAll(before, allow)
    requires forall b | b in between :: !Updating(b, id)
    ensures
      var key, u := AllocationKey(id, messageId, scope), PreparedAll(before + between, allow);
      key in u && u[key] == PreparedAll(before, allow)[key]
    decreases |between|
  {
    hide Prepared, AllocationKey, Updating;
    if between == [] {
      assert before + between == before;
    } else {
      var init, last := between[..|between| - 1], between[|between| - 1];
      assert last in between && forall b | b in init :: b in between;
      BetweenKeeps(before, init, allow, id, messageId, scope);
      var all := before + between;
      assert all[..|all| - 1] == before + init && all[|all| - 1] == last;
      OthersKeep(PreparedAll(before + init, allow), last, allow, id, messageId, scope);
    }
  }

  /** No alert concerned id, so nothing is allocated under it. */
  lemma {:induction false} NothingAllocated(
    alerts: seq<Alert>, allow: bool, id: string, messageId: uint16, scope: uint8)
    requires forall b | b in alerts :: !Concerns(b, id)
    ensures AllocationKey(id, messageId, scope) !in PreparedAll(alerts, allow)
    decreases |alerts|
  {
    hide Prepared, AllocationKey, Concerns, Serial;
    if alerts != [] {
      var init, last := alerts[..|alerts| - 1], alerts[|alerts| - 1];
      assert last in alerts && forall b | b in init :: b in alerts;
      NothingAllocated(init, allow, id, messageId, scope);
      var t, key := PreparedAll(init, allow), AllocationKey(id, messageId, scope);
      EachAllocationAdvancesOnce(t, last, allow, |last.infos|, key);
      if key in Prepared(t, last, allow, |last.infos|).serials {
        TouchedKeys(t, last, allow, |last.infos|, id, messageId, scope);
      }
    }
  }

  // The serials of messages

  /** Message m was prepared for block i of an alert after the given others, and the whole alert was. */
  ghost predicate PreparedAs(prep: Preparer, before: seq<Alert>, a: Alert, i: nat, m: Container.Message) {
    var p := Prepared(PreparedAll(before, prep.allowPlmnWide), a, prep.allowPlmnWide, |a.infos|);
    a.msgType != "Cancel" && p.error.None? && i < |a.infos| && prep.Carries(m, a, i, p.serials)
  }

  /** A message's serial is the one its allocation has after the alert is prepared. */
  lemma SerialOf(prep: Preparer, before: seq<Alert>, a: Alert, i: nat, m: Container.Message, id: string)
    requires PreparedAs(prep, before, a, i, m) && Concerns(a, id)
    ensures
      var t, u := PreparedAll(before, prep.allowPlmnWide), PreparedAll(before + [a], prep.allowPlmnWide);
      var key := AllocationKey(id, m.messageId, m.target.scope);
      && key in u && u[key].code < 1024 && u[key].number < 16
      && m.serial == (u[key].scope % 4) * 16384 + u[key].code * 16 + u[key].number
      && (key in t ==> u[key] == if Updating(a, id) then t[key].(number := (t[key].number + 1) % 16) else t[key])
      && (key !in t ==> u[key].number == 0)
  {
    hide Prepared, AllocationKey, Serial, Encoding.IsEncoding, ChooseTarget, Valid;
    var allow := prep.allowPlmnWide;
    var t := PreparedAll(before, allow);
    var p := Prepared(t, a, allow, |a.infos|);
    var key := AllocationKey(id, m.messageId, m.target.scope);
    ConcernsBase(a, id);
    assert CallFor(a, a.infos[i], allow).key == key;
    EachAllocationAdvancesOnce(t, a, allow, |a.infos|, key);
    var all := before + [a];
    assert all[..|all| - 1] == before && all[|all| - 1] == a;
    AllValid(all, allow);
    OwnGroup(PreparedAll(all, allow), key);
    SerialFields(PreparedAll(all, allow)[key]);
  }

  /**
   An update replaces what it updates. Whatever was prepared before, and
   whatever in between is no update of the same alert: two messages of one
   message identifier and target scope, of an alert concerning id and of the
   next update of id, have serials with the same scope and code and the next
   update number, modulo 16.
   */
  lemma UpdateReplaces(
    prep: Preparer, before: seq<Alert>, a: Alert, between: seq<Alert>, u: Alert, id: string,
    i: nat, m: Container.Message, j: nat, n: Container.Message)
    requires PreparedAs(prep, before, a, i, m) && PreparedAs(prep, before + [a] + between, u, j, n)
    requires if a.msgType == "Update" && a.references != [] then a.references[0] == id else a.identifier == id
    requires u.msgType == "Update" && u.references != [] && u.references[0] == id
    requires forall b | b in between :: !(b.msgType == "Update" && b.references != [] && b.references[0] == id)
    requires m.messageId == n.messageId && m.target.scope == n.target.scope
    ensures n.serial / 16 == m.serial / 16
    ensures n.serial % 16 == (m.serial % 16 + 1) % 16
  {
    hide PreparedAs, AllocationKey, PreparedAll;
    SerialOf(prep, before, a, i, m, id);
    SerialOf(prep, before + [a] + between, u, j, n, id);
    BetweenKeeps(before + [a], between, prep.allowPlmnWide, id, m.messageId, m.target.scope);
  }

  /** An alert about which nothing was prepared before starts at update number 0. */
  lemma NewAlertStartsAtZero(
    prep: Preparer, before: seq<Alert>, a: Alert, i: nat, m: Container.Message, id: string)
    requires PreparedAs(prep, before, a, i, m) && Concerns(a, id)
    requires forall b | b in before :: !Concerns(b, id)
    ensures m.serial % 16 == 0
  {
    hide PreparedAs, AllocationKey, PreparedAll, Concerns;
    SerialOf(prep, before, a, i, m, id);
    NothingAllocated(before, prep.allowPlmnWide, id, m.messageId, m.target.scope);
  }
}
