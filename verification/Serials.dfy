/**
 The durable CBS serial-number allocator: a 2-bit geographical scope, a
 10-bit message code and a 4-bit update number (section 9.4.1.2.1 of
 TS 23.041), over every sequence of allocation calls.
 */
module Serials {
  import opened Wrappers
  import opened Bits
  import Elements

  type uint16 = Elements.uint16
  type uint8 = octet

  datatype SerialError = CodesExhausted | IncompatibleKey

  datatype Allocation = Allocation(messageId: uint16, scope: uint8, code: nat, number: nat)

  type Table = map<string, Allocation>

  // The queries

  function Group(t: Table, messageId: uint16, scope: uint8): set<string> {
    set key | key in t && t[key].messageId == messageId && t[key].scope == scope
  }

  function Codes(t: Table, keys: set<string>): set<nat>
    requires keys <= t.Keys
  {
    set key | key in keys :: t[key].code
  }

  lemma {:induction false} HasMaximum(s: set<nat>)
    requires s != {}
    ensures exists m :: m in s && forall x | x in s :: x <= m
  {
    var m :| m in s;
    if s != {m} {
      HasMaximum(s - {m});
      var n :| n in s - {m} && forall x | x in s - {m} :: x <= n;
      assert forall x | x in s :: x == m || x in s - {m};
      if n < m {
        assert forall x | x in s :: x <= m;
      } else {
        assert forall x | x in s :: x <= n;
      }
    }
  }

  /** SELECT MAX(message_code). */
  function MaxCode(codes: set<nat>): (m: Option<nat>)
    ensures m.None? <==> codes == {}
    ensures m.Some? ==> m.value in codes && forall x | x in codes :: x <= m.value
  {
    if codes == {} then None
    else
      HasMaximum(codes);
      var m :| m in codes && forall x | x in codes :: x <= m;
      Some(m)
  }

  /** uint16(scope)<<14 | uint16(code)<<4 | uint16(number) */
  function Serial(a: Allocation): uint16 {
    OrWideBound(((a.scope * 16384) % 65536), ((a.code % 65536) * 16) % 65536, 16);
    OrWideBound(OrWide(((a.scope * 16384) % 65536), ((a.code % 65536) * 16) % 65536, 16), a.number % 65536, 16);
    OrWide(OrWide(((a.scope * 16384) % 65536), ((a.code % 65536) * 16) % 65536, 16), a.number % 65536, 16)
  }

  // One call

  datatype Call = Call(key: string, messageId: uint16, scope: uint8, update: bool)

  datatype Done = Done(table: Table, result: Result<uint16, SerialError>)

  predicate Compatible(t: Table, c: Call) {
    c.key !in t || (t[c.key].messageId == c.messageId && t[c.key].scope == c.scope)
  }

  /** The allocation a successful call leaves behind for its key. */
  function Granted(t: Table, c: Call): Allocation {
    if c.key in t then
      var a := t[c.key];
      if c.update then a.(number := (a.number + 1) % 16) else a
    else
      var max := MaxCode(Codes(t, Group(t, c.messageId, c.scope)));
      Allocation(c.messageId, c.scope, if max.Some? then max.value + 1 else 0, 0)
  }

  function Allocate(t: Table, c: Call): Done {
    if !Compatible(t, c) then Done(t, Failure(IncompatibleKey))
    else if c.key !in t && |Group(t, c.messageId, c.scope)| >= 1024 then Done(t, Failure(CodesExhausted))
    else Done(t[c.key := Granted(t, c)], Success(Serial(Granted(t, c))))
  }

  class SerialStore {
    var allocations: Table

    constructor ()
      ensures allocations == map[]
    {
      allocations := map[];
    }

    method AllocateCBSSerial(alertKey: string, messageId: uint16, scope: uint8, update: bool)
      returns (r: Result<uint16, SerialError>)
      modifies this
      ensures Done(allocations, r) == Allocate(old(allocations), Call(alertKey, messageId, scope, update))
    {
      hide Serial, MaxCode;
      var code, number;
      if alertKey !in allocations {
        var group := Group(allocations, messageId, scope);
        if |group| >= 1024 {
          return Failure(CodesExhausted);
        }
        var max := MaxCode(Codes(allocations, group));
        code := 0;
        if max.Some? {
          code := max.value + 1;
        }
        number := 0;
        allocations := allocations[alertKey := Allocation(messageId, scope, code, number)];
      } else {
        var stored := allocations[alertKey];
        code, number := stored.code, stored.number;
        if stored.messageId != messageId || stored.scope != scope {
          return Failure(IncompatibleKey);
        }
        if update {
          number := (number + 1) % 16;
          allocations := allocations[alertKey := stored.(number := number)];
        } else {
          assert allocations == allocations[alertKey := stored];
        }
      }
      return Success(Serial(Allocation(messageId, scope, code, number)));
    }
  }

  // Whole runs

  /** The table after a sequence of calls on an empty table. */
  function Run(calls: seq<Call>): Table
    decreases |calls|
  {
    if calls == [] then map[]
    else Allocate(Run(calls[..|calls| - 1]), calls[|calls| - 1]).table
  }

  /** What call i returns. */
  function Outcome(calls: seq<Call>, i: nat): Result<uint16, SerialError>
    requires i < |calls|
  {
    Allocate(Run(calls[..i]), calls[i]).result
  }

  lemma RunStep(calls: seq<Call>, i: nat)
    requires i < |calls|
    ensures Run(calls[..i + 1]) == Allocate(Run(calls[..i]), calls[i]).table
  {
    assert calls[..i + 1][..i] == calls[..i];
  }

  predicate HasCode(t: Table, keys: set<string>, code: nat)
    requires keys <= t.Keys
  {
    exists key :: key in keys && t[key].code == code
  }

  /** Within a message identifier and scope the codes are exactly 0, 1, …, k-1, one per key, k <= 1024. */
  ghost predicate CodesExact(t: Table, messageId: uint16, scope: uint8) {
    var group := Group(t, messageId, scope);
    && |group| <= 1024
    && (forall key | key in group :: t[key].code < |group|)
    && (forall c | 0 <= c < |group| :: HasCode(t, group, c))
    && (forall k1, k2 | k1 in group && k2 in group && k1 != k2 :: t[k1].code != t[k2].code)
  }

  ghost predicate Valid(t: Table) {
    && (forall key | key in t :: t[key].number < 16)
    && (forall messageId, scope :: CodesExact(t, messageId, scope))
  }

  lemma NextCode(t: Table, messageId: uint16, scope: uint8)
    requires CodesExact(t, messageId, scope)
    ensures
      var group := Group(t, messageId, scope);
      MaxCode(Codes(t, group)) == if |group| == 0 then None else Some(|group| - 1)
  {
    hide MaxCode;
    var group := Group(t, messageId, scope);
    if |group| == 0 {
      assert group == {};
      assert Codes(t, group) == {};
    } else {
      assert HasCode(t, group, |group| - 1);
      var key :| key in group && t[key].code == |group| - 1;
      assert t[key].code in Codes(t, group);
    }
  }

  lemma InsertKeepsCodes(t: Table, key: string, a: Allocation, messageId: uint16, scope: uint8)
    requires CodesExact(t, messageId, scope) && key !in t
    requires a.messageId == messageId && a.scope == scope ==>
      |Group(t, messageId, scope)| < 1024 && a.code == |Group(t, messageId, scope)|
    ensures CodesExact(t[key := a], messageId, scope)
  {
    var group := Group(t, messageId, scope);
    var u := t[key := a];
    var after := Group(u, messageId, scope);
    if a.messageId == messageId && a.scope == scope {
      assert after == group + {key};
      forall c | 0 <= c < |after|
        ensures HasCode(u, after, c)
      {
        if c == |group| {
          assert key in after && u[key].code == c;
        } else {
          assert HasCode(t, group, c);
          var k :| k in group && t[k].code == c;
          assert k in after && u[k].code == c;
        }
      }
    } else {
      SameGroupCodes(t, t[key := a], messageId, scope);
    }
  }

  lemma SameGroupCodes(t: Table, u: Table, messageId: uint16, scope: uint8)
    requires CodesExact(t, messageId, scope)
    requires Group(t, messageId, scope) == Group(u, messageId, scope)
    requires forall key | key in Group(t, messageId, scope) :: u[key].code == t[key].code
    ensures CodesExact(u, messageId, scope)
  {
    var group := Group(t, messageId, scope);
    forall c | 0 <= c < |group|
      ensures HasCode(u, group, c)
    {
      assert HasCode(t, group, c);
      var k :| k in group && t[k].code == c;
      assert u[k].code == c;
    }
  }

  lemma UpdateKeepsCodes(t: Table, key: string, number: nat, messageId: uint16, scope: uint8)
    requires CodesExact(t, messageId, scope) && key in t
    ensures CodesExact(t[key := t[key].(number := number)], messageId, scope)
  {
    var u := t[key := t[key].(number := number)];
    assert Group(t, messageId, scope) == Group(u, messageId, scope);
    SameGroupCodes(t, u, messageId, scope);
  }

  lemma AllocateKeepsValid(t: Table, c: Call)
    requires Valid(t)
    ensures Valid(Allocate(t, c).table)
  {
    hide Serial, MaxCode, CodesExact, Group, Codes;
    var u := Allocate(t, c).table;
    if u != t {
      NextCodeOf(t, c.messageId, c.scope);
      forall messageId, scope
        ensures CodesExact(u, messageId, scope)
      {
        if c.key in t {
          UpdateKeepsCodes(t, c.key, u[c.key].number, messageId, scope);
        } else {
          InsertKeepsCodes(t, c.key, u[c.key], messageId, scope);
        }
      }
    }
  }

  lemma NextCodeOf(t: Table, messageId: uint16, scope: uint8)
    requires Valid(t)
    ensures
      var group := Group(t, messageId, scope);
      MaxCode(Codes(t, group)) == if |group| == 0 then None else Some(|group| - 1)
  {
    NextCode(t, messageId, scope);
  }

  /** After any calls whatever the codes of every group are gapless and unshared. */
  lemma {:induction false} RunIsValid(calls: seq<Call>)
    ensures Valid(Run(calls))
    decreases |calls|
  {
    if calls == [] {
      forall messageId, scope
        ensures CodesExact(map[], messageId, scope)
      {
        assert Group(map[], messageId, scope) == {};
      }
    } else {
      hide Allocate, Valid;
      RunIsValid(calls[..|calls| - 1]);
      AllocateKeepsValid(Run(calls[..|calls| - 1]), calls[|calls| - 1]);
    }
  }

  // Serial numbers

  /** The three fields never overlap; a scope beyond two bits loses its high bits. */
  lemma SerialFields(a: Allocation)
    requires a.code < 1024 && a.number < 16
    ensures Serial(a) == (a.scope % 4) * 16384 + a.code * 16 + a.number
  {
    hide OrWide, Pow2;
    assert Pow2(2) == 4 && Pow2(14) == 16384 && Pow2(4) == 16 && Pow2(10) == 1024 by { Pow2Values(); }
    assert Pow2(12) == 4096 by { Pow2Add(2, 10); }
    var s := a.scope % 4;
    assert (a.scope * 16384) % 65536 == s * 16384;
    OrDisjoint(s, a.code * 16, 2, 14);
    OrDisjoint(s * 1024 + a.code, a.number, 12, 4);
  }

  /** A key, once granted, keeps its message identifier, scope and code for ever. */
  lemma {:induction false} AllocationIsPermanent(calls: seq<Call>, key: string, i: nat, j: nat)
    requires i <= j <= |calls| && key in Run(calls[..i])
    ensures key in Run(calls[..j])
    ensures Run(calls[..j])[key].(number := 0) == Run(calls[..i])[key].(number := 0)
    decreases j
  {
    hide Serial, MaxCode, Group, Codes, Run;
    if i < j {
      AllocationIsPermanent(calls, key, i, j - 1);
      RunStep(calls, j - 1);
    }
  }

  /** A successful call's key is in the table, and the call returned that allocation's serial. */
  lemma GrantedIsStored(calls: seq<Call>, i: nat)
    requires i < |calls| && Outcome(calls, i).Success?
    ensures
      var t := Run(calls[..i + 1]);
      && calls[i].key in t
      && t[calls[i].key].messageId == calls[i].messageId
      && t[calls[i].key].scope == calls[i].scope
      && t[calls[i].key].number < 16 && t[calls[i].key].code < 1024
      && Outcome(calls, i) == Success(Serial(t[calls[i].key]))
  {
    hide Serial, MaxCode, Codes, Run;
    RunStep(calls, i);
    RunIsValid(calls[..i + 1]);
    var t := Run(calls[..i + 1]);
    var key := calls[i].key;
    assert CodesExact(t, t[key].messageId, t[key].scope);
    assert key in Group(t, t[key].messageId, t[key].scope);
  }

  /** Two scopes whose serial numbers would overlap: distinct, yet the same two bits on the wire. */
  predicate Overlapping(s1: uint8, s2: uint8) {
    s1 != s2 && s1 % 4 == s2 % 4
  }

  /**
   Two alerts with the same message identifier never get equal serial numbers
   at any times, whatever is allocated or updated in between, unless their
   scopes overlap.
   */
  lemma SerialsNeverClash(calls: seq<Call>, i: nat, j: nat)
    requires i < j < |calls|
    requires calls[i].key != calls[j].key && calls[i].messageId == calls[j].messageId
    requires !Overlapping(calls[i].scope, calls[j].scope)
    requires Outcome(calls, i).Success? && Outcome(calls, j).Success?
    ensures Outcome(calls, i).value != Outcome(calls, j).value
  {
    hide Serial, Run, Outcome, Valid;
    GrantedIsStored(calls, i);
    GrantedIsStored(calls, j);
    var k1, k2 := calls[i].key, calls[j].key;
    AllocationIsPermanent(calls, k1, i + 1, j + 1);
    var t := Run(calls[..j + 1]);
    RunIsValid(calls[..j + 1]);
    var a, b := Run(calls[..i + 1])[k1], t[k2];
    if a.scope == b.scope {
      CodesDiffer(t, k1, k2);
    }
    SerialFields(a);
    SerialFields(b);
  }

  lemma CodesDiffer(t: Table, k1: string, k2: string)
    requires Valid(t) && k1 in t && k2 in t && k1 != k2
    requires t[k1].messageId == t[k2].messageId && t[k1].scope == t[k2].scope
    ensures t[k1].code != t[k2].code
  {
    assert CodesExact(t, t[k1].messageId, t[k1].scope);
    var group := Group(t, t[k1].messageId, t[k1].scope);
    assert k1 in group && k2 in group;
  }

  /** The first alert of each of two overlapping scopes gets the very same serial number. */
  lemma OverlappingScopesClash(messageId: uint16, s1: uint8, s2: uint8, k1: string, k2: string)
    requires Overlapping(s1, s2) && k1 != k2
    ensures
      var calls := [Call(k1, messageId, s1, false), Call(k2, messageId, s2, false)];
      Outcome(calls, 0) == Outcome(calls, 1) == Success((s1 % 4) * 16384)
  {
    hide Serial;
    var calls := [Call(k1, messageId, s1, false), Call(k2, messageId, s2, false)];
    assert calls[..0] == [] && calls[..1] == [calls[0]];
    var first := Allocation(messageId, s1, 0, 0);
    var t := map[k1 := first];
    assert Group(map[], messageId, s1) == {};
    assert Codes(map[], Group(map[], messageId, s1)) == {};
    assert Run(calls[..1]) == t by { RunStep(calls, 0); }
    assert Group(t, messageId, s2) == {};
    assert Codes(t, Group(t, messageId, s2)) == {};
    SerialFields(first);
    SerialFields(Allocation(messageId, s2, 0, 0));
  }

  /** Calls i and j of a run gave two alerts of one message identifier the same serial number. */
  ghost predicate Clash(calls: seq<Call>, i: nat, j: nat, messageId: uint16, s1: uint8, s2: uint8) {
    && i < j < |calls| && calls[i].key != calls[j].key
    && calls[i].messageId == calls[j].messageId == messageId && calls[i].scope == s1 && calls[j].scope == s2
    && Outcome(calls, i).Success? && Outcome(calls, i) == Outcome(calls, j)
  }

  /** Some run gives alerts of these two scopes the same serial number exactly when the scopes overlap. */
  lemma ClashIffOverlapping(messageId: uint16, s1: uint8, s2: uint8)
    ensures (exists calls, i, j :: Clash(calls, i, j, messageId, s1, s2)) <==> Overlapping(s1, s2)
  {
    hide Outcome;
    if Overlapping(s1, s2) {
      var calls := [Call("a", messageId, s1, false), Call("b", messageId, s2, false)];
      OverlappingScopesClash(messageId, s1, s2, "a", "b");
      assert Clash(calls, 0, 1, messageId, s1, s2);
    }
    if exists calls, i, j :: Clash(calls, i, j, messageId, s1, s2) {
      var calls, i, j :| Clash(calls, i, j, messageId, s1, s2);
      if !Overlapping(s1, s2) {
        SerialsNeverClash(calls, i, j);
      }
    }
  }

  /** How many of the calls i, …, j-1 advance a granted key. */
  function Advances(calls: seq<Call>, key: string, i: nat, j: nat): nat
    requires i <= j <= |calls|
    decreases j
  {
    if i == j then 0
    else
      Advances(calls, key, i, j - 1) +
      (if calls[j - 1].key == key && calls[j - 1].update && Outcome(calls, j - 1).Success? then 1 else 0)
  }

  /** A key's update number counts its successful update calls modulo 16; nothing else moves it. */
  lemma {:induction false} NumberCountsUpdates(calls: seq<Call>, key: string, i: nat, j: nat)
    requires i <= j <= |calls| && key in Run(calls[..i])
    ensures key in Run(calls[..j])
    ensures Run(calls[..j])[key].number == (Run(calls[..i])[key].number + Advances(calls, key, i, j)) % 16
    decreases j
  {
    hide Serial, MaxCode, Group, Codes, Run;
    if i < j {
      NumberCountsUpdates(calls, key, i, j - 1);
      RunStep(calls, j - 1);
      AddModulo(Run(calls[..i])[key].number + Advances(calls, key, i, j - 1));
    } else {
      RunIsValid(calls[..i]);
    }
  }

  lemma AddModulo(n: nat)
    ensures (n % 16 + 1) % 16 == (n + 1) % 16
  {
  }

  /** From one call to a later one a key's serial moves only in its low four bits, by its update calls. */
  lemma SerialMovesByUpdates(calls: seq<Call>, i: nat, j: nat)
    requires i < j < |calls| && calls[i].key == calls[j].key
    requires Outcome(calls, i).Success? && Outcome(calls, j).Success?
    ensures
      var before, after := Outcome(calls, i).value, Outcome(calls, j).value;
      && after / 16 == before / 16
      && after % 16 == (before % 16 + Advances(calls, calls[i].key, i + 1, j + 1)) % 16
  {
    hide Serial, Run, Outcome, Advances;
    GrantedIsStored(calls, i);
    GrantedIsStored(calls, j);
    AllocationIsPermanent(calls, calls[i].key, i + 1, j + 1);
    NumberCountsUpdates(calls, calls[i].key, i + 1, j + 1);
    SerialFields(Run(calls[..i + 1])[calls[i].key]);
    SerialFields(Run(calls[..j + 1])[calls[i].key]);
  }

  /**
   What any call does after any calls: when it is refused and why, which
   serial it gets, and that no other key is touched.
   */
  lemma CallExactly(calls: seq<Call>, c: Call)
    ensures
      var t, done := Run(calls), Allocate(Run(calls), c);
      var group := set key | key in t && t[key].messageId == c.messageId && t[key].scope == c.scope;
      && (done.result == Failure(IncompatibleKey) <==>
            c.key in t && (t[c.key].messageId != c.messageId || t[c.key].scope != c.scope))
      && (done.result == Failure(CodesExhausted) <==> c.key !in t && |group| == 1024)
      && (done.result.Success? ==>
            && done.table.Keys == t.Keys + {c.key}
            && done.result.value ==
                 (c.scope % 4) * 16384
                 + (if c.key in t then t[c.key].code * 16 + (t[c.key].number + if c.update then 1 else 0) % 16
                    else |group| * 16))
      && (done.result.Failure? ==> done.table == t)
      && (forall key | key in t && key != c.key :: done.table[key] == t[key])
  {
    hide Serial, MaxCode, Codes, Run;
    var t := Run(calls);
    RunIsValid(calls);
    assert CodesExact(t, c.messageId, c.scope);
    NextCodeOf(t, c.messageId, c.scope);
    if c.key in t {
      OwnGroup(t, c.key);
    }
    if Allocate(t, c).result.Success? {
      SerialFields(Granted(t, c));
    }
  }

  lemma OwnGroup(t: Table, key: string)
    requires Valid(t) && key in t
    ensures t[key].code < 1024 && t[key].number < 16
  {
    assert CodesExact(t, t[key].messageId, t[key].scope);
    assert key in Group(t, t[key].messageId, t[key].scope);
  }
}
