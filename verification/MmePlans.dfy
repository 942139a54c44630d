/** Grouping selected cells by MME, each group's areas and cells without repeats and in order. */
module MmePlans {
  import opened Selection

  // Sorting a finite set

  ghost predicate StrictOrder<T(!new)>(less: (T, T) -> bool) {
    && (forall x :: !less(x, x))
    && (forall x, y, z :: less(x, y) && less(y, z) ==> less(x, z))
    && (forall x, y :: less(x, y) || x == y || less(y, x))
  }

  lemma {:induction false} HasLeast<T(!new)>(s: set<T>, less: (T, T) -> bool)
    requires StrictOrder(less) && s != {}
    ensures exists m :: m in s && forall x | x in s :: x == m || less(m, x)
    decreases s
  {
    var m :| m in s;
    if s != {m} {
      HasLeast(s - {m}, less);
      var n :| n in s - {m} && forall x | x in s - {m} :: x == n || less(n, x);
      assert forall x | x in s :: x == m || x in s - {m};
      var least := if less(n, m) then n else m;
      assert least in s && forall x | x in s :: x == least || less(least, x);
    }
  }

  /** The elements of a set in ascending order. */
  function Ordered<T(!new, ==)>(s: set<T>, less: (T, T) -> bool): seq<T>
    requires StrictOrder(less)
    decreases s
  {
    if s == {} then []
    else
      HasLeast(s, less);
      var m :| m in s && forall x | x in s :: x == m || less(m, x);
      [m] + Ordered(s - {m}, less)
  }

  ghost predicate Ascending<T(!new)>(r: seq<T>, less: (T, T) -> bool) {
    forall i, j | 0 <= i < j < |r| :: less(r[i], r[j])
  }

  lemma {:induction false} OrderedHolds<T(!new)>(s: set<T>, less: (T, T) -> bool)
    requires StrictOrder(less)
    ensures forall x :: x in Ordered(s, less) <==> x in s
    ensures Ascending(Ordered(s, less), less)
    decreases s
  {
    if s != {} {
      var r := Ordered(s, less);
      OrderedHolds(s - {r[0]}, less);
      assert r[1..] == Ordered(s - {r[0]}, less);
      assert r == [r[0]] + r[1..];
      forall i, j | 0 <= i < j < |r|
        ensures less(r[i], r[j])
      {
        assert r[1..][j - 1] in r[1..];
        if i > 0 {
          assert less(r[1..][i - 1], r[1..][j - 1]);
        }
      }
    }
  }

  /** Text is ordered by its first differing character. */
  predicate TextLess(a: string, b: string) {
    b != [] && (a == [] || a[0] < b[0] || (a[0] == b[0] && TextLess(a[1..], b[1..])))
  }

  /** a and b agree before position k, and there a ends or has the smaller character. */
  predicate SmallerAt(a: string, b: string, k: nat) {
    k <= |a| && k < |b| && a[..k] == b[..k] && (k == |a| || a[k] < b[k])
  }

  lemma SameHead(a: string, b: string, k: nat)
    requires SmallerAt(a, b, k)
    ensures k > 0 ==> a != [] && b != [] && a[0] == b[0]
  {
    if k > 0 {
      assert a[..k][0] == b[..k][0];
    }
  }

  /** Text is ordered by its first difference, and a beginning comes before what it begins. */
  lemma {:induction false} TextOrder(a: string, b: string)
    ensures TextLess(a, b) <==> exists k: nat :: SmallerAt(a, b, k)
  {
    if a != [] && b != [] && a[0] == b[0] {
      TextOrder(a[1..], b[1..]);
      if k: nat :| SmallerAt(a[1..], b[1..], k) {
        assert a[..k + 1] == [a[0]] + a[1..][..k] && b[..k + 1] == [b[0]] + b[1..][..k];
        assert SmallerAt(a, b, k + 1);
      }
      if k: nat :| SmallerAt(a, b, k) {
        assert k > 0;
        assert a[1..][..k - 1] == a[..k][1..] && b[1..][..k - 1] == b[..k][1..];
        assert SmallerAt(a[1..], b[1..], k - 1);
      }
    } else if TextLess(a, b) {
      assert SmallerAt(a, b, 0);
    } else {
      forall k: nat | SmallerAt(a, b, k)
        ensures k > 0 ==> a != [] && b != [] && a[0] == b[0]
      {
        SameHead(a, b, k);
      }
    }
  }

  lemma {:induction false} TextTransitive(a: string, b: string, c: string)
    requires TextLess(a, b) && TextLess(b, c)
    ensures TextLess(a, c)
  {
    if a != [] && a[0] == b[0] == c[0] {
      TextTransitive(a[1..], b[1..], c[1..]);
    }
  }

  lemma {:induction false} TextTotal(a: string, b: string)
    ensures TextLess(a, b) || a == b || TextLess(b, a)
    ensures !(TextLess(a, b) && TextLess(b, a))
  {
    if a != [] && b != [] && a[0] == b[0] {
      TextTotal(a[1..], b[1..]);
      assert a == [a[0]] + a[1..] && b == [b[0]] + b[1..];
    }
  }

  lemma TextIsOrder()
    ensures StrictOrder(TextLess)
  {
    forall x
      ensures !TextLess(x, x)
    {
      TextTotal(x, x);
    }
    forall x, y, z | TextLess(x, y) && TextLess(y, z)
      ensures TextLess(x, z)
    {
      TextTransitive(x, y, z);
    }
    forall x, y
      ensures TextLess(x, y) || x == y || TextLess(y, x)
    {
      TextTotal(x, y);
    }
  }

  predicate NumberLess(a: nat, b: nat) {
    a < b
  }

  // Plans

  datatype Tai = Tai(mcc: string, mnc: string, tac: nat)

  datatype MmePlan = MmePlan(mmeName: string, tais: seq<Tai>, ecis: seq<nat>)

  datatype Accumulator = Accumulator(tacs: set<nat>, ecis: set<nat>)

  function Gathered(cells: seq<SelectedCell>, name: string): Accumulator {
    Accumulator(set c | c in cells && c.mmeName == name :: c.tac, set c | c in cells && c.mmeName == name :: c.eci)
  }

  /** A plan lists the areas and cells of the selected cells of its MME, each once, ascending. */
  ghost predicate PlanFor(plan: MmePlan, plmn: Plmn, cells: seq<SelectedCell>) {
    && (forall e :: e in plan.ecis <==> exists c :: c in cells && c.mmeName == plan.mmeName && c.eci == e)
    && (forall t :: t in plan.tais <==>
          exists c :: c in cells && c.mmeName == plan.mmeName && t == Tai(plmn.mcc, plmn.mnc, c.tac))
    && (forall i, j | 0 <= i < j < |plan.ecis| :: plan.ecis[i] < plan.ecis[j])
    && (forall i, j | 0 <= i < j < |plan.tais| :: plan.tais[i].tac < plan.tais[j].tac)
  }

  function NamesOf(cells: seq<SelectedCell>): set<string> {
    set c | c in cells :: c.mmeName
  }

  /** The groups by MME, and the MMEs in the order they were met. */
  method GatherByMme(cells: seq<SelectedCell>) returns (groups: map<string, Accumulator>, order: seq<string>)
    ensures groups.Keys == NamesOf(cells) && forall name | name in groups :: groups[name] == Gathered(cells, name)
    ensures forall name :: name in order <==> name in groups
  {
    hide Gathered;
    groups, order := map[], [];
    for i := 0 to |cells|
      invariant groups.Keys == NamesOf(cells[..i])
      invariant forall name | name in groups :: groups[name] == Gathered(cells[..i], name)
      invariant forall name :: name in order <==> name in groups
    {
      var c := cells[i];
      GatherNext(cells, i);
      if c.mmeName !in groups {
        groups := groups[c.mmeName := Accumulator({}, {})];
        order := order + [c.mmeName];
      }
      var a := groups[c.mmeName];
      groups := groups[c.mmeName := Accumulator(a.tacs + {c.tac}, a.ecis + {c.eci})];
    }
    assert cells[..|cells|] == cells;
  }

  function PlanNames(plans: seq<MmePlan>): set<string> {
    set p | p in plans :: p.mmeName
  }

  /** One plan per MME of a selected cell, ascending by name, so every selected cell is in exactly one plan. */
  method BuildMmePlans(plmn: Plmn, cells: seq<SelectedCell>) returns (plans: seq<MmePlan>)
    ensures forall i | 0 <= i < |plans| :: PlanFor(plans[i], plmn, cells)
    ensures PlanNames(plans) == NamesOf(cells)
    ensures forall i, j | 0 <= i < j < |plans| :: TextLess(plans[i].mmeName, plans[j].mmeName)
  {
    hide Gathered, PlanFor, NamesOf, TextLess;
    var groups, order := GatherByMme(cells);
    TextIsOrder();
    var distinct := set name | name in order;
    var names := Ordered(distinct, TextLess);
    OrderedHolds(distinct, TextLess);
    hide Ordered, StrictOrder;
    plans := [];
    for i := 0 to |names|
      invariant |plans| == i
      invariant forall k | 0 <= k < i :: plans[k].mmeName == names[k] && PlanFor(plans[k], plmn, cells)
    {
      assert names[i] in names;
      var plan := PlanOf(plmn, names[i], groups[names[i]], cells);
      plans := plans + [plan];
    }
    NamesInOrder(plans, names);
    assert PlanNames(plans) == NamesOf(cells);
  }

  lemma NamesInOrder(plans: seq<MmePlan>, names: seq<string>)
    requires |plans| == |names| && forall k | 0 <= k < |names| :: plans[k].mmeName == names[k]
    ensures PlanNames(plans) == set name | name in names
  {
    forall k | 0 <= k < |names|
      ensures names[k] in PlanNames(plans)
    {
      assert plans[k] in plans;
    }
    forall p | p in plans
      ensures p.mmeName in names
    {
      var k :| 0 <= k < |plans| && plans[k] == p;
      assert names[k] in names;
    }
  }

  /** One more cell adds its area and its identity to its own MME's group only. */
  lemma GatherNext(cells: seq<SelectedCell>, i: nat)
    requires i < |cells|
    ensures NamesOf(cells[..i + 1]) == NamesOf(cells[..i]) + {cells[i].mmeName}
    ensures forall name ::
      Gathered(cells[..i + 1], name)
      == if name == cells[i].mmeName
         then
           var before := Gathered(cells[..i], name);
           Accumulator(before.tacs + {cells[i].tac}, before.ecis + {cells[i].eci})
         else Gathered(cells[..i], name)
    ensures cells[i].mmeName !in NamesOf(cells[..i]) ==>
      Gathered(cells[..i], cells[i].mmeName) == Accumulator({}, {})
  {
    assert cells[..i + 1] == cells[..i] + [cells[i]];
  }

  method PlanOf(plmn: Plmn, name: string, a: Accumulator, ghost cells: seq<SelectedCell>) returns (plan: MmePlan)
    requires a == Gathered(cells, name)
    ensures plan.mmeName == name && PlanFor(plan, plmn, cells)
  {
    var tacs := Ordered(a.tacs, NumberLess);
    OrderedHolds(a.tacs, NumberLess);
    var tais := seq(|tacs|, i requires 0 <= i < |tacs| => Tai(plmn.mcc, plmn.mnc, tacs[i]));
    var ecis := Ordered(a.ecis, NumberLess);
    OrderedHolds(a.ecis, NumberLess);
    plan := MmePlan(name, tais, ecis);
    forall t: Tai
      ensures t in tais <==> exists c :: c in cells && c.mmeName == name && t == Tai(plmn.mcc, plmn.mnc, c.tac)
    {
      if c :| c in cells && c.mmeName == name && t == Tai(plmn.mcc, plmn.mnc, c.tac) {
        assert c.tac in tacs;
        var k :| 0 <= k < |tacs| && tacs[k] == c.tac;
        assert tais[k] == t;
      }
      if t in tais {
        var k :| 0 <= k < |tais| && tais[k] == t;
        assert tacs[k] in a.tacs;
      }
    }
    assert forall i, j | 0 <= i < j < |ecis| :: NumberLess(ecis[i], ecis[j]);
    assert forall i, j | 0 <= i < j < |tais| :: NumberLess(tacs[i], tacs[j]);
  }
}
