/**
 The maintainer's reconnect pacing: back off after a failed dial or a
 connection that dies at once, reconnect immediately after a longer one.
 */
module Reconnect {
  import opened Bits

  /**
   What the environment does with one dial: how long it takes, how long the
   connection then lives, and by how much a timer fires late.
   */
  datatype Attempt =
    | DialFails(dialTime: nat, late: nat)
    | Connects(dialTime: nat, lifetime: nat, late: nat)

  /** Treated like a dial failure: no connection, or one shorter than the minimal backoff. */
  predicate Quick(a: Attempt, min: nat) {
    a.DialFails? || a.lifetime < min
  }

  function Doubled(backoff: nat, max: nat): nat {
    if 2 * backoff > max then max else 2 * backoff
  }

  /** The backoff in force after the given attempts. */
  function BackoffAfter(min: nat, max: nat, attempts: seq<Attempt>): nat
    decreases |attempts|
  {
    if attempts == [] then min
    else
      var a := attempts[|attempts| - 1];
      if Quick(a, min) then Doubled(BackoffAfter(min, max, attempts[..|attempts| - 1]), max) else min
  }

  /** Time from the start of one dial to the start of the next. */
  function Gap(a: Attempt, backoff: nat, min: nat): nat {
    match a
    case DialFails(t, late) => t + backoff + late
    case Connects(t, life, late) => if life < min then t + life + backoff + late else t + life
  }

  /** Dials the peer once per attempt and reports when each dial started. */
  method Maintain(min: nat, max: nat, attempts: seq<Attempt>) returns (dials: seq<nat>)
    requires 0 < min <= max
    ensures |dials| == |attempts|
    ensures forall i | 0 <= i < |dials| - 1 ::
      dials[i + 1] == dials[i] + Gap(attempts[i], BackoffAfter(min, max, attempts[..i]), min)
    ensures Paced(dials, min)
    ensures forall i | 0 <= i < |dials| - 1 ::
      match attempts[i]
      case DialFails(dialTime, late) => min <= dials[i + 1] - dials[i] - dialTime - late <= max
      case Connects(dialTime, lifetime, late) =>
        if lifetime < min then min <= dials[i + 1] - dials[i] - dialTime - lifetime - late <= max
        else dials[i + 1] == dials[i] + dialTime + lifetime
  {
    hide BackoffAfter;
    assert BackoffAfter(min, max, []) == min by { NoBackoffYet(min, max); }
    dials := [];
    var now := 0;
    var backoff := min;
    for i := 0 to |attempts|
      invariant |dials| == i
      invariant backoff == BackoffAfter(min, max, attempts[..i])
      invariant i > 0 ==> now == dials[i - 1] + Gap(attempts[i - 1], BackoffAfter(min, max, attempts[..i - 1]), min)
      invariant forall k | 0 <= k < i - 1 ::
        dials[k + 1] == dials[k] + Gap(attempts[k], BackoffAfter(min, max, attempts[..k]), min)
    {
      BackoffStep(min, max, attempts, i);
      dials := dials + [now];
      match attempts[i] {
        case DialFails(dialTime, late) =>
          now := now + dialTime;
          now := now + backoff + late;
          backoff := backoff * 2;
          if backoff > max {
            backoff := max;
          }
        case Connects(dialTime, lifetime, late) =>
          now := now + dialTime;
          now := now + lifetime;
          if lifetime < min {
            now := now + backoff + late;
            backoff := backoff * 2;
            if backoff > max {
              backoff := max;
            }
          } else {
            backoff := min;
          }
      }
    }
    forall i | 0 <= i < |dials| - 1
      ensures dials[i + 1] >= dials[i] + min
      ensures min <= BackoffAfter(min, max, attempts[..i]) <= max
    {
      BackoffInBounds(min, max, attempts[..i]);
    }
  }

  lemma NoBackoffYet(min: nat, max: nat)
    ensures BackoffAfter(min, max, []) == min
  {
  }

  lemma BackoffStep(min: nat, max: nat, attempts: seq<Attempt>, i: nat)
    requires i < |attempts|
    ensures BackoffAfter(min, max, attempts[..i + 1])
         == if Quick(attempts[i], min) then Doubled(BackoffAfter(min, max, attempts[..i]), max) else min
  {
    assert attempts[..i + 1][..i] == attempts[..i];
  }

  lemma {:induction false} BackoffInBounds(min: nat, max: nat, attempts: seq<Attempt>)
    requires 0 < min <= max
    ensures min <= BackoffAfter(min, max, attempts) <= max
    decreases |attempts|
  {
    if attempts == [] {
    } else {
      BackoffInBounds(min, max, attempts[..|attempts| - 1]);
    }
  }

  /** After k quick failures in a row the backoff is min doubled k times, capped at max. */
  lemma {:induction false} BackoffExactly(min: nat, max: nat, before: seq<Attempt>, quick: seq<Attempt>)
    requires 0 < min <= max
    requires before == [] || (before[|before| - 1].Connects? && before[|before| - 1].lifetime >= min)
    requires forall a | a in quick :: a.DialFails? || a.lifetime < min
    ensures BackoffAfter(min, max, before + quick) == if min * Pow2(|quick|) <= max then min * Pow2(|quick|) else max
    decreases |quick|
  {
    hide Pow2, BackoffAfter, Doubled;
    if quick == [] {
      assert before + quick == before;
      FreshBackoff(min, max, before);
      assert Pow2(0) == 1 by { SmallPow2Values(); }
    } else {
      var n := |quick| - 1;
      var init := quick[..n];
      assert (before + quick)[..|before| + n] == before + init;
      BackoffStep(min, max, before + quick, |before| + n);
      assert (before + quick)[..|before| + n + 1] == before + quick;
      assert quick[n] in quick;
      BackoffExactly(min, max, before, init);
      assert Pow2(n + 1) == 2 * Pow2(n) by { Pow2Add(1, n); SmallPow2Values(); }
      DoubledCap(min, max, Pow2(n));
    }
  }

  lemma FreshBackoff(min: nat, max: nat, attempts: seq<Attempt>)
    requires attempts == [] || !Quick(attempts[|attempts| - 1], min)
    ensures BackoffAfter(min, max, attempts) == min
  {
  }

  lemma DoubledCap(min: nat, max: nat, p: nat)
    requires 0 < min <= max
    ensures Doubled(if min * p <= max then min * p else max, max) == if min * (2 * p) <= max then min * (2 * p) else max
  {
    assert min * (2 * p) == 2 * (min * p);
  }

  predicate Paced(dials: seq<nat>, min: nat) {
    forall i | 0 <= i < |dials| - 1 :: dials[i + 1] >= dials[i] + min
  }

  lemma {:induction false} PacedSpread(dials: seq<nat>, min: nat, i: nat, j: nat)
    requires Paced(dials, min) && i <= j < |dials|
    ensures dials[j] - dials[i] >= (j - i) * min
    decreases j
  {
    if i < j {
      PacedSpread(dials, min, i, j - 1);
      assert (j - i) * min == (j - 1 - i) * min + min;
    }
  }

  /** Any window of length T contains at most 1 + T / min dials, however the attempts end. */
  lemma DialsInWindow(dials: seq<nat>, min: nat, i: nat, j: nat, window: nat)
    requires 0 < min && Paced(dials, min) && i <= j < |dials|
    requires dials[j] - dials[i] <= window
    ensures j - i + 1 <= 1 + window / min
  {
    PacedSpread(dials, min, i, j);
    QuotientBound(j - i, window, min);
  }

  lemma QuotientBound(n: nat, window: nat, min: nat)
    requires 0 < min && n * min <= window
    ensures n <= window / min
  {
    assert window == min * (window / min) + window % min;
    if n > window / min {
      MulBound(min, window / min, n);
    }
  }
}
