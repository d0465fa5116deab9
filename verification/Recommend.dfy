/**
 `MemberMgr::random_member`: the requester's key is dropped from a copy of the map, and the
 iterator is advanced by `rand() % size`.
 */
module Recommend {
  import opened Wrappers
  import opened KeyOrder

  function Others(keys: set<string>, requester: string): seq<string> {
    KeysInOrder(keys - {requester})
  }

  function Choose(keys: set<string>, requester: string, roll: nat): Option<string> {
    var others := Others(keys, requester);
    if |others| == 0 then None else Some(others[roll % |others|])
  }

  /** Somebody is chosen exactly when there is somebody else, and it is always somebody else. */
  lemma ChooseFindsSomeoneElse(keys: set<string>, requester: string, roll: nat)
    ensures Choose(keys, requester, roll).None? <==> keys <= {requester}
    ensures forall p :: Choose(keys, requester, roll) == Some(p) ==> p in keys && p != requester
  {
    var others := Others(keys, requester);
    if |others| == 0 {
      assert keys - {requester} == {};
    } else {
      assert others[0] in keys - {requester};
      assert others[roll % |others|] in keys - {requester};
    }
  }

  /** Every other member has one position in key order, and a roll shows it iff it falls on that position. */
  lemma ChooseReachesEveryone(keys: set<string>, requester: string, p: string) returns (i: nat)
    requires p in keys && p != requester
    ensures i < |keys - {requester}| && Others(keys, requester)[i] == p
    ensures Choose(keys, requester, i) == Some(p)
    ensures forall roll: nat :: Choose(keys, requester, roll) == Some(p) <==> roll % |keys - {requester}| == i
  {
    var others := Others(keys, requester);
    assert p in others;
    i :| 0 <= i < |others| && others[i] == p;
    SmallMod(i, |others|);
    forall roll: nat
      ensures Choose(keys, requester, roll) == Some(p) <==> roll % |others| == i
    {
      var r := roll % |others|;
      assert others[r] == p ==> r == i;
    }
  }

  lemma SmallMod(i: nat, n: nat)
    requires i < n
    ensures i % n == i
  {
  }

  /** The rolls below `bound` for which the requester is shown `p`. */
  ghost function RollsFor(keys: set<string>, requester: string, p: string, bound: nat): set<nat> {
    set roll: nat | roll < bound && Choose(keys, requester, roll) == Some(p)
  }

  lemma DivModStep(b: nat, n: nat)
    requires n > 0
    ensures if b % n == n - 1 then (b + 1) / n == b / n + 1 && (b + 1) % n == 0
            else (b + 1) / n == b / n && (b + 1) % n == b % n + 1
  {
    var q, r := b / n, b % n;
    assert b == q * n + r;
    if r == n - 1 {
      assert b + 1 == (q + 1) * n;
      DivModUnique(b + 1, n, q + 1, 0);
    } else {
      DivModUnique(b + 1, n, q, r + 1);
    }
  }

  lemma {:induction false} PositiveMultiple(d: nat, n: int)
    requires d > 0 && n > 0
    ensures d * n >= n
  {
    if d > 1 { PositiveMultiple(d - 1, n); }
  }

  lemma DivModUnique(x: nat, n: nat, q: nat, r: nat)
    requires n > 0 && r < n && x == q * n + r
    ensures x / n == q && x % n == r
  {
    var q', r' := x / n, x % n;
    if q > q' {
      PositiveMultiple(q - q', n);
    } else if q < q' {
      PositiveMultiple(q' - q, n);
    }
  }

  /**
   The member at position `i` is shown for `bound / n` of the rolls, and for one more when `i` is among
   the first `bound % n` positions: the shares of any two members differ by at most one roll.
   */
  lemma {:induction false} NearUniform(keys: set<string>, requester: string, i: nat, bound: nat)
    requires i < |keys - {requester}|
    ensures var n := |keys - {requester}|;
            |RollsFor(keys, requester, Others(keys, requester)[i], bound)| == bound / n + (if i < bound % n then 1 else 0)
  {
    var n := |keys - {requester}|;
    var others := Others(keys, requester);
    var p := others[i];
    if bound == 0 {
      assert RollsFor(keys, requester, p, 0) == {};
    } else {
      var b := bound - 1;
      NearUniform(keys, requester, i, b);
      DivModStep(b, n);
      var r := b % n;
      assert others[r] == p <==> r == i;
      if r == i {
        assert RollsFor(keys, requester, p, bound) == RollsFor(keys, requester, p, b) + {b};
      } else {
        assert RollsFor(keys, requester, p, bound) == RollsFor(keys, requester, p, b);
      }
    }
  }

  ghost function TotalRolls(keys: set<string>, requester: string, who: seq<string>, bound: nat): nat {
    if who == [] then 0
    else |RollsFor(keys, requester, who[0], bound)| + TotalRolls(keys, requester, who[1..], bound)
  }

  ghost function RollsForAny(keys: set<string>, requester: string, who: seq<string>, bound: nat): set<nat> {
    set roll: nat | roll < bound && Choose(keys, requester, roll).Some? && Choose(keys, requester, roll).value in who
  }

  lemma {:induction false} TotalIsUnion(keys: set<string>, requester: string, who: seq<string>, bound: nat)
    requires forall i, j :: 0 <= i < j < |who| ==> who[i] != who[j]
    ensures TotalRolls(keys, requester, who, bound) == |RollsForAny(keys, requester, who, bound)|
  {
    hide Choose;
    if who == [] {
      assert RollsForAny(keys, requester, who, bound) == {};
    } else {
      TotalIsUnion(keys, requester, who[1..], bound);
      var a, b := RollsFor(keys, requester, who[0], bound), RollsForAny(keys, requester, who[1..], bound);
      assert a !! b;
      assert RollsForAny(keys, requester, who, bound) == a + b;
    }
  }

  /** No roll is lost: the members' shares add up to all the rolls. */
  lemma SharesAddUp(keys: set<string>, requester: string, bound: nat)
    requires keys - {requester} != {}
    ensures TotalRolls(keys, requester, Others(keys, requester), bound) == bound
  {
    hide Choose;
    var others := Others(keys, requester);
    TotalIsUnion(keys, requester, others, bound);
    EveryRollChooses(keys, requester, bound);
  }

  lemma EachRollChooses(keys: set<string>, requester: string, roll: nat)
    requires keys - {requester} != {}
    ensures Choose(keys, requester, roll).Some? && Choose(keys, requester, roll).value in Others(keys, requester)
  {
  }

  lemma {:induction false} EveryRollChooses(keys: set<string>, requester: string, bound: nat)
    requires keys - {requester} != {}
    ensures |RollsForAny(keys, requester, Others(keys, requester), bound)| == bound
  {
    hide Choose;
    hide Others;
    var others := Others(keys, requester);
    if bound == 0 {
      assert RollsForAny(keys, requester, others, 0) == {};
    } else {
      EveryRollChooses(keys, requester, bound - 1);
      EachRollChooses(keys, requester, bound - 1);
      assert RollsForAny(keys, requester, others, bound) == RollsForAny(keys, requester, others, bound - 1) + {bound - 1};
    }
  }
}
