/**
 * Ledgers keyed by account, as Solidity `mapping(address => uint256)` keeps them:
 * an absent key reads as zero. Amounts are wei or token base units.
 */
module Balances {
  import opened Common

  type Ledger = map<Address, nat>

  /** Solidity's mapping read: a key never written holds 0. */
  function Get(m: Ledger, a: Address): nat
  {
    if a in m then m[a] else 0
  }

  /** Some element of a non-empty set of accounts. */
  ghost function Pick(s: set<Address>): (a: Address)
    requires s != {}
    ensures a in s
  {
    var a :| a in s; a
  }

  /** The total held by the accounts in `keys`. */
  ghost function SumOver(m: Ledger, keys: set<Address>): nat
    requires keys <= m.Keys
    decreases keys
  {
    if keys == {} then 0
    else
      var a := Pick(keys);
      m[a] + SumOver(m, keys - {a})
  }

  /** The total held in a ledger. */
  ghost function Sum(m: Ledger): nat
  {
    SumOver(m, m.Keys)
  }

  /** Taking one account out of the summed set removes exactly its amount, whichever account Pick chose. */
  lemma {:induction false} SumOverRemove(m: Ledger, keys: set<Address>, a: Address)
    requires keys <= m.Keys && a in keys
    ensures SumOver(m, keys) == m[a] + SumOver(m, keys - {a})
    decreases keys
  {
    var b := Pick(keys);
    if b != a {
      assert (keys - {b}) - {a} == (keys - {a}) - {b};
      SumOverRemove(m, keys - {b}, a);
      SumOverRemove(m, keys - {a}, b);
    }
  }

  /** The total over `keys` depends only on the amounts held by those accounts. */
  lemma {:induction false} SumOverAgree(m: Ledger, m': Ledger, keys: set<Address>)
    requires keys <= m.Keys && keys <= m'.Keys
    requires forall k :: k in keys ==> m[k] == m'[k]
    ensures SumOver(m, keys) == SumOver(m', keys)
    decreases keys
  {
    if keys != {} {
      var a := Pick(keys);
      SumOverAgree(m, m', keys - {a});
    }
  }

  /** Overwriting one entry changes the total by the difference between the new and the old amount. */
  lemma SumUpdate(m: Ledger, a: Address, v: nat)
    ensures Sum(m[a := v]) + Get(m, a) == Sum(m) + v
  {
    var m' := m[a := v];
    var rest := m.Keys - {a};
    assert m'.Keys - {a} == rest;
    SumOverRemove(m', m'.Keys, a);
    SumOverAgree(m, m', rest);
    if a in m {
      SumOverRemove(m, m.Keys, a);
    } else {
      assert m.Keys == rest;
    }
  }

  /** No single account holds more than the whole ledger. */
  lemma GetAtMostSum(m: Ledger, a: Address)
    ensures Get(m, a) <= Sum(m)
  {
    if a in m {
      SumOverRemove(m, m.Keys, a);
    }
  }

  /** Adds `x` to the balance of `a`. */
  function Credit(m: Ledger, a: Address, x: nat): (r: Ledger)
    ensures Get(r, a) == Get(m, a) + x
    ensures forall b :: b != a ==> Get(r, b) == Get(m, b)
    ensures Sum(r) == Sum(m) + x
  {
    SumUpdate(m, a, Get(m, a) + x);
    m[a := Get(m, a) + x]
  }

  /** Sets the balance of `a` to zero. */
  function Zeroed(m: Ledger, a: Address): (r: Ledger)
    ensures Get(r, a) == 0
    ensures forall b :: b != a ==> Get(r, b) == Get(m, b)
    ensures Sum(r) + Get(m, a) == Sum(m)
  {
    SumUpdate(m, a, 0);
    m[a := 0]
  }

  /**
   * Moves `x` from `from` to `to`, as an ERC-20 transfer does once the sender's
   * balance has been checked. A transfer to oneself changes nothing.
   */
  function Moved(m: Ledger, from: Address, to: Address, x: nat): (r: Ledger)
    requires x <= Get(m, from)
    ensures from != to ==> Get(r, from) == Get(m, from) - x && Get(r, to) == Get(m, to) + x
    ensures from == to ==> Get(r, from) == Get(m, from)
    ensures forall b :: b != from && b != to ==> Get(r, b) == Get(m, b)
    ensures Sum(r) == Sum(m)
  {
    var m1 := m[from := Get(m, from) - x];
    SumUpdate(m, from, Get(m, from) - x);
    assert Get(m1, to) == if from == to then Get(m, from) - x else Get(m, to);
    Credit(m1, to, x)
  }
}
