/**
 * The fixed-supply ERC-20 token sold by the vendor: the deployer receives
 * the whole supply; holders move tokens with `transfer`, and let another
 * account move them with `approve` followed by `transferFrom` (the methods
 * of the ERC-20 standard, EIP-20).
 */
module Token {
  import opened Common
  import opened Balances

  /** 1000 tokens of 18 decimals, in base units. */
  const InitialSupply: nat := 1000 * 1_000_000_000_000_000_000

  /** Why a token call reverts. */
  datatype TokenError =
    | InsufficientBalance(sender: Address, balance: nat, needed: nat)
    | InsufficientAllowance(spender: Address, allowance: nat, needed: nat)

  type Allowances = map<(Address, Address), nat>

  function AllowanceIn(m: Allowances, owner: Address, spender: Address): nat
  {
    if (owner, spender) in m then m[(owner, spender)] else 0
  }

  class YourToken {
    const totalSupply: nat
    /** `balanceOf(address)`. */
    var balances: Ledger
    /** `allowance(owner, spender)`, keyed by the pair. */
    var allowances: Allowances

    /** No token is created or destroyed after deployment. */
    ghost predicate Valid()
      reads this
    {
      Sum(balances) == totalSupply
    }

    /** Deployment mints the whole supply to the deployer. */
    constructor (deployer: Address)
      ensures totalSupply == InitialSupply
      ensures balances == map[deployer := InitialSupply] && allowances == map[]
      ensures Valid()
    {
      totalSupply := InitialSupply;
      balances := map[deployer := InitialSupply];
      allowances := map[];
      SumUpdate(map[], deployer, InitialSupply);
    }

    function BalanceOf(a: Address): nat
      reads this
    {
      Get(balances, a)
    }

    function Allowance(owner: Address, spender: Address): nat
      reads this
    {
      AllowanceIn(allowances, owner, spender)
    }

    /**
     * Why `transferFrom(from, ..., amount)` called by `spender` would revert,
     * if it would: the allowance is checked before the balance.
     */
    function TransferFromError(spender: Address, from: Address, amount: nat): Option<TokenError>
      reads this
    {
      if Allowance(from, spender) < amount then Some(InsufficientAllowance(spender, Allowance(from, spender), amount))
      else if BalanceOf(from) < amount then Some(InsufficientBalance(from, BalanceOf(from), amount))
      else None
    }

    /**
     * `transfer(to, amount)` from `sender`: moves `amount` from the sender to
     * `to`, and reverts when the sender holds less.
     */
    method Transfer(sender: Address, to: Address, amount: nat) returns (r: Outcome<TokenError>)
      requires Valid()
      modifies this
      ensures Valid()
      ensures r.Fail? <==> old(BalanceOf(sender)) < amount
      ensures r.Fail? ==> r.error == InsufficientBalance(sender, old(BalanceOf(sender)), amount) && unchanged(this)
      ensures r.Pass? ==> balances == Moved(old(balances), sender, to, amount) && allowances == old(allowances)
    {
      if Get(balances, sender) < amount {
        return Fail(InsufficientBalance(sender, Get(balances, sender), amount));
      }
      balances := Moved(balances, sender, to, amount);
      r := Pass;
    }

    /** `approve(spender, amount)` from `owner`: sets the allowance, replacing the old one. */
    method Approve(owner: Address, spender: Address, amount: nat)
      requires Valid()
      modifies this
      ensures Valid()
      ensures allowances == old(allowances)[(owner, spender) := amount]
      ensures balances == old(balances)
    {
      allowances := allowances[(owner, spender) := amount];
    }

    /**
     * `transferFrom(from, to, amount)` called by `spender`: spends that much
     * of the allowance `from` gave `spender`, then moves the tokens.
     */
    method TransferFrom(spender: Address, from: Address, to: Address, amount: nat) returns (r: Outcome<TokenError>)
      requires Valid()
      modifies this
      ensures Valid()
      ensures r.Fail? <==> old(TransferFromError(spender, from, amount)).Some?
      ensures r.Fail? ==> r.error == old(TransferFromError(spender, from, amount)).value && unchanged(this)
      ensures r.Pass? ==>
        && balances == Moved(old(balances), from, to, amount)
        && allowances == old(allowances)[(from, spender) := old(Allowance(from, spender)) - amount]
    {
      var allowed := AllowanceIn(allowances, from, spender);
      if allowed < amount {
        return Fail(InsufficientAllowance(spender, allowed, amount));
      }
      if Get(balances, from) < amount {
        return Fail(InsufficientBalance(from, Get(balances, from), amount));
      }
      allowances := allowances[(from, spender) := allowed - amount];
      balances := Moved(balances, from, to, amount);
      r := Pass;
    }
  }

  /** Checkpoint 1: the supply and a transfer from the deployer. */
  method TokenScenario(deployer: Address, user: Address)
    requires deployer != user
  {
    var t := new YourToken(deployer);
    assert t.totalSupply == InitialSupply && t.BalanceOf(deployer) == InitialSupply;
    var amount := 10 * 1_000_000_000_000_000_000;
    var r := t.Transfer(deployer, user, amount);
    assert r == Pass;
    assert t.BalanceOf(user) == amount && t.BalanceOf(deployer) == InitialSupply - amount;
  }
}
