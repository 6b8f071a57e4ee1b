/**
 * The token vendor: sells the token for ETH at a fixed rate, buys it back at
 * the same rate, and lets its owner take the ETH it has collected.
 *
 * Amounts are wei and token base units. Whether an account accepts ETH is a
 * parameter (`...Accepts`). A call that reverts leaves every state
 * unchanged, so the model decides the outcome before it writes anything.
 */
module TokenVendor {
  import opened Common
  import opened Balances
  import opened Token

  /** `tokensPerEth()`. */
  const TokensPerEth: nat := 100

  /** Token base units bought with `value` wei. */
  function TokensFor(value: nat): (tokens: nat)
    ensures tokens % TokensPerEth == 0 && tokens / TokensPerEth == value
  {
    value * TokensPerEth
  }

  /** Wei paid back for `tokens` base units: whole wei only, rounded down. */
  function EthFor(tokens: nat): (value: nat)
    ensures TokensFor(value) <= tokens < TokensFor(value) + TokensPerEth
  {
    tokens / TokensPerEth
  }

  /** Selling what was bought returns exactly the ETH paid. */
  lemma SellAfterBuy(value: nat)
    ensures EthFor(TokensFor(value)) == value
  {
  }

  /** Buying with what a sale paid gets back the tokens sold, exactly when they were a multiple of the rate. */
  lemma BuyAfterSell(tokens: nat)
    ensures TokensFor(EthFor(tokens)) <= tokens
    ensures TokensFor(EthFor(tokens)) == tokens <==> tokens % TokensPerEth == 0
  {
  }

  /** What the vendor logs. */
  datatype VendorEvent =
    | BuyTokens(buyer: Address, amountOfEth: nat, amountOfTokens: nat)
    | SellTokens(seller: Address, amountOfTokens: nat, amountOfEth: nat)

  /** The custom errors a vendor call can revert with. */
  datatype VendorError =
    | InvalidEthAmount
    | InsufficientVendorTokenBalance(available: nat, required: nat)
    | InvalidTokenAmount
    | InsufficientVendorEthBalance(available: nat, required: nat)
    | EthTransferFailed(to: Address, amount: nat)
    | Unauthorized(account: Address)
    | TokenReverted(cause: TokenError)

  class Vendor {
    const token: YourToken
    /** The vendor's own address. */
    const self: Address
    var owner: Address
    /** The wei the vendor holds. */
    var ethBalance: nat
    var events: seq<VendorEvent>

    /** All wei ever received, and all wei ever paid out. */
    ghost var received: nat
    ghost var paidOut: nat

    /** The token keeps its supply, and the vendor holds what it received less what it paid. */
    ghost predicate Valid()
      reads this, token
    {
      token.Valid() && ethBalance + paidOut == received
    }

    /** Deployment by `deployer`, who becomes the owner. */
    constructor (token: YourToken, self: Address, deployer: Address)
      requires token.Valid()
      ensures this.token == token && this.self == self
      ensures owner == deployer && ethBalance == 0 && events == []
      ensures received == 0 && paidOut == 0
      ensures Valid()
    {
      this.token := token;
      this.self := self;
      owner := deployer;
      ethBalance := 0;
      events := [];
      received := 0;
      paidOut := 0;
    }

    /**
     * `buyTokens{value: value}()` from `buyer`: reverts on 0 wei, and when the
     * vendor holds fewer tokens than the purchase needs; otherwise moves
     * `value * 100` tokens from the vendor to the buyer, keeps the ETH and
     * logs `BuyTokens(buyer, value, value * 100)`.
     */
    method BuyTokens(buyer: Address, value: nat) returns (r: Outcome<VendorError>)
      requires Valid()
      modifies this, token
      ensures Valid()
      ensures value == 0 ==> r == Fail(InvalidEthAmount)
      ensures value > 0 && old(token.BalanceOf(self)) < TokensFor(value) ==>
        r == Fail(InsufficientVendorTokenBalance(old(token.BalanceOf(self)), TokensFor(value)))
      ensures value > 0 && old(token.BalanceOf(self)) >= TokensFor(value) ==> r == Pass
      ensures r.Fail? ==> unchanged(this) && unchanged(token)
      ensures r.Pass? ==>
        && token.balances == Moved(old(token.balances), self, buyer, TokensFor(value))
        && token.allowances == old(token.allowances)
        && ethBalance == old(ethBalance) + value
        && events == old(events) + [VendorEvent.BuyTokens(buyer, value, TokensFor(value))]
        && owner == old(owner)
        && received == old(received) + value && paidOut == old(paidOut)
    {
      if value == 0 {
        return Fail(InvalidEthAmount);
      }
      var amountOfTokens := TokensFor(value);
      var vendorBalance := token.BalanceOf(self);
      if vendorBalance < amountOfTokens {
        return Fail(InsufficientVendorTokenBalance(vendorBalance, amountOfTokens));
      }
      var sent := token.Transfer(self, buyer, amountOfTokens);
      assert sent == Pass;
      ethBalance := ethBalance + value;
      received := received + value;
      events := events + [VendorEvent.BuyTokens(buyer, value, amountOfTokens)];
      r := Pass;
    }

    /**
     * `sellTokens(amount)` from `seller`: reverts on 0 tokens, when the
     * vendor holds less than `amount / 100` wei, when the token refuses the
     * `transferFrom` (missing allowance or balance), and when the seller does
     * not accept ETH; otherwise takes the tokens, pays `amount / 100` wei and
     * logs `SellTokens(seller, amount, amount / 100)`.
     */
    method SellTokens(seller: Address, amount: nat, sellerAccepts: bool) returns (r: Outcome<VendorError>)
      requires Valid()
      modifies this, token
      ensures Valid()
      ensures amount == 0 ==> r == Fail(InvalidTokenAmount)
      ensures amount > 0 && old(ethBalance) < EthFor(amount) ==>
        r == Fail(InsufficientVendorEthBalance(old(ethBalance), EthFor(amount)))
      ensures amount > 0 && old(ethBalance) >= EthFor(amount) && old(token.TransferFromError(self, seller, amount)).Some? ==>
        r == Fail(TokenReverted(old(token.TransferFromError(self, seller, amount)).value))
      ensures amount > 0 && old(ethBalance) >= EthFor(amount) && old(token.TransferFromError(self, seller, amount)).None? ==>
        r == if sellerAccepts then Pass else Fail(EthTransferFailed(seller, EthFor(amount)))
      ensures r.Fail? ==> unchanged(this) && unchanged(token)
      ensures r.Pass? ==>
        && token.balances == Moved(old(token.balances), seller, self, amount)
        && token.allowances == old(token.allowances)[(seller, self) := old(token.Allowance(seller, self)) - amount]
        && token.Allowance(seller, self) == old(token.Allowance(seller, self)) - amount
        && ethBalance == old(ethBalance) - EthFor(amount)
        && events == old(events) + [VendorEvent.SellTokens(seller, amount, EthFor(amount))]
        && owner == old(owner)
        && received == old(received) && paidOut == old(paidOut) + EthFor(amount)
    {
      if amount == 0 {
        return Fail(InvalidTokenAmount);
      }
      var amountOfEth := EthFor(amount);
      if ethBalance < amountOfEth {
        return Fail(InsufficientVendorEthBalance(ethBalance, amountOfEth));
      }
      var refused := token.TransferFromError(self, seller, amount);
      if refused.Some? {
        return Fail(TokenReverted(refused.value));
      }
      if !sellerAccepts {
        return Fail(EthTransferFailed(seller, amountOfEth));
      }
      var moved := token.TransferFrom(self, seller, self, amount);
      assert moved == Pass;
      ethBalance := ethBalance - amountOfEth;
      paidOut := paidOut + amountOfEth;
      events := events + [VendorEvent.SellTokens(seller, amount, amountOfEth)];
      r := Pass;
    }

    /**
     * `withdraw()` from `caller`: only the owner may call it; sends the
     * vendor's whole ETH balance to the owner and returns the amount sent.
     * If the owner does not accept ETH it reverts with
     * `EthTransferFailed(owner, balance)`.
     */
    method Withdraw(caller: Address, ownerAccepts: bool) returns (r: Result<nat, VendorError>)
      requires Valid()
      modifies this
      ensures Valid()
      ensures caller != old(owner) ==> r == Err(Unauthorized(caller))
      ensures caller == old(owner) && !ownerAccepts ==> r == Err(EthTransferFailed(old(owner), old(ethBalance)))
      ensures caller == old(owner) && ownerAccepts ==> r == Ok(old(ethBalance))
      ensures r.Err? ==> unchanged(this)
      ensures r.Ok? ==>
        && ethBalance == 0 && owner == old(owner) && events == old(events)
        && received == old(received) && paidOut == old(paidOut) + r.value
    {
      if caller != owner {
        return Err(Unauthorized(caller));
      }
      var amount := ethBalance;
      if !ownerAccepts {
        return Err(EthTransferFailed(owner, amount));
      }
      ethBalance := 0;
      paidOut := paidOut + amount;
      r := Ok(amount);
    }

    /** `transferOwnership(newOwner)` from `caller`: only the owner may hand the vendor over. */
    method TransferOwnership(caller: Address, newOwner: Address) returns (r: Outcome<VendorError>)
      requires Valid()
      modifies this
      ensures Valid()
      ensures caller != old(owner) ==> r == Fail(Unauthorized(caller)) && unchanged(this)
      ensures caller == old(owner) ==> r == Pass && owner == newOwner
      ensures ethBalance == old(ethBalance) && events == old(events)
      ensures received == old(received) && paidOut == old(paidOut)
    {
      if caller != owner {
        return Fail(Unauthorized(caller));
      }
      owner := newOwner;
      r := Pass;
    }
  }

  // ---------------------------------------------------------------------------
  // The checkpoints of the test suite, replayed on the model
  // ---------------------------------------------------------------------------

  method BuyScenario(deployer: Address, user: Address, vendorAddress: Address)
    requires deployer != user && deployer != vendorAddress && user != vendorAddress
  {
    var t := new YourToken(deployer);
    var v := new Vendor(t, vendorAddress, deployer);
    var none := v.BuyTokens(deployer, 0);
    assert none == Fail(InvalidEthAmount);
    var empty := v.BuyTokens(deployer, Ether);
    assert empty == Fail(InsufficientVendorTokenBalance(0, 100 * Ether));
    var seeded := t.Transfer(deployer, vendorAddress, InitialSupply);
    var bought := v.BuyTokens(user, Ether / 10);
    assert bought == Pass;
    assert t.BalanceOf(user) == 10 * Ether;
    assert v.events == [VendorEvent.BuyTokens(user, Ether / 10, 10 * Ether)];
  }

  method WithdrawScenario(deployer: Address, user: Address, vendorAddress: Address)
    requires deployer != user && deployer != vendorAddress && user != vendorAddress
  {
    var t := new YourToken(deployer);
    var v := new Vendor(t, vendorAddress, deployer);
    assert v.owner == deployer;
    var stranger := v.Withdraw(user, true);
    assert stranger.Err?;
    var seeded := t.Transfer(deployer, vendorAddress, InitialSupply);
    var bought := v.BuyTokens(user, Ether / 10);
    var handed := v.TransferOwnership(deployer, vendorAddress);
    var refused := v.Withdraw(vendorAddress, false);
    assert refused == Err(EthTransferFailed(vendorAddress, Ether / 10));
    var back := v.TransferOwnership(vendorAddress, deployer);
    var paid := v.Withdraw(deployer, true);
    assert paid == Ok(Ether / 10) && v.ethBalance == 0;
  }

  method SellRejectedScenario(deployer: Address, user: Address, vendorAddress: Address)
    requires deployer != user && deployer != vendorAddress && user != vendorAddress
  {
    var t := new YourToken(deployer);
    var v := new Vendor(t, vendorAddress, deployer);
    var zero := v.SellTokens(user, 0, true);
    assert zero == Fail(InvalidTokenAmount);
    var given := t.Transfer(deployer, user, 10 * Ether);
    t.Approve(user, vendorAddress, 10 * Ether);
    var dry := v.SellTokens(user, 10 * Ether, true);
    assert dry == Fail(InsufficientVendorEthBalance(0, Ether / 10));
  }

  method SellScenario(deployer: Address, user: Address, vendorAddress: Address)
    requires deployer != user && deployer != vendorAddress && user != vendorAddress
  {
    var t := new YourToken(deployer);
    var v := new Vendor(t, vendorAddress, deployer);
    var seeded := t.Transfer(deployer, vendorAddress, InitialSupply);
    var bought := v.BuyTokens(user, Ether / 10);
    assert t.BalanceOf(user) == 10 * Ether;
    t.Approve(user, vendorAddress, 10 * Ether);
    var sold := v.SellTokens(user, 10 * Ether, true);
    assert sold == Pass;
    assert v.events[|v.events| - 1] == VendorEvent.SellTokens(user, 10 * Ether, Ether / 10);
  }
}
