/**
 * The crowdfunding contract as its test suite drives it: contributors send
 * ETH, which is recorded per contributor; after the deadline `execute`
 * either forwards everything to the funding recipient (enough was raised) or
 * opens withdrawals (not enough), after which each contributor can take back
 * exactly what they put in.
 *
 * Amounts are wei. Block time is the `now` parameter. Gas is not modelled:
 * balances are net of gas.
 */
module CrowdFunding {
  import opened Common
  import opened Balances

  const MilliEther: nat := 1_000_000_000_000_000

  /** What the contract logs. */
  datatype Event = Contribution(contributor: Address, amount: nat)

  /** The custom errors a call can revert with. */
  datatype CrowdFundError =
    | NotOpenToWithdraw
    | TooEarly
    | TransferFailed(to: Address, amount: nat)

  /** `timeLeft()` at block time `now`: the seconds until `deadline`, and 0 once it has passed. */
  function TimeLeftAt(deadline: int, now: int): (r: nat)
    ensures r == 0 <==> deadline <= now
    ensures r > 0 ==> now + r == deadline
  {
    if now >= deadline then 0 else deadline - now
  }

  /**
   * As time moves on, `timeLeft()` falls by the time elapsed until it reaches
   * 0: strictly while the deadline is ahead, never below 0.
   */
  lemma TimeLeftDecreases(deadline: int, t1: int, t2: int)
    requires t1 <= t2
    ensures TimeLeftAt(deadline, t2) == if TimeLeftAt(deadline, t1) >= t2 - t1 then TimeLeftAt(deadline, t1) - (t2 - t1) else 0
    ensures t1 < t2 && t1 < deadline ==> TimeLeftAt(deadline, t2) < TimeLeftAt(deadline, t1)
  {
  }

  /** The contract that receives the funds when the campaign succeeds. */
  class FundingRecipient {
    /** Set by `complete()`. */
    var completed: bool
    /** The wei this contract holds. */
    var balance: nat

    constructor ()
      ensures !completed && balance == 0
    {
      completed := false;
      balance := 0;
    }

    /** `complete{value: value}()`: accepts the funds and records completion. */
    method Complete(value: nat)
      modifies this
      ensures completed && balance == old(balance) + value
    {
      completed := true;
      balance := balance + value;
    }
  }

  class CrowdFund {
    const recipient: FundingRecipient
    const threshold: nat
    const deadline: int

    /** `balances(address)`: what each contributor has put in and not taken back. */
    var balances: Ledger
    var openToWithdraw: bool
    /** The wei the contract holds. */
    var ethBalance: nat
    /** The events logged so far, oldest first. */
    var events: seq<Event>

    /** Per contributor: everything ever contributed, and everything ever paid back. */
    ghost var contributed: Ledger
    ghost var withdrawn: Ledger
    /** Everything ever forwarded to the recipient. */
    ghost var forwarded: nat

    /**
     * Accounting: each contributor's recorded balance is what they put in
     * less what they were paid back, and the wei held plus the wei forwarded
     * is the sum of the recorded balances.
     */
    ghost predicate Valid()
      reads this
    {
      && (forall a :: Get(withdrawn, a) + Get(balances, a) == Get(contributed, a))
      && ethBalance + forwarded == Sum(balances)
    }

    /**
     * Deployment at block time `now`: the deadline is `duration` seconds
     * away. The threshold and the duration are constants of the contract;
     * the tests pin them only loosely (1 ETH meets the threshold, 0.001 ETH
     * does not; 72 hours pass the deadline).
     */
    constructor (recipient: FundingRecipient, threshold: nat, now: int, duration: nat)
      requires 0 < duration
      ensures this.recipient == recipient && this.threshold == threshold && deadline == now + duration
      ensures balances == map[] && !openToWithdraw && ethBalance == 0 && events == []
      ensures contributed == map[] && withdrawn == map[] && forwarded == 0
      ensures Valid()
    {
      this.recipient := recipient;
      this.threshold := threshold;
      deadline := now + duration;
      balances := map[];
      openToWithdraw := false;
      ethBalance := 0;
      events := [];
      contributed := map[];
      withdrawn := map[];
      forwarded := 0;
    }

    /** The `balances(address)` getter. */
    function BalanceOf(a: Address): nat
      reads this
    {
      Get(balances, a)
    }

    /** `timeLeft()` at block time `now`. */
    function TimeLeft(now: int): nat
    {
      TimeLeftAt(deadline, now)
    }

    /**
     * `contribute{value: amount}()` from `caller`: the caller's balance and
     * the contract's ETH both grow by `amount`, nobody else's balance moves,
     * and exactly one `Contribution(caller, amount)` is logged.
     */
    method Contribute(caller: Address, amount: nat)
      requires Valid()
      modifies this
      ensures Valid()
      ensures balances == Credit(old(balances), caller, amount)
      ensures ethBalance == old(ethBalance) + amount
      ensures events == old(events) + [Contribution(caller, amount)]
      ensures openToWithdraw == old(openToWithdraw)
      ensures contributed == Credit(old(contributed), caller, amount)
      ensures withdrawn == old(withdrawn) && forwarded == old(forwarded)
    {
      balances := Credit(balances, caller, amount);
      ethBalance := ethBalance + amount;
      events := events + [Contribution(caller, amount)];
      contributed := Credit(contributed, caller, amount);
    }

    /** Plain ETH sent to the contract's address counts as a contribution from the sender. */
    method Receive(sender: Address, amount: nat)
      requires Valid()
      modifies this
      ensures Valid()
      ensures balances == Credit(old(balances), sender, amount)
      ensures ethBalance == old(ethBalance) + amount
      ensures events == old(events) + [Contribution(sender, amount)]
      ensures openToWithdraw == old(openToWithdraw)
      ensures contributed == Credit(old(contributed), sender, amount)
      ensures withdrawn == old(withdrawn) && forwarded == old(forwarded)
    {
      Contribute(sender, amount);
    }

    /**
     * `withdraw()` from `caller`. Reverts with `NotOpenToWithdraw` unless
     * withdrawals are open. Otherwise pays the caller their whole recorded
     * balance and sets it to 0, so a second call pays 0. `callerAccepts` says
     * whether the caller's account takes the ETH; if it does not, or the
     * contract no longer holds that much, the call reverts.
     */
    method Withdraw(caller: Address, callerAccepts: bool) returns (r: Result<nat, CrowdFundError>)
      requires Valid()
      modifies this
      ensures Valid()
      ensures !old(openToWithdraw) ==> r == Err(NotOpenToWithdraw)
      ensures old(openToWithdraw) && callerAccepts && old(BalanceOf(caller)) <= old(ethBalance) ==>
        r == Ok(old(BalanceOf(caller)))
      ensures old(openToWithdraw) && !(callerAccepts && old(BalanceOf(caller)) <= old(ethBalance)) ==>
        r == Err(TransferFailed(caller, old(BalanceOf(caller))))
      ensures r.Err? ==> unchanged(this)
      ensures r.Ok? ==>
        && balances == Zeroed(old(balances), caller)
        && ethBalance == old(ethBalance) - r.value
        && openToWithdraw && events == old(events)
        && withdrawn == Credit(old(withdrawn), caller, r.value)
        && contributed == old(contributed) && forwarded == old(forwarded)
      ensures Get(withdrawn, caller) <= Get(contributed, caller)
    {
      if !openToWithdraw {
        return Err(NotOpenToWithdraw);
      }
      var amount := Get(balances, caller);
      if !callerAccepts || amount > ethBalance {
        return Err(TransferFailed(caller, amount));
      }
      // The balance is cleared before the ETH leaves.
      balances := Zeroed(balances, caller);
      ethBalance := ethBalance - amount;
      withdrawn := Credit(withdrawn, caller, amount);
      r := Ok(amount);
    }

    /**
     * A campaign that has not forwarded anything always holds what its
     * contributors are owed, so an open withdrawal to an account that takes
     * ETH pays the caller's whole balance.
     */
    lemma HoldsEveryBalance(a: Address)
      requires Valid() && forwarded == 0
      ensures BalanceOf(a) <= ethBalance
    {
      GetAtMostSum(balances, a);
    }

    /**
     * `execute()` at block time `now`. Before the deadline it reverts with
     * `TooEarly`. After it, if the contract holds at least the threshold,
     * all of it goes to the recipient through `complete()`; otherwise
     * withdrawals open and nothing moves.
     */
    method Execute(now: int) returns (r: Outcome<CrowdFundError>)
      requires Valid()
      modifies this, recipient
      ensures Valid()
      ensures r.Fail? <==> now < deadline
      ensures r.Fail? ==> r.error == TooEarly && unchanged(this) && unchanged(recipient)
      ensures r.Pass? && old(ethBalance) >= threshold ==>
        && recipient.completed
        && recipient.balance == old(recipient.balance) + old(ethBalance)
        && ethBalance == 0
        && openToWithdraw == old(openToWithdraw)
        && forwarded == old(forwarded) + old(ethBalance)
      ensures r.Pass? && old(ethBalance) < threshold ==>
        && openToWithdraw
        && unchanged(recipient)
        && ethBalance == old(ethBalance)
        && forwarded == old(forwarded)
      ensures balances == old(balances) && events == old(events)
      ensures contributed == old(contributed) && withdrawn == old(withdrawn)
    {
      if now < deadline {
        return Fail(TooEarly);
      }
      if ethBalance >= threshold {
        var amount := ethBalance;
        ethBalance := 0;
        forwarded := forwarded + amount;
        recipient.Complete(amount);
      } else {
        openToWithdraw := true;
      }
      r := Pass;
    }

    /**
     * The test fixture's storage write that turns `openToWithdraw` on
     * without going through `execute()`.
     */
    method SetOpenToWithdraw()
      requires Valid()
      modifies this
      ensures Valid()
      ensures openToWithdraw
      ensures balances == old(balances) && ethBalance == old(ethBalance) && events == old(events)
      ensures contributed == old(contributed) && withdrawn == old(withdrawn) && forwarded == old(forwarded)
    {
      openToWithdraw := true;
    }
  }

  // ---------------------------------------------------------------------------
  // The checkpoints of the test suite, replayed on the model
  // ---------------------------------------------------------------------------

  method ContributionsScenario(owner: Address, second: Address)
    requires owner != second
  {
    var fr := new FundingRecipient();
    var cf := new CrowdFund(fr, Ether, 0, 3600);
    cf.Contribute(owner, MilliEther);
    assert cf.BalanceOf(owner) == MilliEther && cf.ethBalance == MilliEther;
    assert cf.events == [Contribution(owner, MilliEther)];
    cf.Contribute(owner, 2 * MilliEther);
    cf.Contribute(second, 2 * MilliEther);
    assert cf.BalanceOf(owner) == 3 * MilliEther;
    assert cf.BalanceOf(second) == 2 * MilliEther;
    cf.Receive(second, MilliEther);
    assert cf.BalanceOf(second) == 3 * MilliEther;
  }

  method WithdrawScenario(contributor: Address)
  {
    var fr := new FundingRecipient();
    var cf := new CrowdFund(fr, Ether, 0, 3600);
    var early := cf.Withdraw(contributor, true);
    assert early == Err(NotOpenToWithdraw);
    cf.Contribute(contributor, MilliEther);
    cf.SetOpenToWithdraw();
    var first := cf.Withdraw(contributor, true);
    assert first == Ok(MilliEther) && cf.BalanceOf(contributor) == 0;
    var second := cf.Withdraw(contributor, true);
    assert second == Ok(0);
  }

  method ExecuteScenario(contributor: Address, threshold: nat, duration: nat)
    requires MilliEther < threshold <= Ether && 0 < duration <= 72 * 3600
  {
    var fr := new FundingRecipient();
    var cf := new CrowdFund(fr, threshold, 0, duration);
    assert cf.TimeLeft(0) > 0;
    var early := cf.Execute(0);
    assert early == Fail(TooEarly);
    assert cf.TimeLeft(5) < cf.TimeLeft(0);
    cf.Contribute(contributor, Ether);
    assert cf.TimeLeft(72 * 3600) == 0;
    var done := cf.Execute(72 * 3600);
    assert fr.completed && fr.balance == Ether && cf.ethBalance == 0;

    var fr2 := new FundingRecipient();
    var cf2 := new CrowdFund(fr2, threshold, 0, duration);
    cf2.Contribute(contributor, MilliEther);
    var resolved := cf2.Execute(72 * 3600);
    assert !fr2.completed && cf2.openToWithdraw;
    cf2.HoldsEveryBalance(contributor);
    var refund := cf2.Withdraw(contributor, true);
    assert refund == Ok(MilliEther);
  }
}
