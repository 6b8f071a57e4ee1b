# Crowdfunding and Token Vendor, modelled in Dafny

This project models two Ethereum challenge apps from speedrun-ethereum. Each is modelled through the behaviour its hardhat test suite requires:

- **CrowdFund.** Anyone contributes ETH, through `contribute()` or by sending ETH directly. Each contributor's balance is tracked. After the deadline, `execute()` does one of two things:
  - if the threshold was met, it forwards the whole pot to a `FundingRecipient` (`complete{value}()`);
  - otherwise it opens withdrawals, and each contributor takes back exactly their own balance.
  
  The contract also reports `timeLeft()` until the deadline.
- **The test harness's storage codec.** `hexToBytes32` and `bytes32ToHex` turn a 32-byte storage word from hex text into a list of 32 byte values and back. `hexToBytes32` is built on JavaScript's `parseInt(s, 16)`, which is modelled exactly for the integers a double represents exactly (up to 2^53); above that the model keeps the exact value, where JavaScript rounds it.
- **YourToken.** A fixed-supply ERC-20 token (EIP-20): 1000 tokens with 18 decimals, all minted to the deployer. It provides `transfer`, `approve` and `transferFrom`.
- **Vendor.** An owned shop for the token:
  - `buyTokens()` sells 100 tokens per ETH from the vendor's own stock;
  - `sellTokens(amount)` buys them back at the same rate, through an allowance;
  - `withdraw()` lets the owner take all the collected ETH.

How the model is built:

- Each contract is a `class`, because calls update contract storage in place.
- Token ledgers are `map`s from addresses to amounts. Their ghost total is preserved by every transfer.
- A call that reverts leaves every state unchanged. Each method therefore decides its outcome (a `Result`/`Outcome` carrying the custom error) before it writes anything.
- Block time is a `now` parameter.
- Whether a recipient accepts ETH is a boolean parameter.

Files:

- `common.dfy` — addresses, the ether unit, `Option`, `Outcome` and `Result`.
- `balances.dfy` — ledgers, their total, and the credit/zero/move updates.
- `hex32.dfy` — the hex codec and `parseInt`.
- `crowd_fund.dfy` — `CrowdFund` and `FundingRecipient`.
- `your_token.dfy` — the token.
- `vendor.dfy` — the vendor and its conversion rate.

`crowd_fund.dfy`, `your_token.dfy` and `vendor.dfy` each end with methods that replay the test suite's checkpoints on the model.

## Model

| member | source | states |
|---|---|---|
| Balances.Credit | crowd-funding/challenge-crowdfunding/packages/hardhat/test/CrowdFund.ts:80-92 | a contribution raises the contributor's balance by the amount, leaves every other balance alone, and raises the ledger total by the amount |
| Balances.Zeroed | crowd-funding/challenge-crowdfunding/packages/hardhat/test/CrowdFund.ts:204-227 | a full withdrawal sets one balance to zero, leaves the others alone, and lowers the total by exactly the old balance |
| Balances.Moved | challenge-token-vendor/packages/hardhat/test/Vendor.ts:60-68 | a transfer lowers the sender by the amount and raises the receiver by it (no change when they coincide), leaves other holders alone, and keeps the total supply |
| CrowdFunding.TimeLeftAt | crowd-funding/challenge-crowdfunding/packages/hardhat/test/CrowdFund.ts:264-274 | time left is 0 exactly when the deadline has passed, and otherwise is the distance from now to the deadline |
| CrowdFunding.TimeLeftDecreases | crowd-funding/challenge-crowdfunding/packages/hardhat/test/CrowdFund.ts:264-274 | moving time forward by d lowers time left by d, never below 0; before the deadline it strictly decreases |
| CrowdFunding.FundingRecipient.constructor | crowd-funding/challenge-crowdfunding/packages/hardhat/test/CrowdFund.ts:23-29 | a fresh recipient is not completed and holds no ETH |
| CrowdFunding.FundingRecipient.Complete | crowd-funding/challenge-crowdfunding/packages/hardhat/test/CrowdFund.ts:297-307 | `complete{value}` marks the recipient completed and adds the value to its ETH balance |
| CrowdFunding.CrowdFund.constructor | crowd-funding/challenge-crowdfunding/packages/hardhat/test/CrowdFund.ts:23-29 | deployment records the recipient, threshold and deadline (now + duration), with no balances, no ETH, no events and withdrawals closed |
| CrowdFunding.CrowdFund.Contribute | crowd-funding/challenge-crowdfunding/packages/hardhat/test/CrowdFund.ts:50-115 | the caller's balance grows by the amount and no one else's changes; the contract's ETH grows by the amount; exactly one `Contribution(caller, amount)` is logged; the ledger invariant is kept |
| CrowdFunding.CrowdFund.Receive | crowd-funding/challenge-crowdfunding/packages/hardhat/test/CrowdFund.ts:355-365 | plain ETH sent to the contract has exactly the effect of `contribute()` by the sender |
| CrowdFunding.CrowdFund.Withdraw | crowd-funding/challenge-crowdfunding/packages/hardhat/test/CrowdFund.ts:197-252 | reverts with `NotOpenToWithdraw` while closed; otherwise pays the caller their whole balance and zeroes it, with nothing else changed; a contributor never withdraws more in total than they contributed |
| CrowdFunding.CrowdFund.HoldsEveryBalance | crowd-funding/challenge-crowdfunding/packages/hardhat/test/CrowdFund.ts:311-347 | as long as nothing was forwarded, the contract's ETH covers every contributor's balance, so the withdrawal after a failed campaign is paid |
| CrowdFunding.CrowdFund.Execute | crowd-funding/challenge-crowdfunding/packages/hardhat/test/CrowdFund.ts:260-347 | reverts with `TooEarly` exactly before the deadline; after it, either forwards the whole ETH balance to the recipient via `complete` (threshold met) or opens withdrawals (threshold missed); balances and events are untouched |
| CrowdFunding.CrowdFund.SetOpenToWithdraw | crowd-funding/challenge-crowdfunding/packages/hardhat/test/CrowdFund.ts:123-195 | the harness's storage write sets `openToWithdraw` and changes nothing else |
| Hex32.ParseIntHex | crowd-funding/challenge-crowdfunding/packages/hardhat/test/CrowdFund.ts:150 | `parseInt` in base 16 of the empty string is `NaN`, and of two hex digits is 16 × the first digit's value + the second's |
| Hex32.ParsesHexDigits | crowd-funding/challenge-crowdfunding/packages/hardhat/test/CrowdFund.ts:150 | `parseInt` in base 16 of any non-empty run of hex digits is the number the digits denote |
| Hex32.Normalize | crowd-funding/challenge-crowdfunding/packages/hardhat/test/CrowdFund.ts:147 | stripping the prefix either leaves the word alone or removes a leading `0x`, and always removes it when present |
| Hex32.PadStart | crowd-funding/challenge-crowdfunding/packages/hardhat/test/CrowdFund.ts:148 | `padStart(n, "0")` leaves a string of length at least n alone, and otherwise prefixes the zeros that bring it to length n |
| Hex32.DecodedBytes | crowd-funding/challenge-crowdfunding/packages/hardhat/test/CrowdFund.ts:145-153 | the decoder always yields exactly 32 values, whatever the input |
| Hex32.HexToBytes32 | crowd-funding/challenge-crowdfunding/packages/hardhat/test/CrowdFund.ts:145-153 | the loop over pairs of digits produces, value for value, the parse of each pair of the padded word (the 32-byte specification `DecodedBytes`) |
| Hex32.DecodesWellFormed | crowd-funding/challenge-crowdfunding/packages/hardhat/test/CrowdFund.ts:145-153 | for a word of at most 64 hex digits (with or without 0x), every decoded value is a byte, byte k is the k-th digit pair, and the bytes read big-endian spell the number the hex denotes |
| Hex32.PrefixIsOptional | crowd-funding/challenge-crowdfunding/packages/hardhat/test/CrowdFund.ts:147 | for a string of hex digits, a leading `0x` makes no difference to the decoded bytes |
| Hex32.LeadingZeroIsPadding | crowd-funding/challenge-crowdfunding/packages/hardhat/test/CrowdFund.ts:148 | for fewer than 64 hex digits, an extra leading `0` digit makes no difference to the decoded bytes |
| Hex32.OverlongHexIsTruncated | crowd-funding/challenge-crowdfunding/packages/hardhat/test/CrowdFund.ts:149-151 | the 66-digit input `0x01` followed by 64 zeros passes the length guard and decodes to byte 1 followed by 31 zero bytes, with its last two digits dropped |
| Hex32.HexToBytes32Checked | crowd-funding/challenge-crowdfunding/packages/hardhat/test/CrowdFund.ts:145-153 | rejects exactly the words of more than 64 characters after the optional `0x`; otherwise decodes as the source does, and a well-formed word decodes to 32 bytes spelling its value |
| Hex32.NatToHex | crowd-funding/challenge-crowdfunding/packages/hardhat/test/CrowdFund.ts:157 | `toString(16)` of a natural number is lower-case hex digits that spell the number, with no leading zero; one digit exactly below 16 and at most two below 256 |
| Hex32.ToHexString | crowd-funding/challenge-crowdfunding/packages/hardhat/test/CrowdFund.ts:157 | `toString(16)` prints `NaN` as `NaN`, a non-negative integer as lower-case digits spelling it, and a negative one as `-` followed by digits spelling its magnitude |
| Hex32.ByteToHex | crowd-funding/challenge-crowdfunding/packages/hardhat/test/CrowdFund.ts:157 | `toString(16).padStart(2, "0")` gives at least two characters, and for a byte exactly two lower-case digits, high nibble then low nibble, spelling the byte |
| Hex32.JoinHex | crowd-funding/challenge-crowdfunding/packages/hardhat/test/CrowdFund.ts:157 | `map(...).join("")` gives at least two characters per value |
| Hex32.JoinHexDigits | crowd-funding/challenge-crowdfunding/packages/hardhat/test/CrowdFund.ts:157 | joining bytes gives two digits per byte, the k-th pair spelling byte k |
| Hex32.Bytes32ToHex | crowd-funding/challenge-crowdfunding/packages/hardhat/test/CrowdFund.ts:155-159 | rejects exactly the lists whose length is not 32; otherwise returns `0x`, followed for 32 bytes by 64 lower-case digits, two per byte |
| Hex32.BytesRoundTrip | crowd-funding/challenge-crowdfunding/packages/hardhat/test/CrowdFund.ts:145-159 | decoding the encoding of any 32 bytes gives the bytes back |
| Hex32.HexRoundTrip | crowd-funding/challenge-crowdfunding/packages/hardhat/test/CrowdFund.ts:145-159 | encoding the decoding of a word of at most 64 hex digits gives the word back, padded to 64 digits, in lower case, with `0x` |
| Token.YourToken.constructor | challenge-token-vendor/packages/hardhat/test/Vendor.ts:50-58 | deployment fixes the total supply at 1000 × 10^18 and mints all of it to the deployer |
| Token.YourToken.Transfer | challenge-token-vendor/packages/hardhat/test/Vendor.ts:60-68 | reverts exactly when the sender holds less than the amount, with nothing changed; otherwise moves the amount from sender to receiver and keeps the total supply |
| Token.YourToken.Approve | challenge-token-vendor/packages/hardhat/test/Vendor.ts:199-201 | sets the spender's allowance over the owner's tokens to the amount, replacing the old one, and leaves balances alone |
| Token.YourToken.TransferFrom | challenge-token-vendor/packages/hardhat/test/Vendor.ts:211-239 | reverts exactly when the allowance or then the balance is short, with nothing changed; otherwise spends that much allowance and moves the tokens, keeping the total supply |
| TokenVendor.TokensFor | challenge-token-vendor/packages/hardhat/test/Vendor.ts:86-102 | a purchase of v wei buys a multiple of 100 tokens, namely 100 per wei |
| TokenVendor.EthFor | challenge-token-vendor/packages/hardhat/test/Vendor.ts:203-208 | a sale of t tokens pays the largest whole number of wei whose tokens do not exceed t |
| TokenVendor.SellAfterBuy | challenge-token-vendor/packages/hardhat/test/Vendor.ts:211-220 | selling back the tokens bought with v wei pays exactly v wei |
| TokenVendor.BuyAfterSell | challenge-token-vendor/packages/hardhat/test/Vendor.ts:203-208 | buying with the wei a sale of t tokens pays gives back at most t tokens, and exactly t when t is a multiple of 100 |
| TokenVendor.Vendor.constructor | challenge-token-vendor/packages/hardhat/test/Vendor.ts:117-122 | the deployer is the owner; the vendor starts with no ETH and no events |
| TokenVendor.Vendor.BuyTokens | challenge-token-vendor/packages/hardhat/test/Vendor.ts:79-113 | reverts with `InvalidEthAmount` on 0 wei and with `InsufficientVendorTokenBalance(stock, 100·v)` when the vendor's stock is short, changing nothing; otherwise moves 100·v tokens from the vendor to the buyer, keeps the wei and logs `BuyTokens(buyer, v, 100·v)` |
| TokenVendor.Vendor.Withdraw | challenge-token-vendor/packages/hardhat/test/Vendor.ts:124-184 | rejects any caller but the owner; reverts with `EthTransferFailed(owner, balance)` when the owner cannot receive ETH, changing nothing; otherwise sends the owner the whole ETH balance, leaving 0 |
| TokenVendor.Vendor.TransferOwnership | challenge-token-vendor/packages/hardhat/test/Vendor.ts:167-169 | only the owner can hand the vendor to a new owner; nothing else changes |
| TokenVendor.Vendor.SellTokens | challenge-token-vendor/packages/hardhat/test/Vendor.ts:188-239 | reverts, changing nothing, with `InvalidTokenAmount` on 0 tokens, then with `InsufficientVendorEthBalance(eth, t/100)` when the vendor lacks the wei, then with the token's error when the `transferFrom` is refused, then when the seller cannot receive ETH; otherwise takes the tokens through the allowance (lowering only the seller's allowance for the vendor, by t, every other allowance unchanged), pays t/100 wei and logs `SellTokens(seller, t, t/100)` |

## Left out

- Gas, gas prices and the balance changes of the transaction sender for gas. The tests subtract gas from ETH balances; the model tracks only the contracts' own ETH.
- Block time, mining and `evm_increaseTime` are reduced to the `now` argument of `TimeLeft`/`Execute`.
- The threshold and the campaign duration are deployment arguments. The Solidity contracts that fix them (`CrowdFund.sol`, `FundingRecipient.sol`, `YourToken.sol`, `Vendor.sol`) are not part of this model. The checkpoint replays only assume what the tests rely on: 1 ETH meets the threshold, 0.001 ETH does not, and 72 hours passes the deadline.
- The storage-probing loop of the withdrawal harness (CrowdFund.ts:162-194) is not modelled. It reads and writes raw storage slots through the node (`getStorage`, `hardhat_setStorageAt`) and relies on the compiler's storage layout. Its net effect, `openToWithdraw` becoming true, is `SetOpenToWithdraw`. The codec it uses is modelled.
- JavaScript strings are sequences of UTF-16 code units, while Dafny strings are sequences of Unicode characters. `parseInt`, `startsWith`, `slice`, `padStart` and the pair slicing of `hexToBytes32` count code units in JavaScript and characters here; the two agree on hex text, which is ASCII.
- Hex32.ParseIntHex: results are exact integers, whereas JavaScript rounds a digit run above 2^53 to the nearest double (`parseInt("20000000000001", 16)` is 9007199254740992 there and 9007199254740993 here); the codec only parses two-digit pairs, which are exact. Non-integer results and `-0` do not arise from hex digit pairs; the model returns 0 for `-0`.
- Hex32.ToHexString: only the formats of integers and `NaN` are modelled, not JavaScript's formatting of fractions and infinities.
- Amounts are unbounded naturals. uint256 overflow, which the contracts would revert on, is not modelled.
- Events are modelled as an append-only list on each contract. ERC-20 `Transfer` and `Approval` events are left out: the tests never read them.
- The ERC-20 zero-address checks, the `Ownable` refusal of the zero address as a new owner in `transferOwnership`, and the unlimited allowance (`type(uint256).max`, never decremented) are left out; no test exercises them.
- CrowdFunding.CrowdFund.Withdraw: the error raised when the payout fails (`TransferFailed`) is not fixed by the tests, and neither is its name.
- TokenVendor.Vendor.Withdraw: the tests only require that a non-owner is rejected. `Unauthorized` stands for whatever error the owner check raises.
- TokenVendor.Vendor.SellTokens: the order of the refusal checks after the liquidity check is the usual one: first the allowance, then the balance, then the ETH payment. The tests do not fix it.
- CrowdFunding.CrowdFund.Execute: what a second `execute()` or a contribution after the deadline does is not fixed by the tests. The model allows both and keeps its invariants. A second `execute()` after a forward finds 0 ETH, which is below the threshold, so it opens withdrawals. A withdrawal then reverts with `TransferFailed` whenever the caller's balance exceeds the ETH the contract holds; with no contribution since the forward, that is every withdrawal of a non-zero balance.
- The deploy scripts and the Next.js front end are not part of this model.

## Findings

| source | as written | input that shows it | evidently intended | confidence | as-written member | corrected member |
|---|---|---|---|---|---|---|
| crowd-funding/challenge-crowdfunding/packages/hardhat/test/CrowdFund.ts:151 | the `out.length !== 32` guard can never fire: the loop always pushes exactly 32 values, so a word longer than 64 hex digits is silently cut to its first 64 digits | `"0x01"` followed by 64 `0` digits decodes to `[1, 0, …, 0]`, dropping the last two digits | reject anything that is not a 32-byte word (at most 64 digits after the optional `0x`), as the error message says | not executed | Hex32.OverlongHexIsTruncated | Hex32.HexToBytes32Checked |
