# NFT ledger — a Dafny model

This project models the storage-backed ledger of the `NFT` smart contract (`NFT/NFT.cs`), a
non-fungible-token template. The contract keeps five storage maps and two counters:

- `balances`: owner → number of tokens;
- `tokenOwners`: token id → owner;
- `tokenLinks`: token id → metadata;
- `ownerTokens`: (owner, 1-based position) → token id, the per-owner enumeration index;
- `allowed`: (owner, spender) → token id, the approval table;
- `deploys`: the mint counter, and `totalSupply`: the stored supply constant.

The contract's entry points are `mint`, `transfer`, `approve` and `takeOwnership`. Its
queries are `balanceOf`, `ownerOf`, `deploys`, `totalSupply`, `tokenOfOwnerByIndex` and
`tokenMetadata`. Two private helpers maintain the enumeration index:

- `AddToTokenList` writes a new token at the position equal to the owner's balance;
- `RemoveFromTokenList` scans the owner's positions up to the first empty one, deletes the
  first occurrence of the token, and shifts the entries after it down by one.

Modules:

- `Types`: bytes, 20-byte addresses, `Option`, and `Result` (`Abort` stands for a thrown
  `InvalidOperationException`, `Ret(v)` for a normal return).
- `Encoding`: the integer ↔ byte-string conversion used for token ids and index positions.
  It is an injective little-endian encoding with a round-trip lemma.
- `TokenIndex`: what removal from the enumeration index does, stated without loops.
  - `Listed` is the run of entries from position 1 up to the first empty position.
  - `Remove` is the loop's effect on the index and its answer.
  - Lemmas give the list after removal, the frame, and the step lemmas the loop is
    proved with.
- `Ledger`: the storage as a value (`State`), the ledger invariant `Inv`, and one step
  function per operation returning the new storage and the call's outcome.
- `LedgerProps`: the properties of the step functions. They cover the effects, the
  success conditions, invariant preservation, the unreachable underflow denials and the
  exactness of approvals.
- `NFT`: the class `NFT.NFT` whose fields are the storage maps.
  - Each writing operation is a method proved to perform exactly the matching `Ledger`
    step, and the public ones keep the invariant.
  - `RemoveFromTokenList` is the contract's loop, with the carried `deletedKey`.
  - The queries are functions over the fields.
- `Scenarios`: two concrete call sequences.
  - `GapAfterTransfer`: an owner's index is not gap-free and does not track the balance.
  - `CompactAfterTransfer`: removal compacts the sender's index.

Every failed call in the model leaves the storage unchanged:

- an `Abort` (a malformed address or an empty id, rejected before any write);
- a `Ret(false)` (denied).

Each step function and each method states this (`r.1 != Ret(true) ==> r.0 == s`).

The enumeration index is not kept gap-free: transfer and takeOwnership remove the token
from the sender's index but never add it to the receiver's, and mint writes at the position
equal to the new balance. `Scenarios.GapAfterTransfer` proves a run in which the receiver
holds two tokens while its index reads as empty.

## Model

| member | source | states |
|---|---|---|
| Encoding.DecodeEncode | NFT/NFT.cs:104-109 | Decoding the encoding of the next id gives the number back, so the cap test compares deploys + 1 with the cap |
| Encoding.EncodeInjective | NFT/NFT.cs:104 | Distinct counter values give distinct token ids, so a new id never collides with an earlier one |
| Ledger.TotalSupply | NFT/NFT.cs:84-90 | The answer is the stored supply and is never 0; the first read (supply unset) stores and answers the constant; a stored nonzero supply is left as is; only the supply field can change |
| Ledger.AddToTokenList | NFT/NFT.cs:283-293 | Aborts exactly on a malformed address or an empty id, changing nothing; otherwise answers true and changes only the index, writing the id at position (address, current balance) |
| Ledger.Mint | NFT/NFT.cs:100-134 | Aborts exactly on a malformed address; succeeds exactly when the next id is unused, within the cap and witnessed; otherwise changes nothing |
| Ledger.MoveToken | NFT/NFT.cs:158-178 | Denied, with no change, exactly when the sender's balance is below 1; never writes allowed, tokenLinks, deploys or totalSupply |
| Ledger.Transfer | NFT/NFT.cs:146-182 | Aborts exactly on a malformed address or empty id; success requires the caller to own the token; a self-transfer changes nothing; never writes allowed, tokenLinks, deploys or totalSupply |
| Ledger.Approve | NFT/NFT.cs:194-212 | Succeeds exactly when the caller owns the token and the spender differs from the caller; then only allowed[(caller, spender)] is written, with the token id |
| Ledger.TakeOwnership | NFT/NFT.cs:215-255 | Aborts exactly on an empty id; the owner's own take-ownership answers true and changes nothing; any change requires an approval naming exactly this token for (owner, caller); the approval table is left in place |
| LedgerProps.DeploysCountsTokens | NFT/NFT.cs:93-97 | Under the invariant the mint counter equals the number of existing tokens |
| LedgerProps.UnderflowUnreachable | NFT/NFT.cs:161-163 | Under the invariant the owner of an existing token has balance at least 1, so the underflow denial of transfer (and of takeOwnership) is never taken |
| LedgerProps.TotalSupplyStable | NFT/NFT.cs:84-90 | Under the invariant totalSupply answers the constant, keeps the invariant, and a second read changes nothing |
| LedgerProps.MintEffects | NFT/NFT.cs:114-130 | A successful mint sets deploys to deploys + 1, gives the new id its owner and metadata, raises the balance by one, and writes the id at index position = new balance; allowed and totalSupply are unchanged |
| LedgerProps.MintSucceeds | NFT/NFT.cs:104-112 | Under the invariant a mint succeeds exactly when the address is well formed, the cap is not reached and the recipient witnessed the call; the "already minted" denial is never taken |
| LedgerProps.MintPreservesInv | NFT/NFT.cs:100-134 | Mint keeps the ledger invariant |
| LedgerProps.MintAppends | NFT/NFT.cs:289-291 | When the recipient's list is as long as its balance and followed by an empty position, the new id is appended to the list |
| LedgerProps.MoveTokenEffects | NFT/NFT.cs:166-178 | The token gets its new owner; the sender's balance drops by one and its record is deleted at 0; the receiver's rises by one; other balances are unchanged; the sender's list loses the first occurrence of the token; no other owner's index entry changes |
| LedgerProps.MoveTokenPreservesInv | NFT/NFT.cs:158-178 | Moving an existing token to another address succeeds and keeps the invariant |
| LedgerProps.TransferSucceeds | NFT/NFT.cs:146-182 | Under the invariant a transfer succeeds exactly when the arguments are well formed and the caller owns the token, and it keeps the invariant |
| LedgerProps.TakeOwnershipSucceeds | NFT/NFT.cs:215-255 | Under the invariant a take-ownership succeeds exactly when the token exists and the caller already owns it or holds an approval naming exactly this token, and it keeps the invariant |
| LedgerProps.ApprovePreservesInv | NFT/NFT.cs:206-207 | Approve keeps the ledger invariant |
| LedgerProps.ApprovalIsExact | NFT/NFT.cs:227-229 | After approving token X, the spender's take-ownership of another token Y of the same owner is denied and changes nothing |
| TokenIndex.Remove | NFT/NFT.cs:295-323 | Aborts exactly on a malformed address or an empty id; any outcome other than true leaves the index unchanged |
| TokenIndex.RemoveListed | NFT/NFT.cs:302-322 | The answer is whether the token is in the owner's list; the new list is the old one with the first occurrence removed, in the original order |
| TokenIndex.RemoveFound | NFT/NFT.cs:315-319 | When the token is first listed at index j, the answer is true and exactly that entry leaves the list |
| TokenIndex.RemoveNotFound | NFT/NFT.cs:306-322 | When the token is not in the list up to the first empty position, the index is unchanged and the answer is false |
| TokenIndex.ShiftDownListed | NFT/NFT.cs:308-313 | Shifting down from the first occurrence yields the list without that entry |
| TokenIndex.RemoveFrame | NFT/NFT.cs:303-320 | Only positions 1..k of the owner change, k being the list length; other owners and positions above k are untouched; when the token was listed, position k is emptied |
| TokenIndex.AppendListed | NFT/NFT.cs:289-291 | Writing just past the list, with the next position empty, appends to the list |
| TokenIndex.ListedExactly | NFT/NFT.cs:303-307 | A list laid out at positions 1..n and followed by an empty position is what the scan reads |
| TokenIndex.ScanProbe | NFT/NFT.cs:305-307 | The loop's next position holds an entry exactly while the scan is inside the owner's run |
| TokenIndex.ScanHit | NFT/NFT.cs:315-319 | The first match is deleted and becomes the carried slot |
| TokenIndex.ScanMiss | NFT/NFT.cs:315 | A non-matching entry before any match leaves the index unchanged |
| TokenIndex.ScanShiftIndex | NFT/NFT.cs:308-313 | Once a slot is carried, each later entry moves down into it and its own position becomes the carried slot |
| TokenIndex.ScanEnd | NFT/NFT.cs:303-322 | When the loop stops at the first empty position or at the bound, it has produced Remove's index and answer |
| NFT.NFT.BalanceOf | NFT/NFT.cs:66-72 | Aborts exactly on a malformed address; under the invariant the answer is the number of tokens the address owns |
| NFT.NFT.Deploys | NFT/NFT.cs:93-97 | Under the invariant the counter equals the number of existing tokens and is within the cap |
| NFT.NFT.OwnerOf | NFT/NFT.cs:185-191 | Aborts exactly on an empty id; a returned owner owns the token; under the invariant a token exists exactly when its id is one of the ids of the first deploys mints |
| NFT.NFT.TokenOfOwnerByIndex | NFT/NFT.cs:258-266 | Aborts exactly on a malformed address; inside the owner's list the answer is that list entry; an index of 0 or below reads position 1 |
| NFT.NFT.TokenMetadata | NFT/NFT.cs:269-275 | Aborts exactly on an empty id; a returned value is the stored metadata of the token; under the invariant metadata exists exactly for existing tokens |
| NFT.NFT.TotalSupply | NFT/NFT.cs:84-90 | Performs Ledger.TotalSupply on the fields and keeps the invariant |
| NFT.NFT.Mint | NFT/NFT.cs:100-134 | Performs Ledger.Mint on the fields and keeps the invariant |
| NFT.NFT.Issue | NFT/NFT.cs:114-130 | Performs the writes of a successful mint in the contract's order |
| NFT.NFT.AddToTokenList | NFT/NFT.cs:283-293 | Performs Ledger.AddToTokenList, writing only the index |
| NFT.NFT.Transfer | NFT/NFT.cs:146-182 | Performs Ledger.Transfer on the fields and keeps the invariant |
| NFT.NFT.Approve | NFT/NFT.cs:194-212 | Performs Ledger.Approve on the fields and keeps the invariant |
| NFT.NFT.TakeOwnership | NFT/NFT.cs:215-255 | Performs Ledger.TakeOwnership on the fields and keeps the invariant |
| NFT.NFT.MoveToken | NFT/NFT.cs:158-178 | Performs Ledger.MoveToken, writing only balances, tokenOwners and the index |
| NFT.NFT.RemoveFromTokenList | NFT/NFT.cs:295-323 | The loop with its carried deletedKey computes exactly TokenIndex.Remove's index and answer, writing only the index |
| Scenarios.GapAfterTransfer | NFT/NFT.cs:175-178 | A mints token 1, transfers it to B, then B mints token 2: all succeed and the invariant holds, but B has balance 2, position 1 empty, token 2 at position 2, and an empty list |
| Scenarios.CompactAfterTransfer | NFT/NFT.cs:303-320 | A mints tokens 1 and 2 and transfers token 1 to B: A's list becomes [token 2] with position 2 empty, both balances are 1, and B's list stays empty |

## Left out

- The `Main` dispatcher (NFT/NFT.cs:22-63): trigger checks and argument casts belong to the host. So does its verification branch, which checks the owner's signature.
- `IsPayable` (NFT/NFT.cs:77-81): it is unused and asks the host for contract data.
- The constant getters `Name`, `Symbol`, `Decimals`, `SupportedStandards` and `Version` return fixed values.
- The `Transferred` and `Approval` events: they are log output to the host and write no storage.
- `Runtime.CheckWitness(to)` is the boolean parameter `witnessed`. The calling script hash is the parameter `caller`, typed as a 20-byte address. `takeOwnership` stores it as an owner without checking its length.
- The byte layout of `AsByteArray`/`AsBigInteger`: `Encoding` is a minimal little-endian base-256 encoding with no two's-complement sign byte. The proofs use only its injectivity, its non-emptiness for positive numbers, and the decode/encode round trip. The concrete byte strings differ from the contract's from 128 on: the contract encodes 128 as the two bytes 0x80 0x00, the model as the single byte 0x80. Statements about which byte strings are token ids (`NFT.NFT.OwnerOf`, the scenarios' ids) are therefore about the model's encoding.
- The metadata string's conversion to bytes: `Meta` is a byte sequence stored as given.
- Storage rollback: an aborted call is modelled as one whose writes never happen. Every abort in this contract precedes its first write.
- NFT.NFT.Mint: the empty-id abort (NFT/NFT.cs:105-106) is dead code because an encoded positive number is never empty. It is an assertion rather than a branch. The `OwnerOf(tokenId)` call is a direct membership test, since the id is known to be non-empty.
- TokenIndex.ShiftDown: the test that the position above is occupied only keeps the definition total. Within a scanned run it always holds.
- NFT.NFT.TokenOfOwnerByIndex: the contract says nothing about positions past the first empty one. Such positions can still hold entries (see Scenarios.GapAfterTransfer), and the query returns whatever is stored there.
- A gap-free index whose length matches the balance is not an invariant of the contract, so it is not proved. Scenarios.GapAfterTransfer proves that it fails.
