/** The contract as a stateful object: its storage maps are fields, each public entry
    point and each private helper that writes storage is a method, and each read-only
    query is a function over the fields. Every method is proved to perform exactly the
    corresponding step of the Ledger model, and the public ones to keep the ledger
    invariant. */
module NFT {
  import opened Types
  import opened Encoding
  import TokenIndex
  import Ledger
  import LedgerProps

  class NFT {
    var balances: map<Addr, nat>
    var tokenOwners: map<Bytes, Addr>
    var tokenLinks: map<Bytes, Meta>
    var ownerTokens: map<(Addr, int), Bytes>
    var allowed: map<(Addr, Addr), Bytes>
    var deploys: nat
    var totalSupply: nat

    /** The storage as a Ledger value. */
    ghost function State(): Ledger.State
      reads this
    {
      Ledger.State(balances, tokenOwners, tokenLinks, ownerTokens, allowed, deploys, totalSupply)
    }

    /** The ledger invariant on the current storage. */
    ghost predicate Valid()
      reads this
    {
      Ledger.Inv(State())
    }

    /** A freshly deployed contract: all storage empty. */
    constructor ()
      ensures State() == Ledger.Empty()
      ensures Valid()
    {
      balances, tokenOwners, tokenLinks := map[], map[], map[];
      ownerTokens, allowed := map[], map[];
      deploys, totalSupply := 0, 0;
      LedgerProps.EmptyInv();
    }

    // -------------------------------------------------------------------------
    // Queries

    /** balanceOf: rejects a malformed address; otherwise the number of tokens the
        address owns. */
    function BalanceOf(address: Bytes): (r: Result<nat>)
      reads this
      ensures r.Abort? <==> |address| != 20
      ensures |address| == 20 && Valid() ==> r == Ret(|Ledger.Owned(tokenOwners, address)|)
    {
      if |address| != 20 then Abort
      else Ret(Ledger.Balance(balances, address))
    }

    /** deploys: the number of tokens minted so far, which under the invariant is the
        number of tokens that exist and never exceeds the cap. */
    function Deploys(): (r: nat)
      reads this
      ensures Valid() ==> r == |tokenOwners| && r <= TotalSupplyValue
    {
      LedgerProps.DeploysCountsTokens(State());
      deploys
    }

    /** ownerOf: rejects an empty id; otherwise the token's owner, if the token
        exists. Under the invariant a token exists exactly when its id is one of the
        ids of the first deploys mints. */
    function OwnerOf(tokenId: Bytes): (r: Result<Option<Addr>>)
      reads this
      ensures r.Abort? <==> tokenId == []
      ensures r.Ret? && r.value.Some? ==> tokenId in Ledger.Owned(tokenOwners, r.value.value)
      ensures r.Ret? && Valid() ==> (r.value.Some? <==> tokenId in Ledger.Ids(deploys))
    {
      if tokenId == [] then Abort
      else if tokenId in tokenOwners then Ret(Some(tokenOwners[tokenId]))
      else Ret(None)
    }

    /** tokenOfOwnerByIndex: rejects a malformed address; an index of 0 or below reads
        position 1. Within the owner's enumerable list the answer is that list's entry;
        an owner with an empty list has nothing at position 1. */
    function TokenOfOwnerByIndex(address: Bytes, index: int): (r: Result<Option<Bytes>>)
      reads this
      ensures r.Abort? <==> |address| != 20
      ensures |address| == 20 && 1 <= index <= |TokenIndex.Listed(ownerTokens, address)| ==>
        r == Ret(Some(TokenIndex.Listed(ownerTokens, address)[index - 1]))
      ensures |address| == 20 && index <= 0 && |TokenIndex.Listed(ownerTokens, address)| > 0 ==>
        r == Ret(Some(TokenIndex.Listed(ownerTokens, address)[0]))
      ensures |address| == 20 && index <= 1 && TokenIndex.Listed(ownerTokens, address) == [] ==>
        r == Ret(None)
    {
      if |address| != 20 then Abort
      else
        var a: Addr := address;
        var i := if index <= 0 then 1 else index;
        assert 1 <= i <= |TokenIndex.Listed(ownerTokens, a)| ==>
          ownerTokens[(a, 1 + (i - 1))] == TokenIndex.Listed(ownerTokens, a)[i - 1];
        if (a, i) in ownerTokens then Ret(Some(ownerTokens[(a, i)])) else Ret(None)
    }

    /** tokenMetadata: rejects an empty id; otherwise the stored metadata. Under the
        invariant there is metadata exactly for the tokens that exist. */
    function TokenMetadata(tokenId: Bytes): (r: Result<Option<Meta>>)
      reads this
      ensures r.Abort? <==> tokenId == []
      ensures r.Ret? && r.value.Some? ==> tokenId in tokenLinks && r.value.value == tokenLinks[tokenId]
      ensures r.Ret? && Valid() ==> (r.value.Some? <==> tokenId in tokenOwners)
    {
      if tokenId == [] then Abort
      else if tokenId in tokenLinks then Ret(Some(tokenLinks[tokenId]))
      else Ret(None)
    }

    // -------------------------------------------------------------------------
    // Operations that write storage

    /** totalSupply: stores the constant on the first read. */
    method TotalSupply() returns (r: nat)
      modifies this
      ensures (State(), r) == Ledger.TotalSupply(old(State()))
      ensures old(Valid()) ==> Valid()
    {
      if Valid() {
        LedgerProps.TotalSupplyStable(State());
      }
      if totalSupply == 0 {
        totalSupply := TotalSupplyValue;
      }
      r := totalSupply;
    }

    /** mint: creates token deploys + 1 for `to`, provided the host confirms `to`
        signed the call (`witnessed`). */
    method Mint(to: Bytes, meta: Meta, witnessed: bool) returns (r: Result<bool>)
      modifies this
      ensures (State(), r) == Ledger.Mint(old(State()), to, meta, witnessed)
      ensures old(Valid()) ==> Valid()
    {
      ghost var s0 := State();
      if |to| != 20 {
        return Abort;
      }
      var tokenId := Encode(deploys + 1);
      // The contract rejects an empty id here; the encoding of a positive number is
      // never empty, so that branch is dead.
      assert tokenId != [];
      // The contract asks OwnerOf(tokenId) whether the id is taken.
      if tokenId in tokenOwners {
        return Ret(false);
      }
      DecodeEncode(deploys + 1);
      if Decode(tokenId) > TotalSupplyValue {
        return Ret(false);
      }
      if !witnessed {
        return Ret(false);
      }
      Issue(to, tokenId, meta);
      r := Ret(true);
      if Ledger.Inv(s0) {
        LedgerProps.MintPreservesInv(s0, to, meta, witnessed);
      }
    }

    /** The storage writes of a successful mint. */
    method Issue(to: Addr, tokenId: Bytes, meta: Meta)
      requires tokenId != []
      modifies this
      ensures State() == Ledger.Issue(old(State()), to, tokenId, meta)
    {
      deploys := Decode(tokenId);
      var toAmount := Ledger.Balance(balances, to);
      balances := balances[to := toAmount + 1];
      tokenOwners := tokenOwners[tokenId := to];
      var added := AddToTokenList(to, tokenId);
      tokenLinks := tokenLinks[tokenId := meta];
    }

    /** AddToTokenList: writes the token at the position given by the owner's current
        balance. */
    method AddToTokenList(address: Bytes, tokenId: Bytes) returns (r: Result<bool>)
      modifies this`ownerTokens
      ensures (State(), r) == Ledger.AddToTokenList(old(State()), address, tokenId)
    {
      if |address| != 20 || tokenId == [] {
        return Abort;
      }
      var balance := BalanceOf(address).value;
      ownerTokens := ownerTokens[(address, balance) := tokenId];
      return Ret(true);
    }

    /** transfer: the owner (`caller`) sends a token to `to`. */
    method Transfer(to: Bytes, tokenId: Bytes, caller: Addr) returns (r: Result<bool>)
      modifies this
      ensures (State(), r) == Ledger.Transfer(old(State()), to, tokenId, caller)
      ensures old(Valid()) ==> Valid()
    {
      ghost var s0 := State();
      if |to| != 20 || tokenId == [] {
        return Abort;
      }
      var owner := OwnerOf(tokenId).value;
      if owner.None? || caller != owner.value {
        return Ret(false);
      }
      var from := owner.value;
      if from == to {
        return Ret(true);
      }
      r := MoveToken(from, to, tokenId);
      assert (State(), r) == Ledger.Transfer(s0, to, tokenId, caller);
      if Ledger.Inv(s0) {
        LedgerProps.TransferSucceeds(s0, to, tokenId, caller);
      }
    }

    /** approve: the owner (`caller`) lets `to` take exactly `tokenId`. */
    method Approve(to: Bytes, tokenId: Bytes, caller: Addr) returns (r: Result<bool>)
      modifies this
      ensures (State(), r) == Ledger.Approve(old(State()), to, tokenId, caller)
      ensures old(Valid()) ==> Valid()
    {
      ghost var s0 := State();
      if |to| != 20 || tokenId == [] {
        return Abort;
      }
      var owner := OwnerOf(tokenId).value;
      if owner.None? || caller != owner.value {
        return Ret(false);
      }
      if caller == to {
        return Ret(false);
      }
      var from := owner.value;
      allowed := allowed[(from, to) := tokenId];
      r := Ret(true);
      assert (State(), r) == Ledger.Approve(s0, to, tokenId, caller);
      if Ledger.Inv(s0) {
        LedgerProps.ApprovePreservesInv(s0, to, tokenId, caller);
      }
    }

    /** takeOwnership: `caller` takes a token its owner approved it to take. */
    method TakeOwnership(tokenId: Bytes, caller: Addr) returns (r: Result<bool>)
      modifies this
      ensures (State(), r) == Ledger.TakeOwnership(old(State()), tokenId, caller)
      ensures old(Valid()) ==> Valid()
    {
      ghost var s0 := State();
      if tokenId == [] {
        return Abort;
      }
      var owner := OwnerOf(tokenId).value;
      if owner.None? {
        return Ret(false);
      }
      var from := owner.value;
      var to := caller;
      if from == to {
        return Ret(true);
      }
      if (from, to) !in allowed || allowed[(from, to)] != tokenId {
        return Ret(false);
      }
      r := MoveToken(from, to, tokenId);
      assert (State(), r) == Ledger.TakeOwnership(s0, tokenId, caller);
      if Ledger.Inv(s0) {
        LedgerProps.TakeOwnershipSucceeds(s0, tokenId, caller);
      }
    }

    /** The balance move, owner rewrite and index removal that transfer and
        takeOwnership share. */
    method MoveToken(from: Addr, to: Addr, tokenId: Bytes) returns (r: Result<bool>)
      modifies this`balances, this`tokenOwners, this`ownerTokens
      ensures (State(), r) == Ledger.MoveToken(old(State()), from, to, tokenId)
    {
      var fromAmount := Ledger.Balance(balances, from);
      if fromAmount < 1 {
        return Ret(false);
      }
      if fromAmount == 1 {
        balances := balances - {from};
      } else {
        balances := balances[from := fromAmount - 1];
      }
      var toAmount := Ledger.Balance(balances, to);
      balances := balances[to := toAmount + 1];
      tokenOwners := tokenOwners[tokenId := to];
      var removed := RemoveFromTokenList(from, tokenId);
      return Ret(true);
    }

    /** RemoveFromTokenList: scans the owner's positions 1, 2, ... up to the first
        empty one; deletes the first entry equal to the token and moves every later
        entry of the run down by one. Answers whether anything was deleted. */
    method RemoveFromTokenList(address: Bytes, tokenId: Bytes) returns (r: Result<bool>)
      modifies this`ownerTokens
      ensures (ownerTokens, r) == TokenIndex.Remove(old(ownerTokens), address, tokenId)
    {
      if |address| != 20 || tokenId == [] {
        return Abort;
      }
      var a: Addr := address;
      ghost var m0 := ownerTokens;
      ghost var found: Option<nat> := None;
      ghost var k: nat := 0;
      var deletedKey: Option<(Addr, int)> := None;
      var i := 1;
      TokenIndex.ScanStart(m0, a, tokenId);
      while i <= TotalSupplyValue
        invariant i <= TotalSupplyValue + 1
        invariant k == i - 1 && TokenIndex.Scanned(m0, a, tokenId, k, found)
        invariant ownerTokens == TokenIndex.ScanIndex(m0, a, k, found)
        invariant deletedKey.Some? <==> found.Some?
        invariant deletedKey.Some? ==> deletedKey.value == (a, k)
        decreases TotalSupplyValue + 1 - i
      {
        var key := (a, i);
        assert key == (a, k + 1);
        TokenIndex.ScanProbe(m0, a, tokenId, k, found);
        if key !in ownerTokens {
          break;
        }
        if deletedKey.Some? {
          TokenIndex.ScanShift(m0, a, tokenId, k, found.value);
          TokenIndex.ScanShiftIndex(m0, a, k, found.value);
          ownerTokens := ownerTokens[deletedKey.value := ownerTokens[key]] - {key};
          deletedKey := Some(key);
        } else if ownerTokens[key] == tokenId {
          TokenIndex.ScanHit(m0, a, tokenId, k);
          ownerTokens := ownerTokens - {key};
          deletedKey := Some(key);
          found := Some(k);
        } else {
          TokenIndex.ScanMiss(m0, a, tokenId, k);
        }
        k := k + 1;
        i := i + 1;
      }
      TokenIndex.ScanEnd(m0, a, tokenId, k, found);
      r := Ret(deletedKey.Some?);
    }
  }
}
