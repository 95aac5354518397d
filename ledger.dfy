/** The ledger as a value: the contract's storage maps and counters, the invariant
    they keep, and one step function per operation giving the new storage and the
    call's outcome. The class NFT.NFT is proved to do exactly these steps. */
module Ledger {
  import opened Types
  import opened Encoding
  import TokenIndex

  /** The contract's storage. Absent keys read as empty: a missing balance is 0,
      a missing counter is 0, a missing owner means the token does not exist. */
  datatype State = State(
    balances: map<Addr, nat>,
    tokenOwners: map<Bytes, Addr>,
    tokenLinks: map<Bytes, Meta>,
    ownerTokens: map<(Addr, int), Bytes>,
    allowed: map<(Addr, Addr), Bytes>,
    deploys: nat,
    totalSupply: nat)

  /** Storage of a freshly deployed contract. */
  function Empty(): State
  {
    State(map[], map[], map[], map[], map[], 0, 0)
  }

  /** A stored balance, absent meaning 0. */
  function Balance(balances: map<Addr, nat>, a: Addr): nat
  {
    if a in balances then balances[a] else 0
  }

  /** The tokens `tokenOwners` assigns to `a`. */
  ghost function Owned(owners: map<Bytes, Addr>, a: Addr): set<Bytes>
  {
    set t | t in owners && owners[t] == a
  }

  /** The ids of the first n minted tokens. */
  ghost function Ids(n: nat): set<Bytes>
  {
    set i | 1 <= i <= n :: Encode(i)
  }

  /** The ledger invariant: balances count owned tokens (and a zero balance is not
      stored), the tokens are exactly the ids 1..deploys, each has metadata, the cap
      holds, and the stored supply is unset or the constant. */
  ghost predicate Inv(s: State)
  {
    && (forall a: Addr :: Balance(s.balances, a) == |Owned(s.tokenOwners, a)|)
    && (forall a :: a in s.balances ==> s.balances[a] > 0)
    && s.tokenOwners.Keys == Ids(s.deploys)
    && s.tokenLinks.Keys == s.tokenOwners.Keys
    && s.deploys <= TotalSupplyValue
    && (s.totalSupply == 0 || s.totalSupply == TotalSupplyValue)
  }

  // ---------------------------------------------------------------------------
  // Step functions

  /** TotalSupply: writes the constant on the first read, then returns the stored value. */
  function TotalSupply(s: State): (r: (State, nat))
    ensures r.1 == r.0.totalSupply && r.1 != 0
    ensures s.totalSupply == 0 ==> r.1 == TotalSupplyValue
    ensures s.totalSupply != 0 ==> r.0 == s
    ensures r.0 == s.(totalSupply := r.1)
  {
    if s.totalSupply == 0 then (s.(totalSupply := TotalSupplyValue), TotalSupplyValue)
    else (s, s.totalSupply)
  }

  /** AddToTokenList: writes the token at the position equal to the owner's
      current balance. */
  function AddToTokenList(s: State, address: Bytes, tokenId: Bytes): (r: (State, Result<bool>))
    ensures r.1.Abort? <==> |address| != 20 || tokenId == []
    ensures r.1.Abort? ==> r.0 == s
    ensures r.1.Ret? ==> r.1.value && r.0 == s.(ownerTokens := r.0.ownerTokens)
    ensures |address| == 20 && tokenId != [] ==>
      r.0.ownerTokens == s.ownerTokens[(address, Balance(s.balances, address)) := tokenId]
  {
    if |address| != 20 || tokenId == [] then (s, Abort)
    else
      var a: Addr := address;
      var balance := Balance(s.balances, a);
      (s.(ownerTokens := s.ownerTokens[(a, balance) := tokenId]), Ret(true))
  }

  /** Mint: the new id is the encoding of deploys + 1. */
  function Mint(s: State, to: Bytes, meta: Meta, witnessed: bool): (r: (State, Result<bool>))
    ensures r.1.Abort? <==> |to| != 20
    ensures r.1 != Ret(true) ==> r.0 == s
    ensures r.1 == Ret(true) <==>
      |to| == 20 && Encode(s.deploys + 1) !in s.tokenOwners && s.deploys < TotalSupplyValue && witnessed
  {
    if |to| != 20 then (s, Abort)
    else
      var a: Addr := to;
      var tokenId := Encode(s.deploys + 1);
      DecodeEncode(s.deploys + 1);
      if tokenId in s.tokenOwners then (s, Ret(false))
      else if Decode(tokenId) > TotalSupplyValue then (s, Ret(false))
      else if !witnessed then (s, Ret(false))
      else (Issue(s, a, tokenId, meta), Ret(true))
  }

  /** The writes of a successful mint, in the order the contract makes them: the
      counter takes the new id's value, the recipient's balance grows by one, the
      token gets its owner, enters the owner's list, and gets its metadata. */
  function Issue(s: State, a: Addr, tokenId: Bytes, meta: Meta): State
    requires tokenId != []
  {
    var s1 := s.(deploys := Decode(tokenId));
    var toAmount := Balance(s1.balances, a);
    var s2 := s1.(balances := s1.balances[a := toAmount + 1]);
    var s3 := s2.(tokenOwners := s2.tokenOwners[tokenId := a]);
    var s4 := AddToTokenList(s3, a, tokenId).0;
    s4.(tokenLinks := s4.tokenLinks[tokenId := meta])
  }

  /** The balance move, ownership rewrite and index removal shared by Transfer and
      TakeOwnership; denied when the sender's stored balance is below 1. */
  function MoveToken(s: State, from: Addr, to: Addr, tokenId: Bytes): (r: (State, Result<bool>))
    ensures r.1.Ret?
    ensures !r.1.value ==> r.0 == s
    ensures r.1.value <==> Balance(s.balances, from) >= 1
    ensures r.0.allowed == s.allowed && r.0.tokenLinks == s.tokenLinks
    ensures r.0.deploys == s.deploys && r.0.totalSupply == s.totalSupply
  {
    var fromAmount := Balance(s.balances, from);
    if fromAmount < 1 then (s, Ret(false))
    else
      var b1 := if fromAmount == 1 then s.balances - {from} else s.balances[from := fromAmount - 1];
      var toAmount := Balance(b1, to);
      var b2 := b1[to := toAmount + 1];
      var owners := s.tokenOwners[tokenId := to];
      var index := TokenIndex.Remove(s.ownerTokens, from, tokenId).0;
      (s.(balances := b2, tokenOwners := owners, ownerTokens := index), Ret(true))
  }

  /** Transfer by the current owner (`caller`) to `to`. */
  function Transfer(s: State, to: Bytes, tokenId: Bytes, caller: Addr): (r: (State, Result<bool>))
    ensures r.1.Abort? <==> |to| != 20 || tokenId == []
    ensures r.1 != Ret(true) ==> r.0 == s
    ensures r.1 == Ret(true) ==> tokenId in s.tokenOwners && s.tokenOwners[tokenId] == caller
    ensures r.1 == Ret(true) && to == caller ==> r.0 == s
    ensures r.0.allowed == s.allowed && r.0.tokenLinks == s.tokenLinks
    ensures r.0.deploys == s.deploys && r.0.totalSupply == s.totalSupply
  {
    if |to| != 20 || tokenId == [] then (s, Abort)
    else if tokenId !in s.tokenOwners || caller != s.tokenOwners[tokenId] then (s, Ret(false))
    else
      var from := s.tokenOwners[tokenId];
      if from == to then (s, Ret(true))
      else MoveToken(s, from, to, tokenId)
  }

  /** Approve: the owner lets `to` take exactly `tokenId`. */
  function Approve(s: State, to: Bytes, tokenId: Bytes, caller: Addr): (r: (State, Result<bool>))
    ensures r.1.Abort? <==> |to| != 20 || tokenId == []
    ensures r.1 != Ret(true) ==> r.0 == s
    ensures r.1 == Ret(true) <==>
      |to| == 20 && tokenId != [] && tokenId in s.tokenOwners && s.tokenOwners[tokenId] == caller && to != caller
    ensures r.1 == Ret(true) ==> |to| == 20 && r.0 == s.(allowed := s.allowed[(caller, to) := tokenId])
  {
    if |to| != 20 || tokenId == [] then (s, Abort)
    else if tokenId !in s.tokenOwners || caller != s.tokenOwners[tokenId] then (s, Ret(false))
    else if caller == to then (s, Ret(false))
    else
      var from := s.tokenOwners[tokenId];
      var spender: Addr := to;
      (s.(allowed := s.allowed[(from, spender) := tokenId]), Ret(true))
  }

  /** TakeOwnership: `caller` takes a token its owner approved it to take. */
  function TakeOwnership(s: State, tokenId: Bytes, caller: Addr): (r: (State, Result<bool>))
    ensures r.1.Abort? <==> tokenId == []
    ensures r.1 != Ret(true) ==> r.0 == s
    ensures tokenId != [] && tokenId in s.tokenOwners && s.tokenOwners[tokenId] == caller ==>
      r == (s, Ret(true))
    ensures r.0 != s ==>
      && tokenId in s.tokenOwners
      && (s.tokenOwners[tokenId], caller) in s.allowed
      && s.allowed[(s.tokenOwners[tokenId], caller)] == tokenId
    ensures r.0.allowed == s.allowed && r.0.tokenLinks == s.tokenLinks
    ensures r.0.deploys == s.deploys && r.0.totalSupply == s.totalSupply
  {
    if tokenId == [] then (s, Abort)
    else if tokenId !in s.tokenOwners then (s, Ret(false))
    else
      var from := s.tokenOwners[tokenId];
      var to := caller;
      if from == to then (s, Ret(true))
      else if (from, to) !in s.allowed || s.allowed[(from, to)] != tokenId then (s, Ret(false))
      else MoveToken(s, from, to, tokenId)
  }
}
