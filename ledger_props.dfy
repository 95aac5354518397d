/** Properties of the ledger step functions: the invariant each operation keeps,
    when each operation succeeds, and what a successful call changes. */
module LedgerProps {
  import opened Types
  import opened Encoding
  import TokenIndex
  import opened Ledger

  // ---------------------------------------------------------------------------
  // Token ids

  /** Minting one more token adds exactly one new id. */
  lemma IdsNext(n: nat)
    ensures Encode(n + 1) !in Ids(n)
    ensures Ids(n + 1) == Ids(n) + {Encode(n + 1)}
  {
    forall i | 1 <= i <= n
      ensures Encode(i) != Encode(n + 1)
    {
      EncodeInjective(i, n + 1);
    }
  }

  /** There are exactly n ids among the first n. */
  lemma {:induction false} IdsSize(n: nat)
    ensures |Ids(n)| == n
  {
    if n == 0 {
      assert Ids(0) == {};
    } else {
      IdsSize(n - 1);
      IdsNext(n - 1);
    }
  }

  // ---------------------------------------------------------------------------
  // Ownership counts

  /** Handing a token to a new owner moves it between the two owners' sets. */
  lemma OwnedMove(o: map<Bytes, Addr>, t: Bytes, to: Addr)
    requires t in o && o[t] != to
    ensures t in Owned(o, o[t]) && t !in Owned(o, to)
    ensures Owned(o[t := to], o[t]) == Owned(o, o[t]) - {t}
    ensures Owned(o[t := to], to) == Owned(o, to) + {t}
    ensures forall c :: c != o[t] && c != to ==> Owned(o[t := to], c) == Owned(o, c)
  {
  }

  /** Assigning a new token adds it to its owner's set only. */
  lemma OwnedAdd(o: map<Bytes, Addr>, t: Bytes, to: Addr)
    requires t !in o
    ensures t !in Owned(o, to)
    ensures Owned(o[t := to], to) == Owned(o, to) + {t}
    ensures forall c :: c != to ==> Owned(o[t := to], c) == Owned(o, c)
  {
  }

  /** No one owns more tokens than exist. */
  lemma OwnedBound(o: map<Bytes, Addr>, a: Addr)
    ensures |Owned(o, a)| <= |o.Keys|
  {
    var mine := Owned(o, a);
    assert o.Keys == mine + (o.Keys - mine);
    assert mine * (o.Keys - mine) == {};
  }

  // ---------------------------------------------------------------------------
  // The invariant

  /** A freshly deployed contract satisfies the invariant. */
  lemma EmptyInv()
    ensures Inv(Empty())
  {
    assert Ids(0) == {};
  }

  /** Under the invariant the stored mint counter is the number of tokens. */
  lemma DeploysCountsTokens(s: State)
    ensures Inv(s) ==> s.deploys == |s.tokenOwners|
  {
    IdsSize(s.deploys);
    assert s.tokenOwners.Keys == Ids(s.deploys) ==> |s.tokenOwners| == |s.tokenOwners.Keys|;
  }

  /** Under the invariant the owner of an existing token has a balance of at least 1,
      so the underflow denials of Transfer and TakeOwnership are never taken. */
  lemma UnderflowUnreachable(s: State, t: Bytes)
    requires Inv(s) && t in s.tokenOwners
    ensures Balance(s.balances, s.tokenOwners[t]) >= 1
  {
    assert t in Owned(s.tokenOwners, s.tokenOwners[t]);
  }

  // ---------------------------------------------------------------------------
  // TotalSupply

  /** Under the invariant TotalSupply always answers the constant, keeps the invariant,
      and a second read changes nothing. */
  lemma TotalSupplyStable(s: State)
    requires Inv(s)
    ensures TotalSupply(s).1 == TotalSupplyValue
    ensures Inv(TotalSupply(s).0)
    ensures TotalSupply(TotalSupply(s).0) == TotalSupply(s)
  {
  }

  // ---------------------------------------------------------------------------
  // Mint

  /** What a successful mint writes. */
  lemma MintEffects(s: State, to: Addr, meta: Meta, witnessed: bool)
    requires Mint(s, to, meta, witnessed).1 == Ret(true)
    ensures var s' := Mint(s, to, meta, witnessed).0;
      var id := Encode(s.deploys + 1);
      var balance := Balance(s.balances, to) + 1;
      && s'.deploys == s.deploys + 1
      && s'.tokenOwners == s.tokenOwners[id := to]
      && s'.tokenLinks == s.tokenLinks[id := meta]
      && s'.balances == s.balances[to := balance]
      && s'.ownerTokens == s.ownerTokens[(to, balance) := id]
      && s'.allowed == s.allowed
      && s'.totalSupply == s.totalSupply
  {
    DecodeEncode(s.deploys + 1);
  }

  /** Under the invariant a mint succeeds exactly when the address is well formed,
      the cap is not reached and the recipient witnessed the call: the "already
      minted" denial is never taken. */
  lemma MintSucceeds(s: State, to: Bytes, meta: Meta, witnessed: bool)
    requires Inv(s)
    ensures Mint(s, to, meta, witnessed).1 == Ret(true) <==>
      |to| == 20 && s.deploys < TotalSupplyValue && witnessed
  {
    IdsNext(s.deploys);
  }

  /** Mint keeps the ledger invariant. */
  lemma MintPreservesInv(s: State, to: Bytes, meta: Meta, witnessed: bool)
    requires Inv(s)
    ensures Inv(Mint(s, to, meta, witnessed).0)
  {
    var (s', r) := Mint(s, to, meta, witnessed);
    if r == Ret(true) {
      MintEffects(s, to, meta, witnessed);
      IdsNext(s.deploys);
      NewTokenKeepsInv(s, s', Encode(s.deploys + 1), to, meta);
    }
  }

  /** The invariant survives adding token id = deploys + 1 for `to`, with its metadata,
      a balance one higher, and any index write. */
  lemma NewTokenKeepsInv(s: State, s': State, id: Bytes, to: Addr, meta: Meta)
    requires Inv(s)
    requires id == Encode(s.deploys + 1) && id !in s.tokenOwners
    requires s'.deploys == s.deploys + 1 <= TotalSupplyValue
    requires s'.tokenOwners == s.tokenOwners[id := to]
    requires s'.tokenLinks == s.tokenLinks[id := meta]
    requires s'.balances == s.balances[to := Balance(s.balances, to) + 1]
    requires s'.totalSupply == s.totalSupply
    ensures Inv(s')
  {
    NewTokenKeepsCounts(s, s', id, to);
    IdsNext(s.deploys);
  }

  /** Balances still count owned tokens after a new token is assigned to `to`
      and `to`'s balance is raised by one. */
  lemma NewTokenKeepsCounts(s: State, s': State, id: Bytes, to: Addr)
    requires Inv(s) && id !in s.tokenOwners
    requires s'.tokenOwners == s.tokenOwners[id := to]
    requires s'.balances == s.balances[to := Balance(s.balances, to) + 1]
    ensures forall c: Addr :: Balance(s'.balances, c) == |Owned(s'.tokenOwners, c)|
  {
    OwnedAdd(s.tokenOwners, id, to);
    forall c: Addr
      ensures Balance(s'.balances, c) == |Owned(s'.tokenOwners, c)|
    {
      if c == to {
        assert |Owned(s'.tokenOwners, to)| == |Owned(s.tokenOwners, to)| + 1;
      } else {
        assert Owned(s'.tokenOwners, c) == Owned(s.tokenOwners, c);
      }
    }
  }

  /** When the recipient's list is exactly its balance long and followed by an empty
      position, a mint appends the new token to it. */
  lemma MintAppends(s: State, to: Addr, meta: Meta, witnessed: bool)
    requires Inv(s)
    requires Mint(s, to, meta, witnessed).1 == Ret(true)
    requires |TokenIndex.Listed(s.ownerTokens, to)| == Balance(s.balances, to)
    requires (to, Balance(s.balances, to) + 2) !in s.ownerTokens
    ensures TokenIndex.Listed(Mint(s, to, meta, witnessed).0.ownerTokens, to)
         == TokenIndex.Listed(s.ownerTokens, to) + [Encode(s.deploys + 1)]
  {
    MintEffects(s, to, meta, witnessed);
    OwnedBound(s.tokenOwners, to);
    IdsSize(s.deploys);
    TokenIndex.AppendListed(s.ownerTokens, to, Encode(s.deploys + 1));
  }

  // ---------------------------------------------------------------------------
  // Transfer and TakeOwnership

  /** What a balance move writes, given a sender with a positive balance. */
  lemma MoveTokenEffects(s: State, from: Addr, to: Addr, t: Bytes)
    requires from != to && t != []
    requires Balance(s.balances, from) >= 1
    ensures var s' := MoveToken(s, from, to, t).0;
      && s'.tokenOwners == s.tokenOwners[t := to]
      && Balance(s'.balances, from) == Balance(s.balances, from) - 1
      && (from in s'.balances <==> Balance(s.balances, from) > 1)
      && Balance(s'.balances, to) == Balance(s.balances, to) + 1
      && (forall c :: c != from && c != to ==> Balance(s'.balances, c) == Balance(s.balances, c))
      && TokenIndex.Listed(s'.ownerTokens, from)
         == TokenIndex.RemoveFirst(TokenIndex.Listed(s.ownerTokens, from), t)
      && (forall key: (Addr, int) :: key.0 != from ==>
            (key in s'.ownerTokens <==> key in s.ownerTokens) &&
            (key in s.ownerTokens ==> s'.ownerTokens[key] == s.ownerTokens[key]))
  {
    TokenIndex.RemoveListed(s.ownerTokens, from, t);
    TokenIndex.RemoveFrame(s.ownerTokens, from, t);
  }

  /** Moving a token away from its owner succeeds and keeps the invariant. */
  lemma MoveTokenPreservesInv(s: State, t: Bytes, to: Addr)
    requires Inv(s) && t != []
    requires t in s.tokenOwners && s.tokenOwners[t] != to
    ensures MoveToken(s, s.tokenOwners[t], to, t).1 == Ret(true)
    ensures Inv(MoveToken(s, s.tokenOwners[t], to, t).0)
  {
    var from := s.tokenOwners[t];
    UnderflowUnreachable(s, t);
    var s' := MoveToken(s, from, to, t).0;
    MoveTokenEffects(s, from, to, t);
    MoveKeepsCounts(s, s', t, to);
    assert s'.tokenOwners.Keys == s.tokenOwners.Keys;
  }

  /** The balance of every address still counts its tokens after one token moves. */
  lemma MoveKeepsCounts(s: State, s': State, t: Bytes, to: Addr)
    requires Inv(s) && t in s.tokenOwners && s.tokenOwners[t] != to
    requires s'.tokenOwners == s.tokenOwners[t := to]
    requires Balance(s'.balances, s.tokenOwners[t]) == Balance(s.balances, s.tokenOwners[t]) - 1
    requires Balance(s'.balances, to) == Balance(s.balances, to) + 1
    requires forall c :: c != s.tokenOwners[t] && c != to ==> Balance(s'.balances, c) == Balance(s.balances, c)
    ensures forall c: Addr :: Balance(s'.balances, c) == |Owned(s'.tokenOwners, c)|
  {
    var from := s.tokenOwners[t];
    OwnedMove(s.tokenOwners, t, to);
    forall c: Addr
      ensures Balance(s'.balances, c) == |Owned(s'.tokenOwners, c)|
    {
      if c == from {
        assert |Owned(s'.tokenOwners, from)| == |Owned(s.tokenOwners, from)| - 1;
      } else if c == to {
        assert |Owned(s'.tokenOwners, to)| == |Owned(s.tokenOwners, to)| + 1;
      } else {
        assert Owned(s'.tokenOwners, c) == Owned(s.tokenOwners, c);
      }
    }
  }

  /** Under the invariant a transfer succeeds exactly when the arguments are well
      formed and the caller owns the token. */
  lemma TransferSucceeds(s: State, to: Bytes, t: Bytes, caller: Addr)
    requires Inv(s)
    ensures Transfer(s, to, t, caller).1 == Ret(true) <==>
      |to| == 20 && t != [] && t in s.tokenOwners && s.tokenOwners[t] == caller
    ensures Inv(Transfer(s, to, t, caller).0)
  {
    if |to| == 20 && t != [] && t in s.tokenOwners && s.tokenOwners[t] == caller && to != caller {
      MoveTokenPreservesInv(s, t, to);
    }
  }

  /** Under the invariant a take-ownership succeeds exactly when the token exists and
      the caller owns it already or holds an approval naming exactly this token. */
  lemma TakeOwnershipSucceeds(s: State, t: Bytes, caller: Addr)
    requires Inv(s)
    ensures TakeOwnership(s, t, caller).1 == Ret(true) <==>
      && t != [] && t in s.tokenOwners
      && (s.tokenOwners[t] == caller ||
          ((s.tokenOwners[t], caller) in s.allowed && s.allowed[(s.tokenOwners[t], caller)] == t))
    ensures Inv(TakeOwnership(s, t, caller).0)
  {
    if t != [] && t in s.tokenOwners && s.tokenOwners[t] != caller {
      MoveTokenPreservesInv(s, t, caller);
    }
  }

  /** Approve writes only the approval table, so it keeps the invariant. */
  lemma ApprovePreservesInv(s: State, to: Bytes, t: Bytes, caller: Addr)
    requires Inv(s)
    ensures Inv(Approve(s, to, t, caller).0)
  {
  }

  /** An approval names one token: after approving X, the spender cannot take another
      token Y of the same owner. */
  lemma ApprovalIsExact(s: State, spender: Addr, x: Bytes, y: Bytes, owner: Addr)
    requires Approve(s, spender, x, owner).1 == Ret(true)
    requires y != x && y != [] && y in s.tokenOwners && s.tokenOwners[y] == owner
    ensures TakeOwnership(Approve(s, spender, x, owner).0, y, spender) == (Approve(s, spender, x, owner).0, Ret(false))
  {
    var s1 := Approve(s, spender, x, owner).0;
    assert s1.allowed[(owner, spender)] == x;
    assert s1.tokenOwners[y] == owner != spender;
  }
}
