/** Concrete runs of the ledger. They show what the enumeration index does and does
    not promise: transfers never append to the receiver's list, and minting writes at
    the position equal to the new balance, so an owner's list can have a gap that hides
    tokens the owner holds. */
module Scenarios {
  import opened Types
  import opened Encoding
  import TokenIndex
  import opened Ledger
  import LedgerProps

  /** Two distinct accounts. */
  function AddrA(): Addr { seq(20, _ => 1) }
  function AddrB(): Addr { seq(20, _ => 2) }

  /** The ids of the first two tokens. */
  function Id1(): Bytes { [1] }
  function Id2(): Bytes { [2] }

  lemma Ids12()
    ensures Encode(1) == Id1() && Encode(2) == Id2()
    ensures Decode(Id1()) == 1 && Decode(Id2()) == 2
  {
    assert Encode(0) == [];
    DecodeEncode(1);
    DecodeEncode(2);
  }

  /** The storage after A mints token 1 with empty metadata. */
  function AfterMintA(): State
  {
    State(map[AddrA() := 1], map[Id1() := AddrA()], map[Id1() := []],
          map[(AddrA(), 1) := Id1()], map[], 1, 0)
  }

  /** The storage after A then transfers token 1 to B. */
  function AfterTransfer(): State
  {
    State(map[AddrB() := 1], map[Id1() := AddrB()], map[Id1() := []],
          map[], map[], 1, 0)
  }

  /** The storage after B then mints token 2 with empty metadata. */
  function AfterMintB(): State
  {
    State(map[AddrB() := 2], map[Id1() := AddrB(), Id2() := AddrB()],
          map[Id1() := [], Id2() := []], map[(AddrB(), 2) := Id2()], map[], 2, 0)
  }

  /** A's mint succeeds: balance 1, token 1 at position 1 of A's list. */
  lemma MintA()
    ensures Mint(Empty(), AddrA(), [], true) == (AfterMintA(), Ret(true))
  {
    Ids12();
    var s := Mint(Empty(), AddrA(), [], true).0;
    assert s.ownerTokens == map[(AddrA(), 1) := Id1()];
  }

  /** A's transfer to B succeeds; it empties A's list and writes nothing into B's. */
  lemma TransferAB()
    ensures Transfer(AfterMintA(), AddrB(), Id1(), AddrA()) == (AfterTransfer(), Ret(true))
  {
    var a, b := AddrA(), AddrB();
    assert a[0] != b[0];
    var s := AfterMintA();
    TokenIndex.ListedExactly(s.ownerTokens, a, [Id1()]);
    assert TokenIndex.IndexOf([Id1()], Id1()) == Some(0);
    TokenIndex.ScanFoundShift(s.ownerTokens, a, Id1(), 0);
    var r := Transfer(s, b, Id1(), a).0;
    assert r.ownerTokens == TokenIndex.ShiftDown(s.ownerTokens, a, 1, 1);
    assert r.ownerTokens == map[];
    assert s.balances - {a} == map[];
    assert r.balances == map[b := 1];
    assert r.tokenOwners == map[Id1() := b];
    assert r == AfterTransfer();
  }

  /** B's mint succeeds: balance 2, and token 2 is written at position 2. */
  lemma MintB()
    ensures Mint(AfterTransfer(), AddrB(), [], true) == (AfterMintB(), Ret(true))
  {
    Ids12();
    var b := AddrB();
    var s0 := AfterTransfer();
    assert Id2() !in s0.tokenOwners;
    var s := Mint(s0, b, [], true).0;
    assert s.deploys == 2;
    assert s.balances == map[b := 2];
    assert s.tokenOwners == map[Id1() := b, Id2() := b];
    assert s.tokenLinks == map[Id1() := [], Id2() := []];
    assert s.ownerTokens == map[(b, 2) := Id2()];
    assert s == AfterMintB();
  }

  /** The three calls keep the ledger invariant. */
  lemma RunKeepsInv()
    ensures Inv(AfterMintB())
  {
    MintA();
    TransferAB();
    MintB();
    LedgerProps.EmptyInv();
    LedgerProps.MintPreservesInv(Empty(), AddrA(), [], true);
    LedgerProps.TransferSucceeds(AfterMintA(), AddrB(), Id1(), AddrA());
    LedgerProps.MintPreservesInv(AfterTransfer(), AddrB(), [], true);
  }

  /** In the final storage B holds two tokens but B's list reads as empty. */
  lemma GapInFinalState()
    ensures Balance(AfterMintB().balances, AddrB()) == 2
    ensures |Owned(AfterMintB().tokenOwners, AddrB())| == 2
    ensures TokenIndex.Listed(AfterMintB().ownerTokens, AddrB()) == []
  {
    var s3 := AfterMintB();
    assert Owned(s3.tokenOwners, AddrB()) == {Id1(), Id2()};
    TokenIndex.ListedExactly(s3.ownerTokens, AddrB(), []);
  }

  /** A mints token 1, A transfers it to B, then B mints token 2: every call succeeds
      and the ledger invariant holds, but B holds two tokens while position 1 of B's
      list is empty and token 2 sits at position 2, so B's list as enumeration reads
      it is empty. An index that is gap-free and matches the balance is therefore not
      an invariant of the contract. */
  lemma GapAfterTransfer()
    ensures var s1 := Mint(Empty(), AddrA(), [], true);
      var s2 := Transfer(s1.0, AddrB(), Encode(1), AddrA());
      var s3 := Mint(s2.0, AddrB(), [], true);
      && s1.1 == Ret(true) && s2.1 == Ret(true) && s3.1 == Ret(true)
      && Inv(s3.0)
      && Balance(s3.0.balances, AddrB()) == 2
      && |Owned(s3.0.tokenOwners, AddrB())| == 2
      && (AddrB(), 1) !in s3.0.ownerTokens
      && (AddrB(), 2) in s3.0.ownerTokens && s3.0.ownerTokens[(AddrB(), 2)] == Encode(2)
      && TokenIndex.Listed(s3.0.ownerTokens, AddrB()) == []
  {
    Ids12();
    MintA();
    TransferAB();
    MintB();
    RunKeepsInv();
    GapInFinalState();
  }

  // ---------------------------------------------------------------------------
  // Compaction: A mints tokens 1 and 2, then transfers token 1 to B.

  /** The storage after A mints a second token. */
  function AfterSecondMintA(): State
  {
    State(map[AddrA() := 2], map[Id1() := AddrA(), Id2() := AddrA()],
          map[Id1() := [], Id2() := []], map[(AddrA(), 1) := Id1(), (AddrA(), 2) := Id2()],
          map[], 2, 0)
  }

  /** The storage after A then transfers token 1 to B. */
  function AfterCompaction(): State
  {
    State(map[AddrA() := 1, AddrB() := 1], map[Id1() := AddrB(), Id2() := AddrA()],
          map[Id1() := [], Id2() := []], map[(AddrA(), 1) := Id2()], map[], 2, 0)
  }

  /** A's second mint succeeds and writes token 2 at position 2. */
  lemma SecondMintA()
    ensures Mint(AfterMintA(), AddrA(), [], true) == (AfterSecondMintA(), Ret(true))
  {
    Ids12();
    var a := AddrA();
    var s0 := AfterMintA();
    assert Id2() !in s0.tokenOwners;
    var s := Mint(s0, a, [], true).0;
    assert s.balances == map[a := 2];
    assert s.tokenOwners == map[Id1() := a, Id2() := a];
    assert s.tokenLinks == map[Id1() := [], Id2() := []];
    assert s.ownerTokens == map[(a, 1) := Id1(), (a, 2) := Id2()];
    assert s == AfterSecondMintA();
  }

  /** A's list after the second mint holds tokens 1 and 2. */
  lemma TwoListed()
    ensures TokenIndex.Listed(AfterSecondMintA().ownerTokens, AddrA()) == [Id1(), Id2()]
  {
    TokenIndex.ListedExactly(AfterSecondMintA().ownerTokens, AddrA(), [Id1(), Id2()]);
  }

  /** Shifting A's positions 1..2 down from position 1 leaves token 2 alone at position 1. */
  lemma ShiftTwo()
    ensures TokenIndex.ShiftDown(AfterSecondMintA().ownerTokens, AddrA(), 1, 2)
         == map[(AddrA(), 1) := Id2()]
  {
    var r := TokenIndex.ShiftDown(AfterSecondMintA().ownerTokens, AddrA(), 1, 2);
    assert r.Keys == {(AddrA(), 1)};
  }

  /** Removing the first of A's two listed tokens moves token 2 down to position 1
      and empties position 2. */
  lemma RemoveFirstOfTwo()
    ensures TokenIndex.Remove(AfterSecondMintA().ownerTokens, AddrA(), Id1())
         == (map[(AddrA(), 1) := Id2()], Ret(true))
  {
    var a := AddrA();
    var m := AfterSecondMintA().ownerTokens;
    TwoListed();
    assert Id1() != Id2();
    assert TokenIndex.IndexOf([Id1(), Id2()], Id1()) == Some(0);
    TokenIndex.ScanFoundAnswer(m, a, Id1(), 0);
    TokenIndex.ScanFoundShift(m, a, Id1(), 0);
    ShiftTwo();
  }

  /** Moving token 1 from A to B succeeds and compacts A's list. */
  lemma MoveFirstOfTwoIndex()
    ensures var r := MoveToken(AfterSecondMintA(), AddrA(), AddrB(), Id1());
      r.1 == Ret(true) && r.0.ownerTokens == map[(AddrA(), 1) := Id2()]
  {
    RemoveFirstOfTwo();
  }

  /** Moving token 1 from A to B leaves A and B one token each. */
  lemma MoveFirstOfTwoBalances()
    ensures var r := MoveToken(AfterSecondMintA(), AddrA(), AddrB(), Id1());
      && r.0.balances == map[AddrA() := 1, AddrB() := 1]
      && r.0.tokenOwners == map[Id1() := AddrB(), Id2() := AddrA()]
  {
    var a, b := AddrA(), AddrB();
    assert a[0] != b[0];
    var s := AfterSecondMintA();
    var b1 := s.balances[a := 1];
    assert Balance(b1, b) == 0;
    assert b1[b := 1] == map[a := 1, b := 1];
    assert s.tokenOwners[Id1() := b] == map[Id1() := b, Id2() := a];
  }

  /** Moving token 1 from A to B: A keeps one token, B gets one, A's list is compacted. */
  lemma MoveFirstOfTwo()
    ensures MoveToken(AfterSecondMintA(), AddrA(), AddrB(), Id1()) == (AfterCompaction(), Ret(true))
  {
    MoveFirstOfTwoIndex();
    MoveFirstOfTwoBalances();
  }

  /** A's transfer of token 1 to B succeeds, compacting A's list. */
  lemma TransferFirstOfTwo()
    ensures Transfer(AfterSecondMintA(), AddrB(), Id1(), AddrA()) == (AfterCompaction(), Ret(true))
  {
    assert AddrA()[0] != AddrB()[0];
    MoveFirstOfTwo();
  }

  /** In the compacted storage A's list is [token 2] and B's is empty. */
  lemma CompactedLists()
    ensures TokenIndex.Listed(AfterCompaction().ownerTokens, AddrA()) == [Id2()]
    ensures TokenIndex.Listed(AfterCompaction().ownerTokens, AddrB()) == []
  {
    assert AddrA()[0] != AddrB()[0];
    TokenIndex.ListedExactly(AfterCompaction().ownerTokens, AddrA(), [Id2()]);
    TokenIndex.ListedExactly(AfterCompaction().ownerTokens, AddrB(), []);
  }

  /** Mint to A twice, then transfer token 1 from A to B: A's balance and B's are 1,
      token 1 belongs to B, and A's list is compacted to [token 2] with position 2
      empty. B's list stays empty, since a transfer does not append to it. */
  lemma CompactAfterTransfer()
    ensures var s1 := Mint(Empty(), AddrA(), [], true);
      var s2 := Mint(s1.0, AddrA(), [], true);
      var s3 := Transfer(s2.0, AddrB(), Encode(1), AddrA());
      && s1.1 == Ret(true) && s2.1 == Ret(true) && s3.1 == Ret(true)
      && Balance(s3.0.balances, AddrA()) == 1 && Balance(s3.0.balances, AddrB()) == 1
      && Encode(1) in s3.0.tokenOwners && s3.0.tokenOwners[Encode(1)] == AddrB()
      && (AddrA(), 1) in s3.0.ownerTokens && s3.0.ownerTokens[(AddrA(), 1)] == Encode(2)
      && (AddrA(), 2) !in s3.0.ownerTokens
      && TokenIndex.Listed(s3.0.ownerTokens, AddrA()) == [Encode(2)]
      && TokenIndex.Listed(s3.0.ownerTokens, AddrB()) == []
  {
    Ids12();
    MintA();
    SecondMintA();
    TransferFirstOfTwo();
    CompactedLists();
  }
}
