/** Basic storage-level types shared by every module of the NFT ledger model. */
module Types {

  /** An unsigned byte: every storage key and value is a sequence of these. */
  newtype byte = x: int | 0 <= x < 256

  type Bytes = seq<byte>

  /** An account: a 20-byte script hash. */
  type Addr = s: Bytes | |s| == 20 witness seq(20, _ => 0)

  /** Token metadata, stored once at mint time and never rewritten. */
  type Meta = Bytes

  /** The fixed cap on minted tokens; it also bounds the index scan of RemoveFromTokenList. */
  const TotalSupplyValue: nat := 10000000000000000

  datatype Option<T> = None | Some(value: T)

  /** The outcome of a contract call: `Abort` stands for a thrown
      InvalidOperationException (no write of the call is visible),
      `Ret(v)` for a normal return of `v`. */
  datatype Result<T> = Abort | Ret(value: T)
}
