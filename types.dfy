/** The ledger's records and the machine integer types they are built from. */
module Types {

  const U32_LIMIT: int := 0x1_0000_0000

  /** Rust's `u32`. */
  type u32 = x: int | 0 <= x < U32_LIMIT

  /** Rust's `i32` (the header timestamp). */
  type i32 = x: int | -0x8000_0000 <= x < 0x8000_0000

  /** One digest byte. */
  type byte = x: int | 0 <= x < 256

  datatype Option<T> = None | Some(value: T)

  /** A transfer waiting in the pool or sealed in a block; the `f32` amount is only copied, so a real stands for it. */
  datatype Transaction = Transaction(sender: string, receiver: string, amount: real)

  /** Every field but `nonce` is fixed before mining starts. */
  datatype BlockHeader = BlockHeader(
    timestamp: i32,
    nonce: u32,
    preHash: string,
    merkle: string,
    difficulty: u32)

  datatype Block = Block(header: BlockHeader, count: u32, transactions: seq<Transaction>)

  /** Rust's `n as u32` on a length: keep the low 32 bits. */
  function AsU32(n: nat): (r: u32)
    ensures n < U32_LIMIT ==> r == n
  {
    n % U32_LIMIT
  }
}
