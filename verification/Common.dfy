/** The scalar types of include/lob/common.hpp, and the result types the whole project uses. */
module Common {
  type Byte = b: nat | b < 0x100
  type Price = p: nat | p < 0x1_0000_0000
  type Quantity = q: nat | q < 0x1_0000_0000
  type OrderId = i: nat | i < 0x1_0000_0000_0000_0000
  type MatchId = i: nat | i < 0x1_0000_0000_0000_0000
  type StockLocate = l: nat | l < 0x1_0000
  /** ITCH carries a 48-bit nanosecond timestamp. */
  type Timestamp = t: nat | t < 0x1_0000_0000_0000

  datatype Side = Buy | Sell {
    function Opposite(): Side {
      if this == Buy then Sell else Buy
    }

    /** The position of this side in the two-element arrays of the book. */
    function Index(): (i: nat)
      ensures i < 2
    {
      if this == Buy then 0 else 1
    }
  }

  datatype Option<+T> = None | Some(value: T)

  /** What a call that may run out of memory does: return a value, or throw. */
  datatype Outcome<+T> = Returned(value: T) | Threw

  /** The behaviour of the allocator from now on: `After(n)` grants `n` more requests and then
      fails, `Never` never fails. */
  datatype Alloc = Never | After(n: nat) {
    predicate Fails() {
      this == After(0)
    }

    function Next(): Alloc
      requires !Fails()
    {
      if Never? then Never else After(n - 1)
    }
  }
}
