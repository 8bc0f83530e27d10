/** Flat, byte-addressed memory: the ground every other module works on.

    The toolkit touches raw memory it does not own. Here that memory is a
    partial map from addresses to bytes; an address outside the map's domain
    is memory the caller is not allowed to touch. Every access carries the
    caller's obligation, stated as `Mapped`, that the bytes it touches exist.
 */
module Mem {

  /** An unsigned 8-bit value (`u8`). */
  type byte = x: int | 0 <= x < 256

  /** Memory as a partial map from addresses to bytes. */
  type Memory = map<nat, byte>

  /** The null pointer. */
  const NULL: nat := 0

  /** Pointers (`usize`) are 8 bytes wide, so every address lies below 2^64. */
  const POINTER_SIZE: nat := 8
  const ADDRESS_LIMIT: nat := 0x1_0000_0000_0000_0000

  datatype Option<+T> = None | Some(value: T)

  /** The `n` bytes starting at `p` may be accessed: they do not start at
      null, they do not run past the end of the address space (so address
      arithmetic inside them cannot wrap), and every one of them is in the
      map. An empty range may be accessed anywhere. */
  predicate Mapped(mem: Memory, p: nat, n: nat)
  {
    n == 0 || (NULL < p && p + n <= ADDRESS_LIMIT && forall i :: p <= i < p + n ==> i in mem)
  }

  /** `m'` has the same domain as `mem` and agrees with it everywhere outside
      the `n` bytes starting at `p`. */
  predicate UnchangedOutside(mem: Memory, m': Memory, p: nat, n: nat)
  {
    && m'.Keys == mem.Keys
    && forall a :: a in mem && !(p <= a < p + n) ==> m'[a] == mem[a]
  }

  /** A range inside an accessible range is accessible. */
  lemma MappedWithin(mem: Memory, p: nat, n: nat, q: nat, k: nat)
    requires Mapped(mem, p, n)
    requires p <= q && q + k <= p + n
    ensures Mapped(mem, q, k)
  {
  }

  /** Accessibility depends only on the domain of the map. */
  lemma MappedSameKeys(mem: Memory, m': Memory, p: nat, n: nat)
    requires Mapped(mem, p, n)
    requires m'.Keys == mem.Keys
    ensures Mapped(m', p, n)
  {
    assert forall i :: i in mem <==> i in m';
  }
}
