/**
 * Machine-level vocabulary of the hypervisor: 64-bit addresses and sizes
 * (`unsigned long`, `size_t`) as integers with explicit wrap-around, the
 * `unsigned long` a trapped write carries as a `bv64`, 32-bit register
 * words (`uint32_t`) as `bv32`, the
 * integer error codes the driver returns, and page rounding.
 */
module Machine {

  const TWO32: int := 0x1_0000_0000
  const TWO64: int := 0x1_0000_0000_0000_0000

  /** An `unsigned long` / `size_t` / pointer value on a 64-bit machine. */
  type u64 = x: int | 0 <= x < 0x1_0000_0000_0000_0000

  /** An `int` of the C code (32-bit, two's complement). */
  type i32 = x: int | -0x8000_0000 <= x < 0x8000_0000

  /** Error codes, negated on return as the driver does (`-EINVAL`, ...). */
  const ENOMEM: int := 12
  const EFAULT: int := 14
  const EINVAL: int := 22

  /** Unsigned 64-bit subtraction, wrapping modulo 2^64. */
  function Sub64(a: u64, b: u64): (r: u64)
    ensures (r + b) % TWO64 == a
    ensures a >= b ==> r == a - b
  {
    if a >= b then a - b else a - b + TWO64
  }

  /** Unsigned 64-bit addition, wrapping modulo 2^64. */
  function Add64(a: u64, b: u64): (r: u64)
    ensures a + b < TWO64 ==> r == a + b
    ensures a + b >= TWO64 ==> r == a + b - TWO64
  {
    (a + b) % TWO64
  }

  lemma SubAfterAdd(base: u64, off: u64)
    ensures Sub64(Add64(base, off), base) == off
  {
  }

  /** `*(uint32_t *)p` of an `unsigned long *p` on a little-endian machine: the low word. */
  function Low32(w: bv64): (v: bv32) {
    (w & 0xffff_ffff) as bv32
  }

  /** A 32-bit word zero-extended into an `unsigned long`. */
  function Widen(v: bv32): (w: bv64) {
    v as bv64
  }

  /** `uint32_t` subtraction: wraps modulo 2^32. */
  function Sub32(a: bv32, b: bv32): (r: bv32) {
    a - b
  }

  lemma LowOfWiden(v: bv32)
    ensures Low32(Widen(v)) == v
  {
  }

  // Converting an unbounded integer to a bit-vector in one step is costly
  // for the solver, so a 32-bit word is assembled from nibbles.

  lemma Join8(hi: bv4, lo: bv4)
    ensures ((hi as bv8 << 4) | lo as bv8) as int == hi as int * 0x10 + lo as int
  {
  }

  lemma Join16(hi: bv8, lo: bv8)
    ensures ((hi as bv16 << 8) | lo as bv16) as int == hi as int * 0x100 + lo as int
  {
  }

  lemma Join32(hi: bv16, lo: bv16)
    ensures ((hi as bv32 << 16) | lo as bv32) as int == hi as int * 0x1_0000 + lo as int
  {
  }

  function NibbleOf(n: int): (b: bv4)
    requires 0 <= n < 0x10
    ensures b as int == n
  {
    n as bv4
  }

  function ByteOf(n: int): (b: bv8)
    requires 0 <= n < 0x100
    ensures b as int == n
  {
    var hi, lo := NibbleOf(n / 0x10), NibbleOf(n % 0x10);
    Join8(hi, lo);
    (hi as bv8 << 4) | lo as bv8
  }

  function HalfOf(n: int): (h: bv16)
    requires 0 <= n < 0x1_0000
    ensures h as int == n
  {
    var hi, lo := ByteOf(n / 0x100), ByteOf(n % 0x100);
    Join16(hi, lo);
    (hi as bv16 << 8) | lo as bv16
  }

  /** The 32-bit word whose unsigned value is `n`. */
  function WordOf(n: int): (w: bv32)
    requires 0 <= n < TWO32
    ensures w as int == n
  {
    var hi, lo := HalfOf(n / 0x1_0000), HalfOf(n % 0x1_0000);
    Join32(hi, lo);
    (hi as bv32 << 16) | lo as bv32
  }

  /** `(uint32_t)x` for a C `int`: the 32-bit two's-complement pattern of `x`. */
  function Word(x: i32): (w: bv32)
    ensures w as int == if x < 0 then x + TWO32 else x
  {
    WordOf(if x < 0 then x + TWO32 else x)
  }

  const PAGE_SHIFT: nat := 12
  const PAGE_SIZE: nat := 4096

  /** The largest size that PAGE_BALIGN rounds up without wrapping past 2^64. */
  const MAX_ALIGNABLE: int := TWO64 - PAGE_SIZE

  /**
   * PAGE_BALIGN(size): `(size + PAGE_SIZE - 1) & ~(PAGE_SIZE - 1)` on a 64-bit
   * `size_t`. The addition wraps, so a size within one page of 2^64 rounds to 0.
   */
  function PageAlign(size: u64): (r: u64)
    ensures r % PAGE_SIZE == 0
    ensures size <= MAX_ALIGNABLE ==> size <= r < size + PAGE_SIZE
    ensures size > MAX_ALIGNABLE ==> r == 0
  {
    var bumped := Add64(size, PAGE_SIZE - 1);
    bumped - bumped % PAGE_SIZE
  }

  /** PAGE_NR(size): the number of whole pages in `size` bytes. */
  function PageNr(size: u64): (n: u64) {
    size / PAGE_SIZE
  }
}
