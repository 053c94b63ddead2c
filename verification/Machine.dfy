/** The machine the assembly runs on: register widths, flat memory and the
    carry-propagating additions. Memory is one array of bytes, a pointer is an
    index into it, and address 0 is the null pointer. */
module Machine {

  const TWO32 := 0x1_0000_0000
  const TWO64 := 0x1_0000_0000_0000_0000

  type byte = x: int | 0 <= x < 0x100
  type u16 = x: int | 0 <= x < 0x1_0000
  type u32 = x: int | 0 <= x < 0x1_0000_0000
  type u64 = x: int | 0 <= x < 0x1_0000_0000_0000_0000
  type bit = x: int | 0 <= x <= 1

  /** What a caller of a routine taking (pointer, length) must provide: nothing at
      all for a null pointer or a zero length, otherwise a block inside memory. */
  predicate Block(mem: array<byte>, p: nat, n: nat) {
    p == 0 || n == 0 || p + n <= mem.Length
  }

  /** Little-endian value of the two bytes of `s` at `i`. */
  function Word16(s: seq<byte>, i: nat): u16
    requires i + 2 <= |s|
  {
    s[i] as int + 0x100 * (s[i + 1] as int)
  }

  /** Little-endian value of the eight bytes of `s` at `i`. */
  function Word64(s: seq<byte>, i: nat): u64
    requires i + 8 <= |s|
  {
    Word16(s, i) + 0x1_0000 * Word16(s, i + 2) + 0x1_0000_0000 * Word16(s, i + 4)
    + 0x1_0000_0000_0000 * Word16(s, i + 6)
  }

  /** `mov r64, [a]` */
  function Load64(mem: array<byte>, a: nat): u64
    requires a + 8 <= mem.Length
    reads mem
  {
    Word64(mem[..], a)
  }

  /** `movzx r32, word [a]` */
  function Load16(mem: array<byte>, a: nat): u16
    requires a + 2 <= mem.Length
    reads mem
  {
    Word16(mem[..], a)
  }

  /** `adc` on registers holding values below `2^n == width`: the new register and carry. */
  function Adc(width: nat, a: nat, b: nat, cf: bit): (r: (nat, bit))
    requires a < width && b < width
    ensures r.0 < width && r.0 + width * r.1 == a + b + cf
  {
    var t := a + b + cf;
    if t < width then (t, 0) else (t - width, 1)
  }

  /** What the processor can run beyond the baseline of x86-64, which includes SSE2. */
  datatype Processor = Processor(sse42: bool, avx: bool, avx2: bool, rdtscp: bool)

  /** AVX2 extends AVX. */
  type Cpu = p: Processor | p.avx2 ==> p.avx witness Processor(false, false, false, false)

  /** How a routine ends: normally, at an instruction the processor does not know, or at a
      streaming store to a misaligned address. Both exceptions end the process. */
  datatype Trap = NoTrap | InvalidOpcode | Misaligned

  /** 2 to the power n. */
  function Power(n: nat): (p: nat)
    ensures p > 0
  {
    if n == 0 then 1 else 2 * Power(n - 1)
  }
}
