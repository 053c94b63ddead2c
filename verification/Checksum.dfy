/** The three implementations of the Internet checksum: the dual-accumulator and the
    single-accumulator add-with-carry chains, and the 32-bit scalar loop. */
module InternetChecksum {
  import opened Machine
  import opened OnesComplement

  const ONES64: u64 := TWO64 - 1

  /** What both assembly routines return. */
  function AsmChecksum(mem: seq<byte>, buffer: nat, len: nat): u16
    requires buffer == 0 || len == 0 || buffer + len <= |mem|
  {
    if buffer == 0 || len == 0 then 0 else Checksum(mem[buffer..buffer + len])
  }

  /** An `adc` moves a value into an accumulator; `others` is whatever else is still to be
      added. A carry out is worth one, since 2^64 is congruent to 1 modulo 65535. */
  lemma AdcKeepsCanon(acc: u64, v: u64, cf: bit, others: nat)
    ensures var (acc', cf') := Adc(TWO64, acc, v, cf);
            Canon(others + acc' + cf') == Canon(others + acc + cf + v)
  {
    var (acc', cf') := Adc(TWO64, acc, v, cf);
    CanonShift(others + acc + cf + v, others + acc' + cf', 0x1_0001_0001_0001 * cf');
  }

  lemma QwordCounts(mem: array<byte>, a: nat, end: nat, x: nat)
    requires a + 8 <= end <= mem.Length
    ensures Canon(x + Load64(mem, a) + WordSum(mem[a + 8..end])) == Canon(x + WordSum(mem[a..end]))
  {
    hide Canon, WordSum;
    var s := mem[a..end];
    assert s[8..] == mem[a + 8..end] && Load64(mem, a) == Word64(s, 0);
    Load64Counts(s, x);
  }

  lemma WordCounts(mem: array<byte>, a: nat, end: nat)
    requires a + 2 <= end <= mem.Length
    ensures WordSum(mem[a..end]) == Load16(mem, a) + WordSum(mem[a + 2..end])
  {
    assert mem[a..end][2..] == mem[a + 2..end];
  }

  lemma TailCounts(mem: array<byte>, a: nat, end: nat)
    requires a <= end <= mem.Length && end <= a + 1
    ensures WordSum(mem[a..end]) == if a < end then 0x100 * mem[a] as int else 0
  {
  }

  /** `mov reg,[a]; adc acc,reg`: eight bytes move from the buffer into an accumulator. An
      accumulator of all ones with a carry can only come from an earlier such state. */
  method AdcLoad(mem: array<byte>, a: nat, ghost end: nat, acc: u64, cf: bit, ghost others: nat)
    returns (acc': u64, cf': bit)
    requires a + 8 <= end <= mem.Length
    ensures Canon(others + acc' + cf' + WordSum(mem[a + 8..end]))
         == Canon(others + acc + cf + WordSum(mem[a..end]))
    ensures acc' == ONES64 && cf' == 1 ==> acc == ONES64 && cf == 1
  {
    var v := Load64(mem, a);
    var (r, c) := Adc(TWO64, acc, v, cf);
    acc', cf' := r, c;
    hide Canon, WordSum, Load64;
    QwordCounts(mem, a, end, others + acc + cf);
    AdcKeepsCanon(acc, v, cf, others + WordSum(mem[a + 8..end]));
  }

  /** Eight such steps alternating between the accumulators, sixty-four bytes in all. The
      128-byte body is two of these back to back, the 64-byte step is one. */
  method AdcRound(mem: array<byte>, a: nat, ghost end: nat, x: u64, y: u64, c: bit)
    returns (r8: u64, r10: u64, cf: bit)
    requires a + 64 <= end <= mem.Length
    requires !(x == ONES64 && y == ONES64 && c == 1)
    ensures Canon(r8 + r10 + cf + WordSum(mem[a + 64..end])) == Canon(x + y + c + WordSum(mem[a..end]))
    ensures !(r8 == ONES64 && r10 == ONES64 && cf == 1)
  {
    hide Canon, WordSum;
    r8, cf := AdcLoad(mem, a, end, x, c, y);
    r10, cf := AdcLoad(mem, a + 8, end, y, cf, r8);
    r8, cf := AdcLoad(mem, a + 16, end, r8, cf, r10);
    r10, cf := AdcLoad(mem, a + 24, end, r10, cf, r8);
    r8, cf := AdcLoad(mem, a + 32, end, r8, cf, r10);
    r10, cf := AdcLoad(mem, a + 40, end, r10, cf, r8);
    r8, cf := AdcLoad(mem, a + 48, end, r8, cf, r10);
    r10, cf := AdcLoad(mem, a + 56, end, r10, cf, r8);
  }

  /** `adc r8,0; adc r10,0`: folding the carry back loses none, because the two accumulators
      and the carry are never all ones together. */
  method FoldCarry(r8: u64, r10: u64, cf: bit, ghost rest: nat) returns (r8': u64, r10': u64)
    requires !(r8 == ONES64 && r10 == ONES64 && cf == 1)
    ensures Canon(r8' + r10' + rest) == Canon(r8 + r10 + cf + rest)
  {
    var (s, c) := Adc(TWO64, r8, 0, cf);
    var (t, lost) := Adc(TWO64, r10, 0, c);
    assert lost == 0;
    r8', r10' := s, t;
    CanonShift(r8 + r10 + cf + rest, r8' + r10' + rest, 0x1_0001_0001_0001 * c);
  }

  /** `movzx r9d,word [rcx]; adc r8,r9; adc r8,0` with a clear carry, and likewise for the
      64-bit and the single-byte tail: one value enters r8, carry folded. */
  method AdcFolded(r8: u64, v: u64, ghost others: nat) returns (r8': u64)
    ensures Canon(others + r8') == Canon(others + r8 + v)
  {
    var (s, c) := Adc(TWO64, r8, v, 0);
    var (t, lost) := Adc(TWO64, s, 0, c);
    assert lost == 0;
    r8' := t;
    AdcKeepsCanon(r8, v, 0, others);
  }

  /** The shared ends of both routines: 8-byte, 2-byte and 1-byte steps. `.loop_8` to `.loop_1`. */
  method ChecksumTail(mem: array<byte>, buffer: nat, len: nat, acc: u64, ghost others: nat) returns (r8: u64)
    requires buffer + len <= mem.Length
    ensures Canon(others + r8) == Canon(others + acc + WordSum(mem[buffer..buffer + len]))
  {
    hide Canon, WordSum, Load16, Load64;
    var rcx, rdx := buffer, len;
    ghost var end := buffer + len;
    r8 := acc;
    while rdx >= 8
      invariant rcx + rdx == end
      invariant Canon(others + r8 + WordSum(mem[rcx..end])) == Canon(others + acc + WordSum(mem[buffer..end]))
    {
      ghost var rest := WordSum(mem[rcx + 8..end]);
      QwordCounts(mem, rcx, end, others + r8);
      r8 := AdcFolded(r8, Load64(mem, rcx), others + rest);
      rcx, rdx := rcx + 8, rdx - 8;
    }
    while rdx >= 2
      invariant rcx + rdx == end
      invariant rdx < 8
      invariant Canon(others + r8 + WordSum(mem[rcx..end])) == Canon(others + acc + WordSum(mem[buffer..end]))
    {
      ghost var rest := WordSum(mem[rcx + 2..end]);
      WordCounts(mem, rcx, end);
      r8 := AdcFolded(r8, Load16(mem, rcx), others + rest);
      rcx, rdx := rcx + 2, rdx - 2;
    }
    TailCounts(mem, rcx, end);
    if rdx >= 1 {
      // shl r9d, 8 leaves the carry clear: bit 24 of a byte is 0
      r8 := AdcFolded(r8, 0x100 * mem[rcx] as int, others);
    }
  }

  /** Halving folds of the 64-bit sum, then the complement: `.fold_accumulators`. */
  method FoldAndComplement(r8: u64) returns (ax: u16)
    ensures ax == 0xFFFF - Canon(r8)
  {
    var (sum32, c) := Adc(TWO32, r8 / TWO32, r8 % TWO32, 0);
    var (eax, lost) := Adc(TWO32, sum32, 0, c);
    assert lost == 0;
    CanonShift(r8, eax, 0x1_0001 * (r8 / TWO32 + c));
    var (sum16, d) := Adc(0x1_0000, eax % 0x1_0000, eax / 0x1_0000, 0);
    var (lo, lost16) := Adc(0x1_0000, sum16, 0, d);
    assert lost16 == 0;
    CanonShift(eax, lo, eax / 0x1_0000 + d);
    ax := 0xFFFF - lo;
  }

  /** `asm_avx2_checksum`, also exported as `asm_fast_checksum_x64`. */
  method Avx2Checksum(mem: array<byte>, buffer: nat, len: nat) returns (ax: u16)
    requires Block(mem, buffer, len)
    ensures ax == AsmChecksum(mem[..], buffer, len)
  {
    hide Canon, WordSum;
    if buffer == 0 || len == 0 { return 0; }
    var rcx, rdx := buffer, len;
    var r8: u64, r10: u64, cf: bit := 0, 0, 0;
    ghost var end := buffer + len;
    ghost var all := Canon(WordSum(mem[buffer..end]));

    while rdx >= 128
      invariant rcx + rdx == end
      invariant Canon(r8 + r10 + WordSum(mem[rcx..end])) == all
    {
      r8, r10, cf := AdcRound(mem, rcx, end, r8, r10, 0);  // cmp leaves the carry clear
      r8, r10, cf := AdcRound(mem, rcx + 64, end, r8, r10, cf);
      r8, r10 := FoldCarry(r8, r10, cf, WordSum(mem[rcx + 128..end]));
      rcx, rdx := rcx + 128, rdx - 128;
    }
    if rdx >= 64 {
      r8, r10, cf := AdcRound(mem, rcx, end, r8, r10, 0);
      r8, r10 := FoldCarry(r8, r10, cf, WordSum(mem[rcx + 64..end]));
      rcx, rdx := rcx + 64, rdx - 64;
    }
    r8 := ChecksumTail(mem, rcx, rdx, r8, r10);
    r8 := AdcFolded(r8, r10, 0);
    ax := FoldAndComplement(r8);
    OnesSumIsCanon(mem[buffer..end]);
    assert mem[..][buffer..end] == mem[buffer..end];
  }

  /** `asm_sse2_checksum`. */
  method Sse2Checksum(mem: array<byte>, buffer: nat, len: nat) returns (ax: u16)
    requires Block(mem, buffer, len)
    ensures ax == AsmChecksum(mem[..], buffer, len)
  {
    hide Canon, WordSum;
    if buffer == 0 || len == 0 { return 0; }
    var rcx, rdx := buffer, len;
    var r8: u64, cf: bit := 0, 0;
    ghost var end := buffer + len;
    ghost var all := Canon(WordSum(mem[buffer..end]));

    while rdx >= 32
      invariant rcx + rdx == end
      invariant Canon(r8 + WordSum(mem[rcx..end])) == all
    {
      cf := 0;
      r8, cf := AdcLoad(mem, rcx, end, r8, cf, 0);
      r8, cf := AdcLoad(mem, rcx + 8, end, r8, cf, 0);
      r8, cf := AdcLoad(mem, rcx + 16, end, r8, cf, 0);
      r8, cf := AdcLoad(mem, rcx + 24, end, r8, cf, 0);
      var (s, lost) := Adc(TWO64, r8, 0, cf);
      assert lost == 0;
      r8 := s;
      rcx, rdx := rcx + 32, rdx - 32;
    }
    r8 := ChecksumTail(mem, rcx, rdx, r8, 0);
    ax := FoldAndComplement(r8);
    OnesSumIsCanon(mem[buffer..end]);
    assert mem[..][buffer..end] == mem[buffer..end];
  }

  /** What the scalar loop computes: the word sum is taken modulo 2^32. */
  function ScalarResult(data: seq<byte>): u16 {
    0xFFFF - Canon(WordSum(data) % TWO32)
  }

  /** Unsigned 32-bit addition wraps. */
  function Add32(a: u32, b: nat): u32 { (a + b) % TWO32 }

  lemma Add32Chain(a: u32, b: nat, x: nat)
    ensures Add32(Add32(a, b), x) == Add32(a, b + x)
  {
  }

  /** `ScalarChecksum16` over its whole buffer `data`: 32-bit additions that wrap, then folding
      until the sum fits in 16 bits. */
  method ScalarChecksum16(data: array<byte>) returns (r: u16)
    ensures r == ScalarResult(data[..])
  {
    hide Canon, Add32;
    var ptr, len := 0, data.Length;
    var sum: u32 := 0;
    ghost var all := WordSum(data[..]);
    assert data[0..] == data[..];
    while len > 1
      invariant 0 <= len && ptr + len == data.Length
      invariant Add32(sum, WordSum(data[ptr..])) == Add32(0, all)
    {
      assert data[ptr..][2..] == data[ptr + 2..];
      Add32Chain(sum, Load16(data, ptr), WordSum(data[ptr + 2..]));
      sum := Add32(sum, Load16(data, ptr));
      ptr, len := ptr + 2, len - 2;
    }
    if len > 0 {
      assert |data[ptr..]| == 1;
      Add32Chain(sum, 0x100 * data[ptr] as int, 0);
      sum := Add32(sum, 0x100 * data[ptr] as int);
    }
    ScalarSumIs(sum, all);
    sum := FoldScalar(sum);
    r := 0xFFFF - sum;
  }

  lemma ScalarSumIs(sum: u32, all: nat)
    requires Add32(sum, 0) == Add32(0, all)
    ensures sum == all % TWO32
  {
  }

  /** The closing loop of the scalar routine: `while (sum >> 16)`. */
  method FoldScalar(total: u32) returns (sum: u16)
    ensures sum == Canon(total)
  {
    var s := total;
    while s / 0x1_0000 != 0
      invariant 0 <= s <= total && Canon(s) == Canon(total)
      decreases s
    {
      CanonShift(s, s % 0x1_0000 + s / 0x1_0000, s / 0x1_0000);
      s := s % 0x1_0000 + s / 0x1_0000;
    }
    sum := s;
  }
}
