/** `asm_crc32_fast`: the CRC-32C of a buffer by the hardware instruction, eight bytes at a
    time and then one at a time, against the bit-serial reflected algorithm. */
module Crc32c {
  import opened Machine
  import opened Gf2

  // ---- Bits -----------------------------------------------------------------------------

  /** The low `k` bits of `n`, least significant first. */
  function BitsOf(n: nat, k: nat): (b: seq<bool>)
    ensures |b| == k
  {
    if k == 0 then [] else [n % 2 == 1] + BitsOf(n / 2, k - 1)
  }

  /** A message is transmitted byte by byte, each byte least significant bit first. */
  function MessageBits(data: seq<byte>): (m: seq<bool>)
    ensures |m| == 8 * |data|
  {
    if data == [] then [] else BitsOf(data[0], 8) + MessageBits(data[1..])
  }

  /** The lowest bit of a register, and the others moved down. */
  predicate Odd(c: bv32) { c & 1 == 1 }

  function Half(c: bv32): bv32 { c >> 1 }

  /** A register from its upper bits and its lowest bit. */
  function Join(h: bv32, odd: bool): bv32 { (h << 1) | (if odd then 1 else 0) }

  lemma JoinParts(c: bv32)
    ensures Join(Half(c), Odd(c)) == c
  {
  }

  function XorReg(c: bv32, d: bv32): bv32 { c ^ d }

  lemma XorParts(c: bv32, d: bv32)
    ensures Half(XorReg(c, d)) == XorReg(Half(c), Half(d))
    ensures Odd(XorReg(c, d)) <==> Odd(c) != Odd(d)
  {
  }

  /** The low `k` bits of a register, least significant first. All 32 of them, read as a
      polynomial with the highest power first, are the register after BIT_REFLECT32. */
  function Bits(c: bv32, k: nat): (s: seq<bool>)
    ensures |s| == k
  {
    if k == 0 then [] else [Odd(c)] + Bits(Half(c), k - 1)
  }

  function FromBits(s: seq<bool>): bv32 {
    if s == [] then 0 else Join(FromBits(s[1..]), s[0])
  }

  /** At most the low `k` bits of `c` are set. */
  predicate Narrow(c: bv32, k: nat) {
    if k == 0 then c == 0 else Narrow(Half(c), k - 1)
  }

  lemma Shift8(c: bv32)
    ensures Half(Half(Half(Half(Half(Half(Half(Half(c)))))))) == c >> 8
  {
  }

  lemma Narrow8(c: bv32, k: nat)
    requires Narrow(c >> 8, k)
    ensures Narrow(c, k + 8)
  {
    hide Half;
    Shift8(c);
    var c4 := Half(Half(Half(Half(c))));
    assert Narrow(Half(c4), k + 3) by {
      assert Narrow(Half(Half(Half(c4))), k + 1);
      assert Narrow(Half(Half(c4)), k + 2);
    }
    assert Narrow(c4, k + 4);
    assert Narrow(Half(Half(Half(c))), k + 5);
    assert Narrow(Half(Half(c)), k + 6);
  }

  lemma AlwaysNarrow(c: bv32)
    ensures Narrow(c, 32)
  {
    Narrow8(c >> 24, 0);
    Narrow8(c >> 16, 8);
    Narrow8(c >> 8, 16);
    Narrow8(c, 24);
  }

  lemma {:induction false} FromBitsBits(c: bv32, k: nat)
    requires Narrow(c, k)
    ensures FromBits(Bits(c, k)) == c
    decreases k
  {
    hide Odd, Half, Join;
    if k > 0 {
      FromBitsBits(Half(c), k - 1);
      JoinParts(c);
      assert Bits(c, k)[1..] == Bits(Half(c), k - 1);
    }
  }

  lemma {:induction false} BitsTop(c: bv32, k: nat)
    requires Narrow(c, k)
    ensures Bits(c, k + 1) == Bits(c, k) + [false]
    decreases k
  {
    assert !Odd(0);
    hide Odd, Half;
    if k > 0 {
      BitsTop(Half(c), k - 1);
    }
  }

  lemma {:induction false} BitsXor(c: bv32, d: bv32, k: nat)
    ensures Bits(XorReg(c, d), k) == Xor(Bits(c, k), Bits(d, k))
    decreases k
  {
    hide Odd, Half, Xor, XorReg;
    if k > 0 {
      XorParts(c, d);
      BitsXor(Half(c), Half(d), k - 1);
      XorCons(Odd(c), Bits(Half(c), k - 1), Odd(d), Bits(Half(d), k - 1));
    }
  }

  lemma Bits4(c: bv32, k: nat)
    ensures Bits(c, k + 4) == [Odd(c), Odd(c >> 1), Odd(c >> 2), Odd(c >> 3)] + Bits(c >> 4, k)
  {
    assert Half(c) == c >> 1 && Half(c >> 1) == c >> 2 && Half(c >> 2) == c >> 3 && Half(c >> 3) == c >> 4;
    hide Odd, Half;
    assert Bits(c >> 3, k + 1) == [Odd(c >> 3)] + Bits(c >> 4, k);
    assert Bits(c >> 2, k + 2) == [Odd(c >> 2)] + Bits(c >> 3, k + 1);
    assert Bits(c >> 1, k + 3) == [Odd(c >> 1)] + Bits(c >> 2, k + 2);
  }

  // ---- The algorithm and the instruction --------------------------------------------------

  /** One bit of the reflected algorithm: 0x82F63B78 is the generator with its bits reversed. */
  function BitStep(c: bv32, b: bool): bv32 {
    var x := if b then XorReg(c, 1) else c;
    if Odd(x) then XorReg(Half(x), 0x82F63B78) else Half(x)
  }

  function Serial(c: bv32, m: seq<bool>): bv32
    decreases |m|
  {
    if m == [] then c else Serial(BitStep(c, m[0]), m[1..])
  }

  /** `not eax` */
  function Complement(c: bv32): bv32 { !c }

  lemma ComplementTwice(c: bv32)
    ensures Complement(Complement(c)) == c
  {
  }

  /** CRC-32C: initial value and final complement all ones. */
  function Crc(data: seq<byte>): bv32 {
    Complement(Serial(0xFFFF_FFFF, MessageBits(data)))
  }

  /** The `crc32` instruction: the reflected destination shifted by the width of the source,
      plus the reflected source shifted by 32, modulo the generator, reflected back. `src` lists
      the bits of the source operand, least significant first. */
  function Crc32Instruction(dest: bv32, src: seq<bool>): bv32 {
    FromBits(Rem(Xor(Bits(dest, 32) + Zeros(|src|), src + Zeros(32))))
  }

  lemma ReversedLow()
    ensures Bits(0x82f63b78, 32)
         == [false, false, false, true, true, true, true, false,
             true, true, false, true, true, true, false, false] + Bits(0x82f6, 16)
  {
    hide Bits, Half;
    Bits4(0x82f63b78, 28);
    Bits4(0x82f63b7, 24);
    Bits4(0x82f63b, 20);
    Bits4(0x82f63, 16);
  }

  lemma ReversedHigh()
    ensures Bits(0x82f6, 16)
         == [false, true, true, false, true, true, true, true,
             false, true, false, false, false, false, false, true]
  {
    hide Bits, Half;
    Bits4(0x82f6, 12);
    assert Bits(0, 0) == [];
    Bits4(0x82f, 8);
    Bits4(0x82, 4);
    Bits4(0x8, 0);
  }

  /** The reversed constant is the generator without its leading coefficient. */
  lemma ReversedGenerator()
    ensures Bits(0x82F63B78, 32) == Generator()[1..]
  {
    hide Bits;
    ReversedLow();
    ReversedHigh();
  }

  lemma FlipLowest(c: bv32)
    ensures Half(XorReg(c, 1)) == Half(c)
    ensures Odd(XorReg(c, 1)) <==> !Odd(c)
  {
  }

  lemma BitStepParts(c: bv32, b: bool)
    ensures BitStep(c, b) == if Odd(c) != b then XorReg(Half(c), 0x82F63B78) else Half(c)
  {
    hide Odd, Half, XorReg;
    FlipLowest(c);
  }

  /** A bit step is a step of the dividing shift register. */
  lemma BitStepIsShift(c: bv32, b: bool)
    ensures Bits(BitStep(c, b), 32) == Shift(Bits(c, 32), b)
  {
    hide Odd, Half, XorReg, BitStep, Generator;
    BitStepParts(c, b);
    AlwaysNarrow(c);
    BitsTop(Half(c), 31);
    assert Bits(Half(c), 32) == Bits(c, 32)[1..] + [false];
    BitsXor(Half(c), 0x82F63B78, 32);
    ReversedGenerator();
  }

  lemma {:induction false} SerialIsFeed(c: bv32, m: seq<bool>)
    ensures Bits(Serial(c, m), 32) == Feed(Bits(c, 32), m)
    decreases |m|
  {
    hide Bits, Shift, BitStep;
    if m != [] {
      BitStepIsShift(c, m[0]);
      SerialIsFeed(BitStep(c, m[0]), m[1..]);
    }
  }

  /** One instruction of any operand width does the work of that many bit steps. */
  lemma InstructionIsSerial(dest: bv32, src: seq<bool>)
    ensures Crc32Instruction(dest, src) == Serial(dest, src)
  {
    hide Bits, FromBits, Serial, Feed, Rem;
    FeedIsRem(Bits(dest, 32), src);
    SerialIsFeed(dest, src);
    AlwaysNarrow(Serial(dest, src));
    FromBitsBits(Serial(dest, src), 32);
  }

  lemma {:induction false} SerialConcat(c: bv32, a: seq<bool>, b: seq<bool>)
    ensures Serial(c, a + b) == Serial(Serial(c, a), b)
    decreases |a|
  {
    if a == [] {
      assert a + b == b;
    } else {
      assert (a + b)[1..] == a[1..] + b;
      SerialConcat(BitStep(c, a[0]), a[1..], b);
    }
  }

  lemma {:induction false} MessageConcat(a: seq<byte>, b: seq<byte>)
    ensures MessageBits(a + b) == MessageBits(a) + MessageBits(b)
  {
    if a == [] {
      assert a + b == b;
    } else {
      assert (a + b)[1..] == a[1..] + b;
      MessageConcat(a[1..], b);
    }
  }

  function Nibble(n: nat): seq<bool> {
    [n % 2 == 1, n / 2 % 2 == 1, n / 2 / 2 % 2 == 1, n / 2 / 2 / 2 % 2 == 1]
  }

  lemma HalfSum(n: nat, h: nat)
    ensures (n + 2 * h) / 2 == n / 2 + h && (n + 2 * h) % 2 == n % 2
  {
  }

  lemma LowNibble(lo: nat, hi: nat)
    ensures Nibble(lo + 0x10 * hi) == Nibble(lo)
    ensures (lo + 0x10 * hi) / 16 == lo / 16 + hi
  {
    HalfSum(lo, 8 * hi);
    HalfSum(lo / 2, 4 * hi);
    HalfSum(lo / 2 / 2, 2 * hi);
    HalfSum(lo / 2 / 2 / 2, hi);
  }

  lemma BitsOf1(n: nat, k: nat)
    ensures BitsOf(n, 1 + k) == [n % 2 == 1] + BitsOf(n / 2, k)
  {
  }

  lemma Quarters(n: nat)
    ensures n / 2 / 2 / 2 / 2 == n / 16
  {
  }

  lemma BitsOf4(n: nat, k: nat)
    ensures BitsOf(n, 4 + k) == Nibble(n) + BitsOf(n / 16, k)
  {
    hide BitsOf;
    BitsOf1(n, 3 + k);
    BitsOf1(n / 2, 2 + k);
    BitsOf1(n / 2 / 2, 1 + k);
    BitsOf1(n / 2 / 2 / 2, k);
    Quarters(n);
  }

  lemma BitsOf8(n: nat, k: nat)
    ensures BitsOf(n, 8 + k) == Nibble(n) + Nibble(n / 16) + BitsOf(n / 256, k)
  {
    hide BitsOf, Nibble;
    BitsOf4(n, 4 + k);
    BitsOf4(n / 16, k);
    assert n / 16 / 16 == n / 256;
  }

  lemma ByteParts(lo: byte, hi: nat)
    ensures var n: nat := lo as int + 0x100 * hi;
            n / 256 == hi && Nibble(n) == Nibble(lo) && Nibble(n / 16) == Nibble(lo as int / 16)
    ensures lo as int / 256 == 0
  {
    hide Nibble;
    LowNibble(lo, 0x10 * hi);
    LowNibble(lo as int / 16, hi);
  }

  lemma ByteThenRest(lo: byte, hi: nat, k: nat)
    ensures BitsOf(lo as int + 0x100 * hi, 8 + k) == BitsOf(lo, 8) + BitsOf(hi, k)
  {
    assert BitsOf(0, 0) == [];
    hide BitsOf, Nibble;
    ByteParts(lo, hi);
    BitsOf8(lo as int + 0x100 * hi, k);
    BitsOf8(lo, 0);
  }

  /** The number whose base-256 digits are `s`, least significant first. */
  function LittleEndian(s: seq<byte>): nat {
    if s == [] then 0 else s[0] as int + 0x100 * LittleEndian(s[1..])
  }

  /** A little-endian number is sent as its bytes in memory order. */
  lemma {:induction false} LittleEndianBits(s: seq<byte>)
    ensures BitsOf(LittleEndian(s), 8 * |s|) == MessageBits(s)
  {
    hide BitsOf;
    if s != [] {
      LittleEndianBits(s[1..]);
      ByteThenRest(s[0], LittleEndian(s[1..]), 8 * |s[1..]|);
    }
  }

  lemma QwordBits(s: seq<byte>)
    requires |s| >= 8
    ensures BitsOf(Word64(s, 0), 64) == MessageBits(s[..8])
  {
    var t := s[..8];
    assert LittleEndian(t[7..]) == t[7];
    assert forall i :: 0 <= i < 7 ==> t[i..][1..] == t[i + 1..];
    assert LittleEndian(t[6..]) == Word16(t, 6);
    assert LittleEndian(t[4..]) == Word16(t, 4) + 0x1_0000 * LittleEndian(t[6..]);
    assert LittleEndian(t[2..]) == Word16(t, 2) + 0x1_0000 * LittleEndian(t[4..]);
    assert LittleEndian(t[0..]) == Word16(t, 0) + 0x1_0000 * LittleEndian(t[2..]);
    assert t[0..] == t;
    LittleEndianBits(t);
  }

  // ---- The routine ------------------------------------------------------------------------

  /** What `asm_crc32_fast` returns; a null buffer counts as empty. */
  function AsmCrc(mem: seq<byte>, buffer: nat, len: nat): bv32
    requires buffer == 0 || len == 0 || buffer + len <= |mem|
  {
    if buffer == 0 || len == 0 then Crc([]) else Crc(mem[buffer..buffer + len])
  }

  /** `asm_crc32_fast`. The `crc32` instruction needs SSE4.2. */
  method Crc32Fast(cpu: Cpu, mem: array<byte>, buffer: nat, len: nat) returns (eax: bv32, trap: Trap)
    requires Block(mem, buffer, len)
    ensures trap == if buffer != 0 && len != 0 && !cpu.sse42 then InvalidOpcode else NoTrap
    ensures trap == NoTrap ==> eax == AsmCrc(mem[..], buffer, len)
  {
    hide Serial, MessageBits, Crc32Instruction, BitsOf, Load64, Complement;
    eax := 0xFFFF_FFFF;
    SerialNothing(eax);
    if buffer == 0 || len == 0 { return Complement(eax), NoTrap; }
    if !cpu.sse42 { return eax, InvalidOpcode; }
    var rcx, rdx := buffer, len;
    ghost var end := buffer + len;
    ghost var crc := Serial(eax, MessageBits(mem[buffer..end]));
    while rdx >= 8
      invariant rcx + rdx == end
      invariant Serial(eax, MessageBits(mem[rcx..end])) == crc
    {
      QwordLoaded(eax, mem, rcx, end);
      eax := Crc32Instruction(eax, BitsOf(Load64(mem, rcx), 64));
      rcx, rdx := rcx + 8, rdx - 8;
    }
    while rdx != 0
      invariant rcx + rdx == end
      invariant Serial(eax, MessageBits(mem[rcx..end])) == crc
    {
      ByteLoaded(eax, mem, rcx, end);
      eax := Crc32Instruction(eax, BitsOf(mem[rcx], 8));
      rcx, rdx := rcx + 1, rdx - 1;
    }
    SerialNothing(eax);
    assert mem[rcx..end] == [] && mem[..][buffer..end] == mem[buffer..end];
    return Complement(eax), NoTrap;
  }

  lemma QwordLoaded(eax: bv32, mem: array<byte>, a: nat, end: nat)
    requires a + 8 <= end <= mem.Length
    ensures Serial(Crc32Instruction(eax, BitsOf(Load64(mem, a), 64)), MessageBits(mem[a + 8..end]))
         == Serial(eax, MessageBits(mem[a..end]))
  {
    hide Serial, MessageBits, Crc32Instruction, BitsOf;
    QwordStep(eax, mem[a..end]);
    assert mem[a..end][8..] == mem[a + 8..end];
    assert Word64(mem[a..end], 0) == Load64(mem, a);
  }

  lemma ByteLoaded(eax: bv32, mem: array<byte>, a: nat, end: nat)
    requires a + 1 <= end <= mem.Length
    ensures Serial(Crc32Instruction(eax, BitsOf(mem[a], 8)), MessageBits(mem[a + 1..end]))
         == Serial(eax, MessageBits(mem[a..end]))
  {
    hide Serial, MessageBits, Crc32Instruction, BitsOf;
    ByteStep(eax, mem[a..end]);
    assert mem[a..end][1..] == mem[a + 1..end];
  }

  /** `crc32 rax, qword [rcx]` consumes the first eight bytes of the rest of the buffer. */
  lemma QwordStep(eax: bv32, s: seq<byte>)
    requires |s| >= 8
    ensures Serial(Crc32Instruction(eax, BitsOf(Word64(s, 0), 64)), MessageBits(s[8..]))
         == Serial(eax, MessageBits(s))
  {
    hide Serial, MessageBits, Crc32Instruction, BitsOf, Word64;
    var src := BitsOf(Word64(s, 0), 64);
    QwordBits(s);
    assert s == s[..8] + s[8..];
    MessageConcat(s[..8], s[8..]);
    SerialConcat(eax, src, MessageBits(s[8..]));
    InstructionIsSerial(eax, src);
  }

  /** `crc32 eax, byte [rcx]` consumes one. */
  lemma ByteStep(eax: bv32, s: seq<byte>)
    requires s != []
    ensures Serial(Crc32Instruction(eax, BitsOf(s[0], 8)), MessageBits(s[1..]))
         == Serial(eax, MessageBits(s))
  {
    assert MessageBits(s) == BitsOf(s[0], 8) + MessageBits(s[1..]);
    hide Serial, MessageBits, Crc32Instruction, BitsOf;
    SerialConcat(eax, BitsOf(s[0], 8), MessageBits(s[1..]));
    InstructionIsSerial(eax, BitsOf(s[0], 8));
  }

  lemma SerialNothing(c: bv32)
    ensures Serial(c, MessageBits([])) == c
  {
  }
}
