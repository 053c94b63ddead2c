/** The dynamic dispatcher: function pointers chosen from the CPU feature bits, and the
    entry points that call through them. */
module Dispatch {
  import opened Machine
  import opened InternetChecksum
  import opened MemoryKernels

  datatype ChecksumFn = NoChecksum | Avx2ChecksumFn | Sse2ChecksumFn
  datatype MemzeroFn = NoMemzero | Avx2MemzeroFn | Sse2MemzeroFn
  datatype TscFn = NoTsc | RdtscpFn | CpuidRdtscFn

  /** The dispatch table of a process that runs on the processor `cpu`. */
  class DispatchTable {
    const cpu: Cpu
    var checksumPtr: ChecksumFn
    var memzeroPtr: MemzeroFn
    var tscPtr: TscFn

    /** A pointer is unset, or points at a routine the processor can run. Both checksums use
        general registers only, so every processor can run them. */
    ghost predicate Valid()
      reads this
    {
      && (memzeroPtr.Avx2MemzeroFn? ==> cpu.avx2)
      && (tscPtr.RdtscpFn? ==> cpu.rdtscp)
    }

    /** Before `InitDispatchTable` has run, all pointers are null. */
    constructor (processor: Cpu)
      ensures Valid() && cpu == processor
      ensures checksumPtr == NoChecksum && memzeroPtr == NoMemzero && tscPtr == NoTsc
    {
      cpu := processor;
      checksumPtr, memzeroPtr, tscPtr := NoChecksum, NoMemzero, NoTsc;
    }

    method InitDispatchTable()
      modifies this
      ensures Valid()
      ensures checksumPtr == if cpu.avx2 then Avx2ChecksumFn else Sse2ChecksumFn
      ensures memzeroPtr == if cpu.avx2 then Avx2MemzeroFn else Sse2MemzeroFn
      ensures tscPtr == if cpu.rdtscp then RdtscpFn else CpuidRdtscFn
    {
      checksumPtr := if cpu.avx2 then Avx2ChecksumFn else Sse2ChecksumFn;
      memzeroPtr := if cpu.avx2 then Avx2MemzeroFn else Sse2MemzeroFn;
      tscPtr := if cpu.rdtscp then RdtscpFn else CpuidRdtscFn;
    }

    /** `disping_fast_checksum_auto`: the result depends on the bytes alone, not on the
        processor nor on whether the table was ready. */
    method ChecksumAuto(mem: array<byte>, buffer: nat, len: nat) returns (ax: u16)
      requires Valid() && Block(mem, buffer, len)
      modifies this
      ensures Valid() && checksumPtr != NoChecksum
      ensures old(checksumPtr) != NoChecksum ==> unchanged(this)
      ensures ax == AsmChecksum(mem[..], buffer, len)
    {
      if checksumPtr == NoChecksum { InitDispatchTable(); }
      if checksumPtr == Avx2ChecksumFn {
        ax := Avx2Checksum(mem, buffer, len);
      } else {
        ax := Sse2Checksum(mem, buffer, len);
      }
    }

    /** `disping_fast_memzero_auto`: it clears the block on every processor, and meets no
        instruction the processor does not know. */
    method MemzeroAuto(mem: array<byte>, dst: nat, size: nat) returns (trap: Trap)
      requires Valid() && Block(mem, dst, size)
      modifies this, mem
      ensures Valid() && memzeroPtr != NoMemzero
      ensures old(memzeroPtr) != NoMemzero ==> unchanged(this)
      ensures trap == NoTrap
      ensures mem[..] == MemzeroResult(old(mem[..]), dst, size)
    {
      if memzeroPtr == NoMemzero { InitDispatchTable(); }
      if memzeroPtr == Avx2MemzeroFn {
        trap := Avx2Memzero(cpu, mem, dst, size);
      } else {
        Sse2Memzero(mem, dst, size);
        trap := NoTrap;
      }
    }

    /** `disping_read_tsc_auto`, whatever the counter holds: no unknown instruction either. */
    method ReadTscAuto(counter: u64) returns (rax: u64, trap: Trap)
      requires Valid()
      modifies this
      ensures Valid() && tscPtr != NoTsc
      ensures old(tscPtr) != NoTsc ==> unchanged(this)
      ensures trap == NoTrap && rax == counter
    {
      if tscPtr == NoTsc { InitDispatchTable(); }
      if tscPtr == RdtscpFn {
        rax, trap := ReadTscRdtscp(cpu, counter);
      } else {
        rax, trap := ReadHalves(counter), NoTrap;  // cpuid; rdtsc
      }
    }
  }

  /** `shl rdx, 32; or rax, rdx` on the halves of the counter. */
  function ReadHalves(counter: u64): (rax: u64)
    ensures rax == counter
  {
    counter % TWO32 + TWO32 * (counter / TWO32)
  }

  /** `asm_read_tsc_fast_serialized` */
  method ReadTscRdtscp(cpu: Cpu, counter: u64) returns (rax: u64, trap: Trap)
    ensures trap == if cpu.rdtscp then NoTrap else InvalidOpcode
    ensures trap == NoTrap ==> rax == counter
  {
    if !cpu.rdtscp { return 0, InvalidOpcode; }
    return ReadHalves(counter), NoTrap;
  }

  /** Any two processors, reading and clearing the same block: same checksum, same memory, and
      neither traps. */
  method DispatchIsTransparent(cpu1: Cpu, cpu2: Cpu, mem1: array<byte>, mem2: array<byte>, p: nat, n: nat)
    returns (x: u16, y: u16, trap1: Trap, trap2: Trap)
    requires mem1 != mem2 && mem1[..] == mem2[..] && Block(mem1, p, n)
    modifies mem1, mem2
    ensures trap1 == trap2 == NoTrap
    ensures x == y == AsmChecksum(old(mem1[..]), p, n)
    ensures mem1[..] == mem2[..] == MemzeroResult(old(mem1[..]), p, n)
  {
    assert mem1.Length == |mem1[..]| == |mem2[..]| == mem2.Length;
    var table1 := new DispatchTable(cpu1);
    var table2 := new DispatchTable(cpu2);
    x := table1.ChecksumAuto(mem1, p, n);
    y := table2.ChecksumAuto(mem2, p, n);
    trap1 := table1.MemzeroAuto(mem1, p, n);
    trap2 := table2.MemzeroAuto(mem2, p, n);
  }
}
