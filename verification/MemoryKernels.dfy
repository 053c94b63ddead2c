/** The streaming kernels: clearing and copying memory with aligned non-temporal vector
    stores, byte stores where the vector does not fit. */
module MemoryKernels {
  import opened Machine

  /** Memory with the `n` bytes at `p` cleared. */
  function Cleared(s: seq<byte>, p: nat, n: nat): (t: seq<byte>)
    ensures |t| == |s|
    ensures forall i :: 0 <= i < |s| ==> t[i] == if p <= i < p + n then 0 else s[i]
  {
    seq(|s|, i requires 0 <= i < |s| => if p <= i < p + n then 0 else s[i])
  }

  /** Memory with the `n` bytes at `src` also at `dst`. */
  function Copied(s: seq<byte>, dst: nat, src: nat, n: nat): (t: seq<byte>)
    requires src + n <= |s|
    ensures |t| == |s|
    ensures forall i :: 0 <= i < |s| ==> t[i] == if dst <= i < dst + n then s[src + i - dst] else s[i]
  {
    seq(|s|, i requires 0 <= i < |s| => if dst <= i < dst + n then s[src + i - dst] else s[i])
  }

  /** `a` is a multiple of the vector width. */
  predicate Aligned(a: nat, width: nat) {
    if width == 32 then a % 32 == 0 else a % 16 == 0
  }

  lemma AlignedIs(a: nat)
    ensures Aligned(a, 32) <==> a % 32 == 0
    ensures Aligned(a, 16) <==> a % 16 == 0
  {
  }

  lemma AlignedStep(a: nat, width: nat)
    requires width == 32 || width == 16
    ensures Aligned(a + width, width) == Aligned(a, width)
  {
  }

  lemma NextAligned(a: nat, width: nat)
    requires width == 32 || width == 16
    ensures Aligned(a + width, width) == Aligned(a, width)
    ensures Aligned(a + 2 * width, width) == Aligned(a, width)
    ensures Aligned(a + 3 * width, width) == Aligned(a, width)
    ensures Aligned(a + 4 * width, width) == Aligned(a, width)
    ensures Aligned(a, 32) ==> a % 32 == (a + 32) % 32 == (a + 64) % 32 == (a + 96) % 32 == 0
    ensures Aligned(a, 16) ==> a % 16 == (a + 16) % 16 == (a + 32) % 16 == (a + 48) % 16 == 0
  {
    AlignedIs(a);
    hide Aligned;
    AlignedStep(a, width);
    AlignedStep(a + width, width);
    AlignedStep(a + 2 * width, width);
    AlignedStep(a + 3 * width, width);
  }

  // ---- Clearing ---------------------------------------------------------------------------

  /** What both clearing routines leave: nothing happens to a null block. */
  function MemzeroResult(s: seq<byte>, dst: nat, size: nat): seq<byte> {
    if dst == 0 then s else Cleared(s, dst, size)
  }

  /** A block [dst, end) of memory `was` is cleared up to `a`. */
  ghost predicate ClearedUpTo(now: seq<byte>, was: seq<byte>, dst: nat, a: nat) {
    dst <= a && now == Cleared(was, dst, a - dst)
  }

  lemma AllCleared(now: seq<byte>, was: seq<byte>, dst: nat, end: nat)
    requires ClearedUpTo(now, was, dst, end)
    ensures dst <= end && now == Cleared(was, dst, end - dst)
  {
  }

  /** `vmovntdq [a], ymm0` or `movntdq [a], xmm0` with a zero register: the address must be a
      multiple of the vector width, and the store must stay inside the block. */
  method StoreZeros(mem: array<byte>, a: nat, width: nat, ghost was: seq<byte>, ghost dst: nat, ghost end: nat)
    requires (width == 32 && a % 32 == 0) || (width == 16 && a % 16 == 0)
    requires a + width <= end <= mem.Length
    requires ClearedUpTo(mem[..], was, dst, a)
    modifies mem
    ensures ClearedUpTo(mem[..], was, dst, a + width)
  {
    forall i | a <= i < a + width { mem[i] := 0; }
  }

  /** `mov byte [rcx], 0` until `size` bytes are done. */
  method ZeroBytes(mem: array<byte>, a: nat, size: nat, ghost was: seq<byte>, ghost dst: nat)
    requires a + size <= mem.Length
    requires ClearedUpTo(mem[..], was, dst, a)
    modifies mem
    ensures ClearedUpTo(mem[..], was, dst, a + size)
  {
    var rcx: nat, rdx: nat := a, size;
    while rdx != 0
      invariant rcx + rdx == a + size
      invariant ClearedUpTo(mem[..], was, dst, rcx)
    {
      mem[rcx] := 0;
      rcx, rdx := rcx + 1, rdx - 1;
    }
  }

  /** The alignment prologue: byte stores until the address is a multiple of `width` or the
      size runs out. */
  method ZeroUntilAligned(mem: array<byte>, dst: nat, size: nat, width: nat, ghost was: seq<byte>)
    returns (rcx: nat, rdx: nat)
    requires width == 32 || width == 16
    requires dst + size <= mem.Length && mem[..] == was
    modifies mem
    ensures rcx + rdx == dst + size
    ensures ClearedUpTo(mem[..], was, dst, rcx)
    ensures Aligned(rcx, width) || rdx == 0
  {
    rcx, rdx := dst, size;
    while !Aligned(rcx, width)
      invariant rcx + rdx == dst + size
      invariant ClearedUpTo(mem[..], was, dst, rcx)
      decreases rdx
    {
      if rdx == 0 { return; }
      mem[rcx] := 0;
      rcx, rdx := rcx + 1, rdx - 1;
    }
  }

  /** `asm_avx2_memzero_nt`, also `asm_fast_memzero_nt`: the first thing done to a block is
      `vpxor ymm0, ymm0, ymm0`, an AVX2 instruction. */
  method Avx2Memzero(cpu: Cpu, mem: array<byte>, dst: nat, size: nat) returns (trap: Trap)
    requires Block(mem, dst, size)
    modifies mem
    ensures trap == if dst != 0 && size != 0 && !cpu.avx2 then InvalidOpcode else NoTrap
    ensures mem[..] == if trap == NoTrap then MemzeroResult(old(mem[..]), dst, size) else old(mem[..])
  {
    ghost var was := mem[..];
    assert Cleared(was, dst, 0) == was;
    if dst == 0 || size == 0 { return NoTrap; }
    if !cpu.avx2 { return InvalidOpcode; }
    hide Cleared, ClearedUpTo, Aligned;
    ghost var end := dst + size;
    var rcx, rdx := ZeroUntilAligned(mem, dst, size, 32, was);
    if !Aligned(rcx, 32) {
      AllCleared(mem[..], was, dst, end);
      return NoTrap;
    }
    while rdx >= 128
      invariant rcx + rdx == end && Aligned(rcx, 32)
      invariant ClearedUpTo(mem[..], was, dst, rcx)
    {
      NextAligned(rcx, 32);
      StoreZeros(mem, rcx, 32, was, dst, end);
      StoreZeros(mem, rcx + 32, 32, was, dst, end);
      StoreZeros(mem, rcx + 64, 32, was, dst, end);
      StoreZeros(mem, rcx + 96, 32, was, dst, end);
      rcx, rdx := rcx + 128, rdx - 128;
    }
    while rdx >= 32
      invariant rcx + rdx == end && Aligned(rcx, 32)
      invariant ClearedUpTo(mem[..], was, dst, rcx)
    {
      NextAligned(rcx, 32);
      StoreZeros(mem, rcx, 32, was, dst, end);
      rcx, rdx := rcx + 32, rdx - 32;
    }
    ZeroBytes(mem, rcx, rdx, was, dst);
    AllCleared(mem[..], was, dst, end);
    return NoTrap;
  }

  /** `asm_sse2_memzero_nt`. */
  method Sse2Memzero(mem: array<byte>, dst: nat, size: nat)
    requires Block(mem, dst, size)
    modifies mem
    ensures mem[..] == MemzeroResult(old(mem[..]), dst, size)
  {
    ghost var was := mem[..];
    assert Cleared(was, dst, 0) == was;
    if dst == 0 || size == 0 { return; }
    hide Cleared, ClearedUpTo, Aligned;
    ghost var end := dst + size;
    var rcx, rdx := ZeroUntilAligned(mem, dst, size, 16, was);
    if !Aligned(rcx, 16) {
      AllCleared(mem[..], was, dst, end);
      return;
    }
    while rdx >= 64
      invariant rcx + rdx == end && Aligned(rcx, 16)
      invariant ClearedUpTo(mem[..], was, dst, rcx)
    {
      NextAligned(rcx, 16);
      StoreZeros(mem, rcx, 16, was, dst, end);
      StoreZeros(mem, rcx + 16, 16, was, dst, end);
      StoreZeros(mem, rcx + 32, 16, was, dst, end);
      StoreZeros(mem, rcx + 48, 16, was, dst, end);
      rcx, rdx := rcx + 64, rdx - 64;
    }
    while rdx >= 16
      invariant rcx + rdx == end && Aligned(rcx, 16)
      invariant ClearedUpTo(mem[..], was, dst, rcx)
    {
      NextAligned(rcx, 16);
      StoreZeros(mem, rcx, 16, was, dst, end);
      rcx, rdx := rcx + 16, rdx - 16;
    }
    ZeroBytes(mem, rcx, rdx, was, dst);
    AllCleared(mem[..], was, dst, end);
  }

  // ---- Copying ----------------------------------------------------------------------------

  /** The vector moves and the closing `vzeroupper` need AVX. The copy has no alignment prologue:
      a streaming store to an address that is not a multiple of 32 traps, the first or none. */
  function MemcpyTrap(cpu: Cpu, dst: nat, src: nat, size: nat): Trap {
    if dst == 0 || src == 0 || size == 0 then NoTrap
    else if !cpu.avx then InvalidOpcode
    else if size >= 32 && dst % 32 != 0 then Misaligned
    else NoTrap
  }

  /** How much the copy moves at once: four vectors, one vector, or a byte. */
  function Chunk(size: nat): (c: nat)
    requires size > 0
    ensures 0 < c <= size
  {
    if size >= 128 then 128 else if size >= 32 then 32 else 1
  }

  /** Chunk after chunk, each read as a whole before it is written. */
  function CopyChunks(s: seq<byte>, dst: nat, src: nat, size: nat): (t: seq<byte>)
    requires dst + size <= |s| && src + size <= |s|
    ensures |t| == |s|
    decreases size
  {
    if size == 0 then s
    else
      var c := Chunk(size);
      CopyChunks(Copied(s, dst, src, c), dst + c, src + c, size - c)
  }

  /** What the copy leaves, overlapping blocks included. If it traps then at the first vector,
      or, fewer than 32 bytes being copied without one, at the very end. */
  function MemcpyResult(cpu: Cpu, s: seq<byte>, dst: nat, src: nat, size: nat): seq<byte>
    requires dst == 0 || src == 0 || size == 0 || (dst + size <= |s| && src + size <= |s|)
  {
    if dst == 0 || src == 0 || size == 0 || (size >= 32 && MemcpyTrap(cpu, dst, src, size) != NoTrap) then s
    else CopyChunks(s, dst, src, size)
  }

  /** `vmovdqu ymm, [a]` */
  method LoadVector(mem: array<byte>, a: nat) returns (ymm: seq<byte>)
    requires a + 32 <= mem.Length
    ensures ymm == mem[a..a + 32]
  {
    ymm := mem[a..a + 32];
  }

  /** Memory with `v` at `a`. */
  function Stored(s: seq<byte>, a: nat, v: seq<byte>): (t: seq<byte>)
    requires a + |v| <= |s|
    ensures |t| == |s|
  {
    s[..a] + v + s[a + |v|..]
  }

  /** `vmovntdq [a], ymm`: refuses a misaligned address. */
  method StoreVector(mem: array<byte>, a: nat, ymm: seq<byte>) returns (fault: bool)
    requires a + 32 <= mem.Length && |ymm| == 32
    modifies mem
    ensures fault <==> a % 32 != 0
    ensures mem[..] == if fault then old(mem[..]) else Stored(old(mem[..]), a, ymm)
  {
    if a % 32 != 0 { return true; }
    ghost var was := mem[..];
    forall i | a <= i < a + 32 { mem[i] := ymm[i - a]; }
    assert mem[..] == Stored(was, a, ymm);
    return false;
  }

  lemma StoredIsCopied(s: seq<byte>, dst: nat, src: nat, n: nat)
    requires dst + n <= |s| && src + n <= |s|
    ensures Stored(s, dst, s[src..src + n]) == Copied(s, dst, src, n)
  {
  }

  lemma StoredTwice(s: seq<byte>, a: nat, v: seq<byte>, w: seq<byte>)
    requires a + |v| + |w| <= |s|
    ensures Stored(Stored(s, a, v), a + |v|, w) == Stored(s, a, v + w)
  {
  }

  /** The 128-byte body: four loads, then four stores. */
  method CopyBlock(mem: array<byte>, rcx: nat, rdx: nat) returns (fault: bool)
    requires rcx + 128 <= mem.Length && rdx + 128 <= mem.Length
    modifies mem
    ensures fault == !Aligned(rcx, 32)
    ensures mem[..] == if fault then old(mem[..]) else Copied(old(mem[..]), rcx, rdx, 128)
  {
    hide Stored, Copied, Aligned;
    ghost var was := mem[..];
    NextAligned(rcx, 32);
    AlignedIs(rcx);
    var ymm0 := LoadVector(mem, rdx);
    var ymm1 := LoadVector(mem, rdx + 32);
    var ymm2 := LoadVector(mem, rdx + 64);
    var ymm3 := LoadVector(mem, rdx + 96);
    fault := StoreVector(mem, rcx, ymm0);
    if fault { return; }
    fault := StoreVector(mem, rcx + 32, ymm1);
    fault := StoreVector(mem, rcx + 64, ymm2);
    fault := StoreVector(mem, rcx + 96, ymm3);
    StoredTwice(was, rcx, ymm0, ymm1);
    StoredTwice(was, rcx, ymm0 + ymm1, ymm2);
    StoredTwice(was, rcx, ymm0 + ymm1 + ymm2, ymm3);
    assert ymm0 + ymm1 + ymm2 + ymm3 == was[rdx..rdx + 128];
    StoredIsCopied(was, rcx, rdx, 128);
  }

  lemma OneChunk(s: seq<byte>, dst: nat, src: nat, size: nat)
    requires size > 0 && dst + size <= |s| && src + size <= |s|
    ensures var c := Chunk(size);
            CopyChunks(s, dst, src, size) == CopyChunks(Copied(s, dst, src, c), dst + c, src + c, size - c)
  {
  }

  /** `.cp_tail` */
  method CopyBytes(mem: array<byte>, to: nat, from: nat, size: nat)
    requires size < 32 && to + size <= mem.Length && from + size <= mem.Length
    modifies mem
    ensures mem[..] == CopyChunks(old(mem[..]), to, from, size)
  {
    hide Copied;
    ghost var was := mem[..];
    var rcx: nat, rdx: nat, r8: nat := to, from, size;
    while r8 != 0
      invariant rcx + r8 == to + size && rdx + r8 == from + size
      invariant CopyChunks(mem[..], rcx, rdx, r8) == CopyChunks(was, to, from, size)
    {
      ByteCopied(mem[..], rcx, rdx);
      OneChunk(mem[..], rcx, rdx, r8);
      mem[rcx] := mem[rdx];
      rcx, rdx, r8 := rcx + 1, rdx + 1, r8 - 1;
    }
  }

  lemma ByteCopied(s: seq<byte>, dst: nat, src: nat)
    requires dst < |s| && src < |s|
    ensures Copied(s, dst, src, 1) == s[dst := s[src]]
  {
  }

  /** One vector at a time, then the bytes: `.cp_loop_32` to `.cp_finish`. */
  method CopyTail(cpu: Cpu, mem: array<byte>, to: nat, from: nat, size: nat) returns (trap: Trap)
    requires size < 128 && to + size <= mem.Length && from + size <= mem.Length
    modifies mem
    ensures trap ==
      if !cpu.avx then InvalidOpcode else if size >= 32 && !Aligned(to, 32) then Misaligned else NoTrap
    ensures mem[..] ==
      if trap != NoTrap && size >= 32 then old(mem[..]) else CopyChunks(old(mem[..]), to, from, size)
  {
    hide Copied, CopyChunks, Aligned, Stored;
    ghost var was := mem[..];
    var rcx: nat, rdx: nat, r8: nat := to, from, size;
    while r8 >= 32
      invariant rcx + r8 == to + size && rdx + r8 == from + size && r8 < 128
      invariant Aligned(rcx, 32) == Aligned(to, 32)
      invariant if r8 == size then mem[..] == was else cpu.avx && size >= 32 && Aligned(to, 32)
      invariant CopyChunks(mem[..], rcx, rdx, r8) == CopyChunks(was, to, from, size)
    {
      if !cpu.avx { return InvalidOpcode; }
      AlignedStep(rcx, 32);
      AlignedIs(rcx);
      OneChunk(mem[..], rcx, rdx, r8);
      StoredIsCopied(mem[..], rcx, rdx, 32);
      var ymm0 := LoadVector(mem, rdx);
      assert ymm0 == mem[..][rdx..rdx + 32];
      var fault := StoreVector(mem, rcx, ymm0);
      if fault { return Misaligned; }
      rcx, rdx, r8 := rcx + 32, rdx + 32, r8 - 32;
    }
    CopyBytes(mem, rcx, rdx, r8);
    return if cpu.avx then NoTrap else InvalidOpcode;  // vzeroupper
  }

  /** `asm_avx2_memcpy_nt`. */
  method Avx2Memcpy(cpu: Cpu, mem: array<byte>, dst: nat, src: nat, size: nat) returns (trap: Trap)
    requires dst == 0 || src == 0 || size == 0 || (dst + size <= mem.Length && src + size <= mem.Length)
    modifies mem
    ensures trap == MemcpyTrap(cpu, dst, src, size)
    ensures mem[..] == MemcpyResult(cpu, old(mem[..]), dst, src, size)
    ensures dst != 0 && src != 0 && size != 0 && trap == NoTrap && CopiesWell(dst, src, size) ==>
      mem[..] == Copied(old(mem[..]), dst, src, size)
  {
    if dst == 0 || src == 0 || size == 0 { return NoTrap; }
    AlignedIs(dst);
    hide Copied, CopyChunks, Aligned;
    ghost var was := mem[..];
    if CopiesWell(dst, src, size) { CopyIsExact(was, dst, src, size); }
    hide CopiesWell;
    var rcx: nat, rdx: nat, r8: nat := dst, src, size;
    while r8 >= 128
      invariant rcx + r8 == dst + size && rdx + r8 == src + size
      invariant Aligned(rcx, 32) == Aligned(dst, 32)
      invariant if r8 == size then mem[..] == was else cpu.avx && size >= 32 && Aligned(dst, 32)
      invariant CopyChunks(mem[..], rcx, rdx, r8) == CopyChunks(was, dst, src, size)
    {
      if !cpu.avx { return InvalidOpcode; }
      NextAligned(rcx, 32);
      OneChunk(mem[..], rcx, rdx, r8);
      var fault := CopyBlock(mem, rcx, rdx);
      if fault { return Misaligned; }
      rcx, rdx, r8 := rcx + 128, rdx + 128, r8 - 128;
    }
    trap := CopyTail(cpu, mem, rcx, rdx, r8);
  }

  // ---- Overlapping blocks -------------------------------------------------------------------

  /** The destination does not start inside the source block, or there is a single chunk. */
  predicate CopiesWell(dst: nat, src: nat, size: nat) {
    dst <= src || src + size <= dst || size == 32 || size == 128
  }

  /** Only the destination changes. */
  lemma {:induction false} ChunksFrame(s: seq<byte>, dst: nat, src: nat, size: nat, i: nat)
    requires dst + size <= |s| && src + size <= |s| && i < |s| && !(dst <= i < dst + size)
    ensures CopyChunks(s, dst, src, size)[i] == s[i]
    decreases size
  {
    if size > 0 {
      var c := Chunk(size);
      ChunksFrame(Copied(s, dst, src, c), dst + c, src + c, size - c, i);
    }
  }

  /** A byte of the source that lies before the destination, or any if the source comes second,
      is still there when it is read. */
  lemma {:induction false} ChunksAt(s: seq<byte>, dst: nat, src: nat, size: nat, j: nat)
    requires dst + size <= |s| && src + size <= |s| && j < size
    requires dst <= src || src + j < dst
    ensures CopyChunks(s, dst, src, size)[dst + j] == s[src + j]
    decreases size
  {
    OneChunk(s, dst, src, size);
    hide CopyChunks, Copied, Chunk;
    var c := Chunk(size);
    var t := Copied(s, dst, src, c);
    if j < c {
      ChunksFrame(t, dst + c, src + c, size - c, dst + j);
    } else {
      ChunksAt(t, dst + c, src + c, size - c, j - c);
    }
  }

  /** Copying in chunks is copying. */
  lemma CopyIsExact(s: seq<byte>, dst: nat, src: nat, size: nat)
    requires dst + size <= |s| && src + size <= |s| && CopiesWell(dst, src, size)
    ensures CopyChunks(s, dst, src, size) == Copied(s, dst, src, size)
  {
    if dst <= src || src + size <= dst {
      var t := CopyChunks(s, dst, src, size);
      hide CopyChunks, Copied;
      forall i | 0 <= i < |s| ensures t[i] == Copied(s, dst, src, size)[i] {
        if dst <= i < dst + size {
          ChunksAt(s, dst, src, size, i - dst);
        } else {
          ChunksFrame(s, dst, src, size, i);
        }
      }
    } else {
      OneChunk(s, dst, src, size);
    }
  }

  /** Zeros with a one at `p`. */
  function OneAt(n: nat, p: nat): (s: seq<byte>)
    ensures |s| == n && forall i :: 0 <= i < n ==> s[i] == if i == p then 1 else 0
  {
    seq(n, i => if i == p then 1 else 0)
  }

  /** Otherwise some byte is overwritten before it is read. */
  lemma CopyGoesWrong(n: nat, dst: nat, src: nat, size: nat)
    requires dst + size <= n && src < dst && !CopiesWell(dst, src, size)
    ensures exists s: seq<byte> ::
      |s| == n && CopyChunks(s, dst, src, size) != Copied(s, dst, src, size)
  {
    var (c, d) := (Chunk(size), dst - src);
    var j := if c < d then d else c;
    var s := OneAt(n, src + j - d);
    var t := Copied(s, dst, src, c);
    assert t[src + j] == 1 && s[src + j] == 0;
    ChunksAt(t, dst + c, src + c, size - c, j - c);
    OneChunk(s, dst, src, size);
    assert CopyChunks(s, dst, src, size)[dst + j] == 1 && Copied(s, dst, src, size)[dst + j] == 0;
    hide *;
    assert |s| == n && CopyChunks(s, dst, src, size) != Copied(s, dst, src, size);
  }

  /** On blocks of a memory of `n` bytes the copy works, whatever they hold, exactly when the
      destination does not start inside the source block or a single chunk is moved. */
  lemma CopyIsExactIff(n: nat, dst: nat, src: nat, size: nat)
    requires dst + size <= n && src + size <= n
    ensures (forall s: seq<byte> :: |s| == n ==> CopyChunks(s, dst, src, size) == Copied(s, dst, src, size))
       <==> CopiesWell(dst, src, size)
  {
    hide CopyChunks, Copied;
    if CopiesWell(dst, src, size) {
      forall s: seq<byte> | |s| == n
        ensures CopyChunks(s, dst, src, size) == Copied(s, dst, src, size)
      {
        CopyIsExact(s, dst, src, size);
      }
    } else {
      CopyGoesWrong(n, dst, src, size);
    }
  }
}
