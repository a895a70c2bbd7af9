/** The memory image of `BytePusherVM` (BytePusher.cs): one flat byte array
    of 0xFFFFFF bytes, big-endian reads (`getVal`), range copies (`copy`)
    and ROM loading (`load`). No address is ever masked: an access past
    the end of the array is a failure. */
module MemoryImage {
  import opened Wrappers
  import opened Bytes

  /** `new byte[0xFFFFFF]`: 16,777,215 bytes, one short of 2^24. */
  const MemSize: nat := 0xFF_FFFF

  function Zeroes(n: nat): (z: seq<Byte>)
    ensures |z| == n
    ensures forall i :: 0 <= i < n ==> z[i] == 0
  {
    seq(n, _ => 0)
  }

  /** The VM's memory always has exactly MemSize bytes: the array is
      allocated at that size and only replaced by another of that size. */
  type Memory = m: seq<Byte> | |m| == MemSize witness Zeroes(MemSize)

  /** The field initialiser: a freshly allocated, zero-filled array. */
  function Init(): (m: Memory)
    ensures forall a :: 0 <= a < MemSize ==> m[a] == 0
  {
    Zeroes(MemSize)
  }

  /** `getVal(pc, length)`: reads `len` bytes from `pc` on, most significant
      first. The loop indexes mem[pc] .. mem[pc+len-1], so it fails exactly
      when that window leaves the array. For width 0 the loop body never
      runs: the result is 0 and nothing is indexed, wherever `pc` lies.
      Callers use widths 1, 2 and 3. */
  function GetVal(mem: seq<Byte>, pc: nat, len: nat): (r: Option<nat>)
    requires len <= 3
    ensures r.Some? <==> (len == 0 || pc + len <= |mem|)
    ensures len == 0 ==> r == Some(0)
    ensures r.Some? && len > 0 ==> r.value == BigEndian(mem[pc..pc + len])
    ensures r.Some? ==> r.value < Pow256(len)
  {
    if len == 0 then Some(0)
    else if pc + len <= |mem| then
      ShiftInIsBigEndian(0, mem[pc..pc + len]);
      BigEndianBound(mem[pc..pc + len]);
      Some(ShiftIn(0, mem[pc..pc + len]))
    else
      None
  }

  /** `copy(start, length)`: a fresh array holding mem[start..start+length).
      `Array.Copy` throws when the source range runs past the array. */
  function Copy(mem: seq<Byte>, start: nat, length: nat): (r: Option<seq<Byte>>)
    ensures r.Some? <==> start + length <= |mem|
    ensures r.Some? ==> |r.value| == length
    ensures r.Some? ==> forall i :: 0 <= i < length ==> r.value[i] == mem[start + i]
  {
    if start + length <= |mem| then Some(mem[start..start + length]) else None
  }

  /** `load(rom)`: a new zero-filled array, then the ROM's bytes written from
      address 0 onwards, one per position. A ROM longer than the array makes
      that write throw. */
  function Load(rom: seq<Byte>): (r: Option<Memory>)
    ensures r.Some? <==> |rom| <= MemSize
    ensures r.Some? ==> forall a :: 0 <= a < |rom| ==> r.value[a] == rom[a]
    ensures r.Some? ==> forall a :: |rom| <= a < MemSize ==> r.value[a] == 0
  {
    if |rom| <= MemSize then Some(rom + Zeroes(MemSize - |rom|)) else None
  }

  /** Loading the empty ROM gives the same memory as a freshly constructed VM. */
  lemma LoadEmptyIsInit()
    ensures Load([]) == Some(Init())
  {
    assert Load([]).value == Init();
  }

  /** A width-0 read succeeds even far past the end of memory. */
  lemma EmptyReadAnywhere(pc: nat)
    ensures GetVal(Init(), MemSize + pc, 0) == Some(0)
  {
  }

  /** After a load, every big-endian read inside the ROM sees the ROM's bytes. */
  lemma LoadThenGetVal(rom: seq<Byte>, pc: nat, len: nat)
    requires |rom| <= MemSize
    requires len <= 3 && pc + len <= |rom|
    ensures GetVal(Load(rom).value, pc, len) == Some(BigEndian(rom[pc..pc + len]))
  {
    assert Load(rom).value[pc..pc + len] == rom[pc..pc + len];
  }

  /** A copy of the audio page `page` (the value of bytes 6-7) fits exactly
      when page < 0xFFFF: page 0xFFFF would end at 0x1000000 > MemSize. */
  lemma AudioCopyInRange(mem: Memory, page: nat)
    requires page < 0x1_0000
    ensures Copy(mem, page * 0x100, 0x100).Some? <==> page < 0xFFFF
  {
  }

  /** A copy of the video page `page` (the value of byte 5) fits exactly when
      page < 0xFF: page 0xFF would end at 0x1000000 > MemSize. */
  lemma VideoCopyInRange(mem: Memory, page: nat)
    requires page < 0x100
    ensures Copy(mem, page * 0x1_0000, 0x1_0000).Some? <==> page < 0xFF
  {
  }
}
