/** The interpreter of `BytePusherVM.run` (BytePusher.cs): input latch,
    0x10000 ByteByteJump steps, then extraction of the audio and video
    frames from the final memory. */
module Machine {
  import opened Wrappers
  import opened Bytes
  import opened MemoryImage

  /** Instructions executed per call of `run`. */
  const FrameSteps: nat := 0x1_0000
  /** Bytes per audio frame and per video frame. */
  const AudioLength: nat := 0x100
  const VideoLength: nat := 0x1_0000

  /** The loop state of `run`: the memory and the local `pc`. */
  datatype Cpu = Cpu(mem: Memory, pc: nat)

  /** The calls `run` makes on its `BytePusherIODriver`, in order. */
  datatype DriverCall = RenderAudioFrame(audio: seq<Byte>) | RenderDisplayFrame(video: seq<Byte>)

  /** A driver call hands over a whole frame: 256 audio bytes or 65536
      video bytes. */
  predicate FrameSized(call: DriverCall)
  {
    match call
    case RenderAudioFrame(audio) => |audio| == AudioLength
    case RenderDisplayFrame(video) => |video| == VideoLength
  }

  /** What one `run` leaves behind: the driver calls made, and the memory if
      `run` returned normally (None when an access threw part way). */
  datatype Frame = Frame(calls: seq<DriverCall>, final: Option<Memory>)

  /** Reference definitions of the instruction fields at `pc`. */
  ghost function SrcField(mem: Memory, pc: nat): nat
    requires pc + 3 <= MemSize
  {
    BigEndian(mem[pc..pc + 3])
  }

  ghost function DstField(mem: Memory, pc: nat): nat
    requires pc + 6 <= MemSize
  {
    BigEndian(mem[pc + 3..pc + 6])
  }

  ghost function JumpField(mem: Memory, pc: nat): nat
    requires pc + 9 <= MemSize
  {
    BigEndian(mem[pc + 6..pc + 9])
  }

  /** The input latch at the start of `run`: the 16-bit key state is stored
      big-endian in bytes 0 and 1.
      For a ushort, `(s & 0xFF00) >> 8` is s / 0x100 and `s & 0xFF` is
      s % 0x100. */
  function Latch(mem: Memory, s: UShort): (r: Memory)
    ensures r[0] == s / 0x100 && r[1] == s % 0x100
    ensures forall a :: 2 <= a < MemSize ==> r[a] == mem[a]
    ensures GetVal(r, 0, 2) == Some(s)
  {
    var r := mem[0 := s / 0x100][1 := s % 0x100];
    BigEndianWidths(r[0..2]);
    r
  }

  /** The copy statement at `c.pc` does not throw: the source and
      destination fields lie in memory and so do the addresses they hold. */
  ghost predicate Writable(c: Cpu)
  {
    && c.pc + 6 <= MemSize
    && SrcField(c.mem, c.pc) < MemSize
    && DstField(c.mem, c.pc) < MemSize
  }

  /** The copy half of one pass of the instruction loop in `run`: the byte
      at the address held in the source field is written to the address
      held in the destination field. It throws when either field runs past
      the end of memory or either address is out of range; then nothing is
      written. */
  function Transfer(c: Cpu): (r: Option<Memory>)
    ensures r.Some? <==> Writable(c)
    ensures r.Some? ==>
      r.value == c.mem[DstField(c.mem, c.pc) := c.mem[SrcField(c.mem, c.pc)]]
  {
    var dst :- GetVal(c.mem, c.pc + 3, 3);
    // the source field lies below the destination field, so once the
    // destination read succeeded this one cannot throw
    var src := GetVal(c.mem, c.pc, 3).value;
    if src < MemSize && dst < MemSize then
      var mem: Memory := c.mem[dst := c.mem[src]];
      Some(mem)
    else
      None
  }

  /** One pass of the instruction loop in `run`: the copy statement
      (`Transfer`), then the program counter becomes the jump field. The
      jump field is read after the write, from the updated memory, so a
      jump field running past the end of memory throws after the byte was
      already written. */
  function Step(c: Cpu): (r: Option<Cpu>)
    ensures r.Some? <==>
      (c.pc + 9 <= MemSize && SrcField(c.mem, c.pc) < MemSize && DstField(c.mem, c.pc) < MemSize)
    ensures r.Some? ==>
      && r.value.mem == c.mem[DstField(c.mem, c.pc) := c.mem[SrcField(c.mem, c.pc)]]
      && r.value.pc == JumpField(r.value.mem, c.pc)
  {
    match Transfer(c)
    case None => None
    case Some(mem) =>
      match GetVal(mem, c.pc + 6, 3)
      case None => None
      case Some(pc) => Some(Cpu(mem, pc))
  }

  /** Steps from a state that may already have failed. */
  function StepsFrom(o: Option<Cpu>, n: nat): Option<Cpu>
    decreases n, 1
  {
    match o
    case None => None
    case Some(c) => Steps(c, n)
  }

  /** `n` steps in a row; any failing step fails the whole run. */
  function Steps(c: Cpu, n: nat): Option<Cpu>
    decreases n, 0
  {
    if n == 0 then Some(c)
    else StepsFrom(Step(c), n - 1)
  }

  /** Running a + b steps is running a steps and then b more: there is no
      hidden state besides memory and pc, and a failure is final. */
  lemma {:induction false} StepsAdd(c: Cpu, a: nat, b: nat)
    ensures Steps(c, a + b) == StepsFrom(Steps(c, a), b)
    decreases a
  {
    if a > 0 {
      var next := Step(c);
      assert Steps(c, a + b) == StepsFrom(next, a - 1 + b);
      assert Steps(c, a) == StepsFrom(next, a - 1);
      if next.Some? {
        StepsAdd(next.value, a - 1, b);
      }
    }
  }

  /** A step that leaves its own state unchanged (a copy onto itself of a
      value already there, jumping back to itself) is a fixed point of any
      number of steps. */
  lemma {:induction false} StepsFixedPoint(c: Cpu, n: nat)
    requires Step(c) == Some(c)
    ensures Steps(c, n) == Some(c)
    decreases n
  {
    if n > 0 {
      StepsFixedPoint(c, n - 1);
    }
  }

  /** A step that copies a byte onto an equal byte and jumps to its own
      address leaves the state as it was. */
  lemma StepReturnsToItself(c: Cpu)
    requires c.pc + 9 <= MemSize
    requires SrcField(c.mem, c.pc) < MemSize && DstField(c.mem, c.pc) < MemSize
    requires c.mem[DstField(c.mem, c.pc)] == c.mem[SrcField(c.mem, c.pc)]
    requires JumpField(c.mem, c.pc) == c.pc
    ensures Step(c) == Some(c)
  {
    var mem := Transfer(c).value;
    assert mem == c.mem;
  }

  /** The number of bytes written by up to `n` passes from `c`: every pass
      whose copy statement does not throw writes one byte, including a last
      pass whose jump read then throws; nothing runs after a throw. The
      recursion goes through `WritesPass` and `WritesFrom`, in the way
      `Steps` goes through `StepsFrom`. */
  ghost function Writes(c: Cpu, n: nat): (w: nat)
    ensures w <= n
    decreases n, 0
  {
    if n == 0 then 0 else WritesPass(c, n - 1)
  }

  /** The bytes written by one pass from `c` and up to `n` passes after
      it. */
  ghost function WritesPass(c: Cpu, n: nat): (w: nat)
    ensures w <= n + 1
    decreases n, 2
  {
    if !Writable(c) then 0 else 1 + WritesFrom(Step(c), n)
  }

  /** The bytes written by up to `n` further steps after a step that may
      have thrown. */
  ghost function WritesFrom(o: Option<Cpu>, n: nat): (w: nat)
    ensures w <= n
    decreases n, 1
  {
    match o
    case None => 0
    case Some(c) => Writes(c, n)
  }

  /** A run of `n` steps that completes writes exactly `n` bytes. */
  lemma {:induction false} WritesOfCompleteRun(c: Cpu, n: nat)
    requires Steps(c, n).Some?
    ensures Writes(c, n) == n
    decreases n
  {
    if n > 0 {
      PassCompletes(c, n);
      WritesOfCompleteRun(Step(c).value, n - 1);
    }
  }

  /** A pass that throws: the steps fail, and the byte is written exactly
      when it was the jump read that threw. */
  lemma PassThrows(c: Cpu, n: nat)
    requires n > 0 && Step(c).None?
    ensures Steps(c, n).None?
    ensures Writes(c, n) == if Writable(c) then 1 else 0
  {
    assert Writes(c, n) == WritesPass(c, n - 1);
    assert WritesFrom(Step(c), n - 1) == 0;
  }

  /** A pass that completes: one byte is written and the remaining steps
      start from the state it leaves. */
  lemma PassCompletes(c: Cpu, n: nat)
    requires n > 0 && Step(c).Some?
    ensures Steps(c, n) == Steps(Step(c).value, n - 1)
    ensures Writes(c, n) == 1 + Writes(Step(c).value, n - 1)
  {
    assert Writable(c);
    assert Writes(c, n) == WritesPass(c, n - 1) == 1 + WritesFrom(Step(c), n - 1);
  }

  /** The loop invariant of `ExecuteLoop` carried across a pass that
      completes. */
  lemma Advance(c: Cpu, count: nat, cur: Cpu, i: nat, copies: nat)
    requires i > 0 && Step(cur).Some?
    requires Steps(c, count) == Steps(cur, i)
    requires copies + Writes(cur, i) == Writes(c, count)
    ensures Steps(c, count) == Steps(Step(cur).value, i - 1)
    ensures copies + 1 + Writes(Step(cur).value, i - 1) == Writes(c, count)
  {
    PassCompletes(cur, i);
  }

  /** One pass of the loop body: the copy statement, then the jump read.
      It reports whether the byte was written, which happens exactly when
      the copy statement did not throw, even if the jump read then did. */
  method Pass(cur: Cpu) returns (next: Option<Cpu>, wrote: bool)
    ensures next == Step(cur)
    ensures wrote <==> Writable(cur)
    ensures next.Some? ==> wrote
  {
    var mem := Transfer(cur);
    if mem.None? {
      return None, false;
    }
    var pc := GetVal(mem.value, cur.pc + 6, 3);
    if pc.None? {
      return None, true;
    }
    return Some(Cpu(mem.value, pc.value)), true;
  }

  /** The `while` loop of `run` that counts `i` down from `count` (0x10000
      in `run`), modelled as a method that also counts the bytes it writes.
      It computes `Steps(c, count)`; when no access throws it writes exactly
      `count` bytes, and when one throws the writes made so far, including
      one by a step whose jump read threw, remain. */
  method ExecuteLoop(c: Cpu, count: nat) returns (r: Option<Cpu>, copies: nat)
    ensures r == Steps(c, count)
    ensures copies == Writes(c, count)
    ensures r.Some? ==> copies == count
    ensures r.None? ==> copies <= count
  {
    var i: nat := count;
    var cur := c;
    copies := 0;
    while i != 0
      invariant copies + i == count
      invariant Steps(c, count) == Steps(cur, i)
      invariant copies + Writes(cur, i) == Writes(c, count)
    {
      var next, wrote := Pass(cur);
      if next.None? {
        PassThrows(cur, i);
        return None, if wrote then copies + 1 else copies;
      }
      Advance(c, count, cur, i, copies);
      copies, cur, i := copies + 1, next.value, i - 1;
    }
    return Some(cur), copies;
  }

  /** The base addresses of the output frames, computed in `run` after the
      instruction loop:
      `getVal(6, 2) << 8` and `getVal(5, 1) << 16`. Both shifts stay below
      2^24, so the C# `int` never overflows. */
  function AudioBase(mem: Memory): (a: nat)
    ensures a == BigEndian(mem[6..8]) * 0x100
    ensures a <= 0xFF_FF00
  {
    GetVal(mem, 6, 2).value * 0x100
  }

  function VideoBase(mem: Memory): (a: nat)
    ensures a == mem[5] as int * 0x1_0000
    ensures a <= 0xFF_0000
  {
    BigEndianWidths(mem[5..6]);
    GetVal(mem, 5, 1).value * 0x1_0000
  }

  /** The end of `run`, after the instruction loop: copy the audio page
      and hand it to the driver, then copy the video page and hand that
      over. A failed audio copy throws before any driver call; a failed
      video copy throws after the audio frame was delivered. */
  function DeliverFrames(mem: Memory): (r: Frame)
    ensures |r.calls| <= 2
    ensures r.final.Some? ==> |r.calls| == 2 && r.final == Some(mem)
    ensures forall i :: 0 <= i < |r.calls| ==> (r.calls[i].RenderAudioFrame? <==> i == 0)
    ensures forall i :: 0 <= i < |r.calls| ==> FrameSized(r.calls[i])
  {
    match Copy(mem, AudioBase(mem), AudioLength)
    case None => Frame([], None)
    case Some(audio) =>
      match Copy(mem, VideoBase(mem), VideoLength)
      case None => Frame([RenderAudioFrame(audio)], None)
      case Some(video) => Frame([RenderAudioFrame(audio), RenderDisplayFrame(video)], Some(mem))
  }

  /** `run(s)`: latch the input, read the start pc from bytes 2-4, execute
      FrameSteps steps, then deliver the frames of the final memory. */
  function Run(mem: Memory, s: UShort): (r: Frame)
    ensures |r.calls| <= 2
    ensures r.final.Some? ==> |r.calls| == 2
    ensures forall i :: 0 <= i < |r.calls| ==> (r.calls[i].RenderAudioFrame? <==> i == 0)
    ensures forall i :: 0 <= i < |r.calls| ==> FrameSized(r.calls[i])
  {
    var latched := Latch(mem, s);
    var pc := GetVal(latched, 2, 3).value;
    match Steps(Cpu(latched, pc), FrameSteps)
    case None => Frame([], None)
    case Some(c) => DeliverFrames(c.mem)
  }

  /** The state the instruction loop starts from: the latched memory and
      the pc stored in bytes 2-4 (which the latch does not touch). */
  ghost function FrameStart(mem: Memory, s: UShort): Cpu
  {
    Cpu(Latch(mem, s), BigEndian(mem[2..5]))
  }

  /** The frames come from the final memory: with audio page
      BigEndian(bytes 6-7) and video page byte 5, the delivery succeeds
      exactly when the audio page is below 0xFFFF and the video page below
      0xFF, handing over the audio slice first and the video slice second;
      with audio page 0xFFFF nothing goes out, and with a good audio page
      but video page 0xFF only the audio frame goes out. */
  lemma DeliverFramesPages(m: Memory)
    ensures DeliverFrames(m).final.Some? <==> (BigEndian(m[6..8]) < 0xFFFF && m[5] < 0xFF)
    ensures DeliverFrames(m).final.Some? ==>
      (var audio := BigEndian(m[6..8]) * 0x100;
       var video := m[5] as int * 0x1_0000;
       DeliverFrames(m).calls == [RenderAudioFrame(m[audio..audio + 0x100]),
                                  RenderDisplayFrame(m[video..video + 0x1_0000])])
    ensures BigEndian(m[6..8]) < 0xFFFF && m[5] == 0xFF ==>
      (var audio := BigEndian(m[6..8]) * 0x100;
       DeliverFrames(m) == Frame([RenderAudioFrame(m[audio..audio + 0x100])], None))
    ensures BigEndian(m[6..8]) == 0xFFFF ==> DeliverFrames(m) == Frame([], None)
  {
    BigEndianBound(m[6..8]);
    AudioCopyInRange(m, BigEndian(m[6..8]));
    BigEndianWidths(m[5..6]);
    VideoCopyInRange(m, m[5]);
  }

  /** `run` latches the input, starts from the pc in bytes 2-4 and executes
      exactly FrameSteps steps before any output: if a step throws, no
      driver call is made; otherwise the frames are those of the memory
      after the last step. */
  lemma RunOutcome(mem: Memory, s: UShort)
    ensures Steps(FrameStart(mem, s), FrameSteps).None? ==> Run(mem, s) == Frame([], None)
    ensures Steps(FrameStart(mem, s), FrameSteps).Some? ==>
      Run(mem, s) == DeliverFrames(Steps(FrameStart(mem, s), FrameSteps).value.mem)
  {
    assert Latch(mem, s)[2..5] == mem[2..5];
  }
}
