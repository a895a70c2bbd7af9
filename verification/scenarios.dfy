/** Concrete programs run through the model of `BytePusherVM.run`. */
module Scenarios {
  import opened Wrappers
  import opened Bytes
  import opened MemoryImage
  import opened Machine

  /** Self-modifying code: an instruction at pc 16 whose destination is the
      last byte of its own jump field (pc + 8). It copies 7 from address
      0x40 there, so the step jumps to 7, not to the 0 the jump field held
      before the write: the jump is read from the updated memory. */
  lemma JumpReadAfterWrite()
    ensures
      var m := Init()[18 := 0x40][21 := 24][0x40 := 7];
      && JumpField(m, 16) == 0
      && Step(Cpu(m, 16)) == Some(Cpu(m[24 := 7], 7))
  {
    var m: Memory := Init()[18 := 0x40][21 := 24][0x40 := 7];
    BigEndianWidths(m[16..19]);
    BigEndianWidths(m[19..22]);
    BigEndianWidths(m[22..25]);
    assert SrcField(m, 16) == 0x40;
    assert DstField(m, 16) == 24;
    var m': Memory := m[24 := 7];
    BigEndianWidths(m'[22..25]);
    assert JumpField(m', 16) == 7;
    var r := Step(Cpu(m, 16));
    assert r.value.mem == m';
  }

  /** A program that copies the byte at 0x100 to 0x200 and jumps back to
      itself: after one frame the copy has happened and the frames come out
      of pages 0, whatever the input. */
  lemma SelfLoopFrame(s: UShort)
    ensures
      var m := Init()[4 := 8][9 := 1][12 := 2][16 := 8][0x100 := 0x42];
      var r := Run(m, s);
      && r.final.Some?
      && r.final.value[0x200] == 0x42
      && r.calls == [RenderAudioFrame(r.final.value[0..0x100]),
                     RenderDisplayFrame(r.final.value[0..0x1_0000])]
  {
    var m: Memory := Init()[4 := 8][9 := 1][12 := 2][16 := 8][0x100 := 0x42];
    var l': Memory := Latch(m, s)[0x200 := 0x42];
    assert l'[5] == 0 && l'[6] == 0 && l'[7] == 0;
    PageZeroDelivery(l');
    SelfLoopSteps(s);
    RunOutcome(m, s);
  }

  /** Memory whose page bytes 5-7 are zero hands out the first 256 bytes
      as the audio frame and the first 65536 as the video frame. */
  lemma PageZeroDelivery(mem: Memory)
    requires mem[5] == 0 && mem[6] == 0 && mem[7] == 0
    ensures DeliverFrames(mem) ==
      Frame([RenderAudioFrame(mem[0..0x100]), RenderDisplayFrame(mem[0..0x1_0000])], Some(mem))
  {
    BigEndianWidths(mem[6..8]);
    DeliverFramesPages(mem);
  }

  /** The instruction loop of the self-looping program: the first step
      makes the copy, and every later step repeats it without change. */
  lemma SelfLoopSteps(s: UShort)
    ensures
      var m := Init()[4 := 8][9 := 1][12 := 2][16 := 8][0x100 := 0x42];
      Steps(FrameStart(m, s), FrameSteps) == Some(Cpu(Latch(m, s)[0x200 := 0x42], 8))
  {
    var m: Memory := Init()[4 := 8][9 := 1][12 := 2][16 := 8][0x100 := 0x42];
    var l := Latch(m, s);
    assert m[2..5] == [0, 0, 8];
    BigEndianWidths(m[2..5]);
    var c0 := FrameStart(m, s);
    assert c0.pc == 8;
    BigEndianWidths(l[8..11]);
    BigEndianWidths(l[11..14]);
    assert SrcField(l, 8) == 0x100;
    assert DstField(l, 8) == 0x200;
    var l': Memory := l[0x200 := 0x42];
    BigEndianWidths(l'[14..17]);
    assert JumpField(l', 8) == 8;
    var c1 := Cpu(l', 8);
    assert Step(c0).value.mem == l';
    assert Step(c0) == Some(c1);
    BigEndianWidths(l'[8..11]);
    BigEndianWidths(l'[11..14]);
    assert Step(c1).value.mem == l';
    StepsFixedPoint(c1, FrameSteps - 1);
    assert Steps(c0, FrameSteps) == Some(c1);
  }

  /** An instruction whose jump field runs past the end of memory: at pc
      0xFFFFF7 of zero-filled memory the copy of address 0 onto address 0
      is carried out, and only then does the jump read throw. So the step
      fails, yet one byte has been written, and a loop of any positive
      length started there writes exactly that one byte. */
  lemma WriteBeforeFailedJump(n: nat)
    requires n > 0
    ensures
      var c := Cpu(Init(), 0xFF_FFF7);
      && Transfer(c) == Some(Init())
      && Step(c).None?
      && Writes(c, n) == 1
  {
    var z := Init();
    var c := Cpu(z, 0xFF_FFF7);
    BigEndianWidths(z[0xFF_FFF7..0xFF_FFFA]);
    BigEndianWidths(z[0xFF_FFFA..0xFF_FFFD]);
    assert SrcField(z, c.pc) == 0;
    assert DstField(z, c.pc) == 0;
    assert Transfer(c).value == z;
    PassThrows(c, n);
  }

  /** On zero-filled memory the instruction at pc 0 copies 0 onto address
      0 and jumps back to 0: a fixed point. */
  lemma BlankMachineStep()
    ensures Step(Cpu(Init(), 0)) == Some(Cpu(Init(), 0))
  {
    var z := Init();
    assert z[0..3] == [0, 0, 0] && z[3..6] == [0, 0, 0] && z[6..9] == [0, 0, 0];
    BigEndianWidths([0, 0, 0]);
    assert SrcField(z, 0) == 0 && DstField(z, 0) == 0;
    assert JumpField(z, 0) == 0;
    StepReturnsToItself(Cpu(z, 0));
  }

  /** A never-loaded, zero-filled VM given no input keeps copying 0 onto
      address 0 at pc 0, and delivers an all-zero audio and video frame. */
  lemma BlankMachineFrame()
    ensures Run(Init(), 0) ==
      Frame([RenderAudioFrame(Zeroes(0x100)), RenderDisplayFrame(Zeroes(0x1_0000))], Some(Init()))
  {
    var z := Init();
    assert Latch(z, 0) == z;
    BigEndianWidths(z[2..5]);
    assert z[2..5][0] == 0 && z[2..5][1] == 0 && z[2..5][2] == 0;
    assert BigEndian(z[2..5]) == 0;
    assert FrameStart(z, 0) == Cpu(z, 0);
    BlankMachineStep();
    StepsFixedPoint(Cpu(z, 0), FrameSteps);
    RunOutcome(z, 0);
    BlankMachineDelivery();
  }

  lemma BlankMachineDelivery()
    ensures DeliverFrames(Init()) ==
      Frame([RenderAudioFrame(Zeroes(0x100)), RenderDisplayFrame(Zeroes(0x1_0000))], Some(Init()))
  {
    var z := Init();
    BigEndianWidths(z[6..8]);
    DeliverFramesPages(z);
    assert z[0..0x100] == Zeroes(0x100);
    assert z[0..0x1_0000] == Zeroes(0x1_0000);
  }
}
