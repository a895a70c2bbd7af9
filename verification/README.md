# BytePusher virtual machine, modelled in Dafny

BytePusher is a ByteByteJump machine: its only instruction copies one byte
and jumps. `BytePusherVM` keeps one flat byte array as memory. Each call of
`run` does four things. It latches the 16-bit key state into bytes 0-1. It
reads the start program counter from bytes 2-4. It executes exactly 0x10000
instructions. Each instruction is 9 bytes at the pc: a 3-byte source
address, a 3-byte destination address and a 3-byte jump address, all
big-endian. Finally it copies a 256-byte audio page and a 65,536-byte video
page out of memory and hands them, audio first, to an I/O driver. The XNA
driver turns the video page into a 24-bit BGR image using a 6x6x6 colour
cube. It widens the audio samples to 16 bits. It builds the 16-bit key mask
from the pressed keys.

The model is functional:

- Memory is a `seq` of bytes of fixed length 0xFFFFFF.
- Operations are pure functions, with methods only where the C# code
  loops. Every operation that can throw returns an `Option`, and `None`
  stands for the exception the C# code would throw. For `run` the result
  is a `Frame` whose final memory is an `Option`.
- `run` is `Latch`, then `Steps(.., 0x10000)`, then `DeliverFrames`. Its
  result `Frame` lists the driver calls in order, together with the final
  memory.
- `Steps` is the plain n-fold repetition of `Step`. Its meaning is stated
  by the lemmas `StepsAdd`, `StepsFixedPoint` and `WritesOfCompleteRun`,
  and by `ExecuteLoop`, the instruction loop written as a method, which is
  proved to compute it.
- A step is split into `Transfer`, the copy, and the jump read after it.
  A jump field that runs past the end of memory throws after the copy was
  made, and `Writes` counts that copy.

Files:

- `wrappers.dfy`: the `Option` type.
- `bytes.dfy`: `Byte`, `UShort` and big-endian arithmetic.
- `memory_image.dfy`: memory, `getVal`, `copy` and `load`.
- `machine.dfy`: the step, the frame loop and `run`.
- `scenarios.dfy`: concrete programs.
- `audio.dfy`, `display.dfy`, `keys.dfy`: the driver's byte conversions.

On these points the code departs from the BytePusher machine as usually
described, with 16 MiB of memory and 24-bit addresses. The model follows the
code:

- Memory is `new byte[0xFFFFFF]`: 16,777,215 bytes, not 2^24. Addresses are
  never masked to 24 bits. Any access at or beyond 0xFFFFFF throws instead
  of wrapping around. This includes a destination 0xFFFFFF, a pc within 9
  bytes of the top, video page 0xFF and audio page 0xFFFF.
- The largest ROM that loads is 0xFFFFFF bytes.
- `load` allocates the new zeroed array before reading the ROM. A ROM that
  is too long therefore throws after the old memory has already been
  replaced. The old contents are not kept.
- A failed video copy throws after the audio frame was already handed to
  the driver (`Frame([RenderAudioFrame(..)], None)`).

## Model

| member | source | states |
|---|---|---|
| Bytes.ShiftIn | BytePusherXna/BytePusherXna/BytePusher.cs:75-80 | the shift-and-add accumulator never decreases; ShiftInIsBigEndian gives its exact value |
| Bytes.ShiftInIsBigEndian | BytePusherXna/BytePusherXna/BytePusher.cs:75-80 | the shift-and-add loop of getVal equals the sum of byte[i]*256^(len-1-i), most significant byte first |
| Bytes.BigEndianBound | BytePusherXna/BytePusherXna/BytePusher.cs:73-81 | a big-endian value of len bytes is below 256^len, so 3-byte reads stay below 2^24 and the int accumulator cannot overflow |
| MemoryImage.GetVal | BytePusherXna/BytePusherXna/BytePusher.cs:73-81 | a read of width 1-3 succeeds exactly when pc+len <= memory length, and then returns the big-endian value of mem[pc..pc+len), below 256^len; width 0 returns 0 for every pc, without indexing |
| MemoryImage.Copy | BytePusherXna/BytePusherXna/BytePusher.cs:83-88 | copy succeeds exactly when start+length fits in memory, and returns length bytes equal to mem[start+i] |
| MemoryImage.Init | BytePusherXna/BytePusherXna/BytePusher.cs:33 | a new VM's memory has 0xFFFFFF bytes, all zero |
| MemoryImage.Load | BytePusherXna/BytePusherXna/BytePusher.cs:42-54 | load succeeds exactly when the ROM has at most 0xFFFFFF bytes; memory then holds the ROM from address 0 and zero everywhere after it |
| MemoryImage.LoadEmptyIsInit | BytePusherXna/BytePusherXna/BytePusher.cs:44 | loading an empty ROM gives the same memory as a freshly constructed VM |
| MemoryImage.EmptyReadAnywhere | BytePusherXna/BytePusherXna/BytePusher.cs:73-81 | a width-0 read at or beyond the end of memory returns 0 instead of throwing, since the loop never indexes |
| MemoryImage.LoadThenGetVal | BytePusherXna/BytePusherXna/BytePusher.cs:44-52 | after a load, a read inside the ROM returns the big-endian value of the ROM's own bytes |
| MemoryImage.AudioCopyInRange | BytePusherXna/BytePusherXna/BytePusher.cs:69 | the 256-byte audio copy at page*256 succeeds exactly for page < 0xFFFF |
| MemoryImage.VideoCopyInRange | BytePusherXna/BytePusherXna/BytePusher.cs:70 | the 65536-byte video copy at page*65536 succeeds exactly for page < 0xFF |
| Machine.Latch | BytePusherXna/BytePusherXna/BytePusher.cs:59-61 | after latching s, byte 0 is the high byte of s, byte 1 its low byte, the rest of memory is unchanged, and a 2-byte read at 0 gives back s |
| Machine.Transfer | BytePusherXna/BytePusherXna/BytePusher.cs:66 | the copy statement succeeds exactly when the source and destination fields lie in memory and both addresses are below 0xFFFFFF; the memory is then the old one with the byte at the decoded source address stored at the decoded destination address |
| Machine.Step | BytePusherXna/BytePusherXna/BytePusher.cs:66-67 | a step succeeds exactly when the 9-byte instruction and both addresses lie in memory; it then writes mem[src] to dst, changes no other byte, and takes the next pc from the memory after the write |
| Machine.StepsAdd | BytePusherXna/BytePusherXna/BytePusher.cs:64-68 | a+b steps are a steps followed by b steps, and a failed step fails every later count |
| Machine.StepsFixedPoint | BytePusherXna/BytePusherXna/BytePusher.cs:64-68 | an instruction whose step reproduces its own state leaves any number of steps unchanged |
| Machine.Writes | BytePusherXna/BytePusherXna/BytePusher.cs:64-68 | the bytes written by up to n loop passes number at most n (PassThrows gives the count of a pass that throws) |
| Machine.Pass | BytePusherXna/BytePusherXna/BytePusher.cs:66-67 | one loop pass, copy statement then jump read, yields exactly Step(cur); it reports a write exactly when the copy statement's fields and addresses are in range, and every pass that completes has written |
| Machine.PassThrows | BytePusherXna/BytePusherXna/BytePusher.cs:64-68 | when a pass throws, the remaining steps fail, and exactly one byte has been written if the copy statement's fields and addresses were in range (so it was the jump read that threw), none otherwise |
| Machine.PassCompletes | BytePusherXna/BytePusherXna/BytePusher.cs:64-68 | a pass that completes writes one byte, and the remaining steps and writes are those of the state it leaves |
| Machine.WritesOfCompleteRun | BytePusherXna/BytePusherXna/BytePusher.cs:64-68 | n passes that all complete write exactly n bytes |
| Machine.ExecuteLoop | BytePusherXna/BytePusherXna/BytePusher.cs:62-68 | the countdown loop started at i = count computes Steps(c, count) and writes Writes(c, count) bytes: exactly count when no access throws, at most count when one does, counting a write made before a throwing jump read |
| Machine.AudioBase | BytePusherXna/BytePusherXna/BytePusher.cs:69 | the audio base is the big-endian value of bytes 6-7 times 256, at most 0xFFFF00 |
| Machine.VideoBase | BytePusherXna/BytePusherXna/BytePusher.cs:70 | the video base is byte 5 times 65536, at most 0xFF0000 |
| Machine.DeliverFrames | BytePusherXna/BytePusherXna/BytePusher.cs:69-70 | at most two driver calls are made, the audio call always first, each carrying a whole frame (256 audio or 65536 video bytes); returning normally means both calls were made |
| Machine.DeliverFramesPages | BytePusherXna/BytePusherXna/BytePusher.cs:69-70 | output succeeds exactly when the audio page is below 0xFFFF and the video page below 0xFF; the frames are then mem[A..A+256) and mem[V..V+65536), audio first; with audio page 0xFFFF no frame is delivered, and with a good audio page but video page 0xFF only the audio frame is delivered |
| Machine.Run | BytePusherXna/BytePusherXna/BytePusher.cs:56-71 | run makes at most two driver calls, audio first, each with a whole 256-byte or 65536-byte frame, and returns normally only after both; RunOutcome says which frames |
| Machine.RunOutcome | BytePusherXna/BytePusherXna/BytePusher.cs:56-71 | run starts from the latched memory and the pc in bytes 2-4, makes no driver call if any of the 0x10000 steps throws, and otherwise outputs the frames of the memory after the last step |
| Scenarios.JumpReadAfterWrite | BytePusherXna/BytePusherXna/BytePusher.cs:66-67 | an instruction that writes into its own jump field jumps to the new value (7), not to the old one (0) |
| Scenarios.SelfLoopFrame | BytePusherXna/BytePusherXna/BytePusher.cs:56-71 | a self-looping program copying 0x42 from 0x100 to 0x200 ends the frame with 0x42 at 0x200 and both frames delivered from page 0 of the final memory, audio first, for every input |
| Scenarios.SelfLoopSteps | BytePusherXna/BytePusherXna/BytePusher.cs:62-68 | the self-looping program's first step copies 0x42 to 0x200 and the remaining 0xFFFF steps leave that state unchanged |
| Scenarios.PageZeroDelivery | BytePusherXna/BytePusherXna/BytePusher.cs:69-70 | memory whose bytes 5-7 are zero delivers its first 256 bytes as audio and its first 65536 as video, and run returns normally |
| Scenarios.WriteBeforeFailedJump | BytePusherXna/BytePusherXna/BytePusher.cs:66-67 | at pc 0xFFFFF7 of zeroed memory the copy succeeds and the jump read then throws, so the step fails with one byte written |
| Scenarios.BlankMachineStep | BytePusherXna/BytePusherXna/BytePusher.cs:66-67 | on zeroed memory the instruction at pc 0 copies 0 onto address 0 and jumps back to 0 |
| Scenarios.BlankMachineDelivery | BytePusherXna/BytePusherXna/BytePusher.cs:69-70 | zeroed memory yields an all-zero audio frame and an all-zero video frame |
| Scenarios.BlankMachineFrame | BytePusherXna/BytePusherXna/BytePusher.cs:56-71 | running a never-loaded VM with no key pressed leaves memory zero and delivers blank frames |
| AudioConversion.Widen | BytePusherXna/BytePusherXna/BytePusherDriver.cs:46-52 | the 16-bit buffer has twice the input length, with out[2k] = 0 and out[2k+1] = data[k] |
| AudioConversion.HighBytesOfWiden | BytePusherXna/BytePusherXna/BytePusherDriver.cs:46-52 | the high bytes of the widened buffer give back the 8-bit samples |
| AudioConversion.WidenScalesSamples | BytePusherXna/BytePusherXna/BytePusherDriver.cs:46-52 | each little-endian 16-bit sample is the signed 8-bit sample times 256 |
| DisplayConversion.Decompose | BytePusherXna/BytePusherXna/BytePusherDriver.cs:71-73 | for c <= 215 the blue, green and red levels are each in 0..5, and 36*red + 6*green + blue = c |
| DisplayConversion.DecomposeCompose | BytePusherXna/BytePusherXna/BytePusherDriver.cs:71-73 | decomposing the index of any cube point gives back that point |
| DisplayConversion.ComposeDecompose | BytePusherXna/BytePusherXna/BytePusherDriver.cs:71-73 | composing the decomposed levels of any c <= 215 gives back c |
| DisplayConversion.IntensityExact | BytePusherXna/BytePusherXna/BytePusherDriver.cs:75-77 | for levels 0..5 the byte cast of level*0x33 never truncates, and the intensities strictly increase |
| DisplayConversion.PixelChannels | BytePusherXna/BytePusherXna/BytePusherDriver.cs:65-77 | a pixel above 215 gives three zero bytes; otherwise the bytes are (c%6)*0x33, ((c/6)%6)*0x33 and (c/36)*0x33, in the order blue, green, red |
| DisplayConversion.PixelBytes | BytePusherXna/BytePusherXna/BytePusherDriver.cs:65-77 | every pixel gives three bytes, each a multiple of 0x33; PixelChannels gives their exact values |
| DisplayConversion.RenderDisplayFrame | BytePusherXna/BytePusherXna/BytePusherDriver.cs:60-79 | the conversion fails exactly when a colour pixel lies beyond the first 65536; otherwise it returns 196608 bytes, with pixel k at bytes 3k..3k+2 and zero after the last input pixel |
| KeyMapping.KeyValueIsBit | BytePusherXna/BytePusherXna/BytePusherDriver.cs:104-119 | keys 0-9 add bits 0-9, keys A-F add bits 10-15, and every other key adds 0 |
| KeyMapping.KeyPress | BytePusherXna/BytePusherXna/BytePusherDriver.cs:99-123 | no pressed hex key gives 0, and a single key gives that key's value; KeyPressIsMask and KeyPressBits give the general case |
| KeyMapping.KeyPressIsMask | BytePusherXna/BytePusherXna/BytePusherDriver.cs:99-123 | for distinct pressed keys the ushort sum never wraps and equals the number whose bits are exactly the pressed keys' indexes |
| KeyMapping.KeyPressBits | BytePusherXna/BytePusherXna/BytePusherDriver.cs:99-123 | for distinct keys, bit i of the mask is set exactly when the key with index i is pressed, so the sum is the bitwise OR |
| KeyMapping.RepeatedKeyCarries | BytePusherXna/BytePusherXna/BytePusherDriver.cs:99-123 | if the same key is listed twice the sum carries: two 0 keys read as key 1 |

## Left out

- Reading the ROM file (`FileStream`) is not modelled. The ROM is a byte
  sequence parameter.
- The memory left behind by an exception is not modelled. The host has no
  handler, so the exception ends the program.
- `getKeyPress` is not called by `run` in the model. The key state is a
  `UShort` parameter of `Run`. `KeyMapping.KeyPress` computes it from the
  list of pressed keys.
- The `ioDriver` calls are not made. `Run` returns them, in order, as
  `DriverCall` values.
- The unused parameter `t` of `getVal` is left out.
- MemoryImage.GetVal: widths above 3 are not modelled. No caller uses them,
  and the 32-bit `int` accumulator would overflow for them.
- Bitmap locking, `Marshal.Copy`, PNG encoding, `Texture2D` creation, sound
  submission and `Keyboard.GetState` are not modelled. They are calls into
  the XNA and System.Drawing frameworks. Only the byte transforms before
  those calls are modelled.
- The game loop, window handling, ROM directory browsing, frame timing,
  the frame-rate counter and text drawing in `BytePusherXna.cs` are not
  modelled. Neither is the entry point in `Program.cs`. All of these are
  host UI and I/O.
