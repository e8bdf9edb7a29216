# Verified model of CFU-Playground's protocol, arithmetic, memory and runtime cores

CFU-Playground attaches a custom function unit (CFU) to a RISC-V soft core. This Dafny project
models the parts of it in which a mistake would be hard to see, and proves what they are for:

- **Protocol** (`CfuProtocol`, `CfuWiring`, `ClockControl`, `GatingObserved`, `MacCfu`). The CFU's
  command/response machine serves eight arbitrary synchronous instructions; the clock controller
  watches the same wires and stops the CPU's and the CFU's clocks. The CPU is any infinite stream of
  bus cycles. Proved over whole runs: responses in order with the right value and held under
  back-pressure, bounded time to answer, the joint invariant, exactly when gating leaves the CFU's
  registers as they would have been, and exactly when the CPU cannot tell a gated CFU from one that
  is always clocked.
- **Arithmetic** (`Packing`, `SimdMac`, `Convolution`, `ConvolutionLaws`, `ConvolutionRange`,
  `TreeSum`). The SIMD multiply-accumulate instruction computes a dot product modulo 2^32, with the
  exact bound up to which it is the true one; the convolution kernels write every output element
  once, with the value of a convolution over a padded image; and the instruction refines the kernel.
  `MacCfu` joins this to the protocol: what the CPU reads from the gated CFU is the dot product of
  what it sent.
- **Memories** (`Lram`, `LramBytes`, `GatedMemory`, `InitValues`, `MemoryReader`). Banked RAM
  behaves as one array, except for the reads that clock gating spoils, its initialisation strings
  decode to the initial contents, and the look-ahead reader behaves as a cyclic list.
- **Number theory** (`PseudoRandom`, `MurmurHash`, `MurmurAnswers`). Exact periods of the
  generator's state and output, the hash's injectivity in one chunk and in the tail, and two of its
  known answers.
- **Low-level C** (`Framebuffer`, `DivTrap`, `CycleCounter`). Filled rectangles and lines, division
  emulated across a trap, and the 64-bit counter read.

`Words` holds the machine integer types, their wrap-around and a little arithmetic. Where the source
updates state, a class with the same fields does so in place and its methods are tied to a function
of the old state; the theorems are about those functions. Beside the main theorems of each part
stand laws that say what its operations do in terms of inputs and outputs alone, such as the
one-element filter, the encoded instruction, the single byte of a memory and the known answers of
the hash. Hardware is modelled as one step per clock edge.

Five properties turned out to be narrower than the code or its comments suggest, and are stated with
their exact condition:

- `random.c` says that the higher order bits are used; the output's period is nevertheless exactly
  2^60, not 2^64 (`PseudoRandom.OutputPeriodIff`).
- Lines steeper than 45 degrees do not reach their end point (`Framebuffer.EndpointsDrawnIff`).
- The division trap is right exactly for operands and destinations that are stored in the trap
  frame, which x0 and x2 are not, but for the remainder of x2 by itself under a libgcc whose
  remainder of zero by zero is zero (`DivTrap.TrapExecutesIff`).
- The banks of the RAM are clock-gated and its acknowledge register is not, so a read can be
  acknowledged before it was made: it is right exactly when the CPU did not wait for the CFU in
  every earlier cycle of the access (`GatedMemory.GatedReadIff`). One command to a two-cycle
  instruction is enough to read back a word that was just overwritten (`GatedMemory.StaleRead`).
- `fb_fill_rect` computes its sums in 32 bits, so a rectangle far off the screen can come back onto
  it; `Framebuffer.FillsExactlyIff` says which arguments it handles.

## Model

| member | source | states |
|---|---|---|
| PseudoRandom.Generator.NextPseudoRandom | common/src/playground_util/random.c:23-27 | the n-th call returns the n-th draw of the sequence fixed by the seed |
| PseudoRandom.JumpForm | common/src/playground_util/random.c:21-22 | for a ≡ 1 mod 4 and c odd, 2^k steps are one affine map whose factor is 1 mod 4·2^k and whose offset is an odd multiple of 2^k |
| PseudoRandom.ReturnsIff | common/src/playground_util/random.c:21-24 | for every such a and c, n steps move the unbounded state by a multiple of 2^k if and only if n is one |
| PseudoRandom.WrappingIsModular | common/src/playground_util/random.c:24 | the signed wrapping state agrees modulo 2^64 with the unbounded recurrence |
| PseudoRandom.StateFollows | common/src/playground_util/random.c:21-24 | each state is a signed 64-bit word congruent modulo 2^64 to 6364136223846793005 times the one before plus 1442695040888963407 |
| PseudoRandom.DrawBits | common/src/playground_util/random.c:25-26 | bit k of a draw, for all 32 of them, is bit k + 28 of the state it is drawn from |
| PseudoRandom.FullPeriod | common/src/playground_util/random.c:21-27 | for every k ≤ 64, states i and j agree modulo 2^k if and only if i and j do: period exactly 2^k |
| PseudoRandom.FirstReturn | common/src/playground_util/random.c:21-27 | from every seed the state returns after 2^64 steps and never earlier |
| PseudoRandom.OutputsDiffer | common/src/playground_util/random.c:25-26 | states half of 2^60 apart are told apart by the 32 bits handed out |
| PseudoRandom.OutputPeriodIff | common/src/playground_util/random.c:21-27 | p is a period of the output sequence, from any seed, if and only if 2^60 divides p |
| MurmurHash.Murmurhash3 | common/src/playground_util/murmurhash.cc:19-110 | the chunk loop, byte loop and final mix compute, as a signed word, the hash defined by recursion over chunks and tail bytes |
| MurmurHash.RotationsAreOrs | common/src/playground_util/murmurhash.cc:55-62 | the bitwise or of the two shifted halves is the rotation, as they share no bit |
| MurmurHash.MulBijective | common/src/playground_util/murmurhash.cc:34-38 | multiplication by each of the five constants is undone by a stated inverse modulo 2^32 |
| MurmurHash.ScrambleBijective | common/src/playground_util/murmurhash.cc:54-56 | scrambling a chunk has a two-sided inverse on words |
| MurmurHash.MixChunkBijective | common/src/playground_util/murmurhash.cc:61-63 | mixing a chunk in can be undone knowing the chunk, and the chunk recovered knowing the hash before and after |
| MurmurHash.XorShift16Bijective | common/src/playground_util/murmurhash.cc:103-107 | the 16-bit xor-shift is its own inverse |
| MurmurHash.XorShift13Injective | common/src/playground_util/murmurhash.cc:105 | the 13-bit xor-shift has an inverse |
| MurmurHash.FinalMixInjective | common/src/playground_util/murmurhash.cc:103-107 | the final mix has an inverse |
| MurmurHash.BodiesStayApart | common/src/playground_util/murmurhash.cc:47-64 | running hashes that differ stay different over equal further chunks |
| MurmurHash.TailDeterminesBytes | common/src/playground_util/murmurhash.cc:67-70 | the tail words of two strings agree if and only if all the tail bytes do |
| MurmurHash.OneChunkNeverCollides | common/src/playground_util/murmurhash.cc:47-109 | strings of equal length that agree outside one aligned chunk hash alike if and only if they are equal |
| MurmurHash.TailNeverCollides | common/src/playground_util/murmurhash.cc:67-109 | strings of equal length that agree outside the tail hash alike if and only if they are equal |
| MurmurHash.LengthCounts | common/src/playground_util/murmurhash.cc:95-96 | strings of different lengths that leave the same running hash and tail word never hash alike |
| MurmurHash.ZeroByteCounts | common/src/playground_util/murmurhash.cc:66-96 | a zero byte appended behind the last chunk always changes the hash |
| MurmurAnswers.OneByte | common/src/playground_util/util_tests.cc:48 | the known answer for a string of one byte, which has a tail alone |
| MurmurAnswers.SevenBytes | common/src/playground_util/util_tests.cc:54 | the known answer for a string of seven bytes, which has a chunk and a full tail, and so fixes every constant and the order of bytes and steps |
| CfuProtocol.Cfu.constructor | python/amaranth_cfu/cfu.py:236-252 | a CFU starts waiting for a command, with its instructions in reset |
| CfuProtocol.Cfu.Cycle | python/amaranth_cfu/cfu.py:258-304 | one clock cycle: the combinational reply, and new registers only when the clock is enabled |
| CfuProtocol.OpenStep | python/amaranth_cfu/cfu.py:258-297 | a cycle of an open transaction either completes it or keeps it open: started once, no reply before done, then one value held while the CPU stalls, no second command let in |
| CfuProtocol.InOrderStep | python/amaranth_cfu/cfu.py:272-297 | every cycle keeps the ordering invariant on accepted and delivered transactions |
| CfuProtocol.ResponsesInOrder | python/amaranth_cfu/cfu.py:258-297 | over every run, response k carries the output at its done cycle of the instruction command k named, comes before command k+1, and is held unchanged while stalled; accepted minus delivered is 0 or 1, and 0 exactly when waiting for a command |
| CfuProtocol.AnsweredOnceReady | python/amaranth_cfu/cfu.py:258-297 | a command is answered between the cycle in which its instruction is first done and the first ready CPU cycle after that; the CPU need not be ready before |
| CfuProtocol.AnsweredInTime | python/amaranth_cfu/cfu.py:221-297 | an instruction done within d cycles, and a CPU ready within r cycles of its being done, get the command served within d+r cycles |
| CfuProtocol.UnassignedAnswered | python/amaranth_cfu/cfu.py:137-145 | a command for an unassigned slot is done in its own cycle, never hangs, and is answered with its first operand |
| CfuWiring.ReadyIff | python/amaranth_cfu/cfu.py:272-278 | the CFU takes a command in exactly the cycles in which all earlier ones are answered |
| CfuWiring.ResponseIff | python/amaranth_cfu/cfu.py:258-297 | it offers a response in exactly the cycles in which a command is unanswered and its instruction has been done by then |
| CfuWiring.RegistersSeeBus | python/amaranth_cfu/cfu.py:253-304 | in every cycle the instructions' registers follow that cycle's two operands and upper seven function id bits, with the start line of the slot named by the lower three high exactly when a command is accepted |
| CfuWiring.StartSeesBus | python/amaranth_cfu/cfu.py:258-304 | in the cycle of its command an instruction's done and output lines are those under that cycle's operands |
| CfuWiring.LinesSeeBus | python/amaranth_cfu/cfu.py:258-304 | in its later cycles they are those under the operands then on the bus |
| CfuWiring.CombinationalAnswers | python/amaranth_cfu/cfu.py:253-304 | an instruction without registers, in any slot, answers a command with its function of both operands and the upper function id bits of the cycle in which it was accepted, however long the CPU stalls |
| ClockControl.CfuCpuClockCtrl.Cycle | soc/clock_control.py:36-63 | the two clock enables and the next state of the controller |
| ClockControl.GatedCfu.Cycle | soc/hps_soc.py:118-149 | CFU and controller wired together: the CFU's registers move only with its enable, which depends on its own reply |
| ClockControl.JointInvariant | soc/clock_control.py:36-63 | in every cycle of every run, the controller lets the CPU run alone only while the CFU waits for a command |
| ClockControl.CpuStoppedIff | soc/clock_control.py:53-62 | the CPU's clock is off exactly when a command is outstanding, not done, and no new one is offered |
| ClockControl.CfuStoppedIff | soc/clock_control.py:36-63 | the CFU's clock is off exactly from the second on of the cycles in a row in which it waits and no command is offered, and in an idle first cycle |
| ClockControl.HandshakesAreClocked | soc/clock_control.py:36-63 | every transfer of a command or response happens with both clocks on, and the CFU is only ever stopped while it waits without a command |
| ClockControl.GatingTransparentIff | soc/hps_soc.py:118-149 | gated and ungated CFU go through the same states, and so give the same replies, over a whole run if and only if the instructions would not have changed in the cycles the controller switches off |
| ClockControl.ToggleShowsGating | python/amaranth_cfu/util.py:96-104 | an instruction whose register flips at every edge answers differently under gating: the condition is needed |
| ClockControl.TransparentInAllRunsIff | soc/clock_control.py:36-63 | in all runs a gated CFU has the registers of an ungated one if and only if, in every state they can be in while the controller lets the CPU run alone, the instructions ignore a clock edge without start, whatever their operands |
| GatingObserved.GatingUnseenIff | soc/clock_control.py:36-63 | in all runs a gated CFU gives the replies of an ungated one if and only if, in every such state, no future of the bus tells whether the CFU had one more idle clock edge |
| GatingObserved.GatedSkips | soc/hps_soc.py:118-149 | inserting an idle cycle where the controller keeps the CFU stopped shifts the rest of a gated run by one cycle and changes nothing else |
| GatingObserved.HiddenToggleUnseen | python/amaranth_cfu/util.py:96-104 | a register that flips at every edge but is never read changes no reply in any run, although gating changes its state: the two conditions differ |
| ClockControl.ContractMakesGatingTransparent | python/amaranth_cfu/cfu.py:24-45 | instructions that come to rest within one idle cycle of done, and stay there until the next start, never notice gating, in any run |
| Packing.PackVals | python/amaranth_cfu/util.py:53-62 | the loop over masked and shifted values computes the packed word |
| Packing.PackedSlice | python/amaranth_cfu/util.py:53-62 | bits i·b up to (i+1)·b of the packed word are value i plus offset, modulo 2^b, whatever the other values |
| Packing.PackThenSplit | python/amaranth_cfu/util.py:47-62 | splitting a packed word gives back every value plus offset, modulo 2^b, in order and in number |
| Packing.WordsCover | python/amaranth_cfu/util.py:47-50 | word i of a signal of any length is its bits from i·w on, w of them or as many as there are left |
| Packing.NoWordBeyond | python/amaranth_cfu/util.py:47-50 | no word starts behind the end of the signal |
| Packing.SignedFieldIff | python/amaranth_cfu/util.py:53-62 | the signed reading of a field is value plus offset if and only if that fits a signed field |
| SimdMac.SimdMac.Clock | proj/filter_preload/cfu.py.unused:29-48 | one clock edge of the accumulator and done registers |
| SimdMac.ProductFits | proj/filter_preload/cfu.py.unused:32-37 | no lane product is truncated by its signed 16-bit signal |
| SimdMac.LaneSumIsDot | proj/filter_preload/cfu.py.unused:34-46 | the four lanes of one packed command add four terms of filter × (input + 128) to the dot product |
| SimdMac.AccumulatesDotProduct | proj/filter_preload/cfu.py.unused:40-48 | a reset and n accumulates on packed bytes leave the dot product modulo 2^32, whatever the state before |
| SimdMac.ExactIff | proj/filter_preload/cfu.py.unused:26-48 | the signed result is the true dot product for all inputs of n commands if and only if there are at most 65792 channels |
| MacCfu.MacGatingTransparent | proj/filter_preload/cfu.py.unused:97-100 | the CFU built from SimdMac runs alike with and without clock gating, in every run |
| MacCfu.DeliveredAnswer | python/amaranth_cfu/cfu.py:258-297 | every response delivered is the accumulator after all commands accepted so far, or the operand for other slots |
| MacCfu.CommandsAtDelivery | python/amaranth_cfu/cfu.py:258-297 | when response k is delivered exactly k+1 commands have been accepted |
| MacCfu.GatedCfuComputesDotProduct | proj/filter_preload/cfu.py.unused:26-48 | anywhere in a run, after whatever commands and whatever the timing of CPU and controller, the response to the last of one reset and n accumulates is the dot product modulo 2^32 of the channels sent, and is exact up to 65792 channels |
| Convolution.OffsetInside | proj/software_cnn/src/tensorflow/lite/kernels/internal/reference/integer_ops/conv.h:135-136 | coordinates inside a tensor give an offset inside its buffer, and the coordinates can be recovered from it |
| Convolution.OutsideContributesNothing | proj/software_cnn/src/tensorflow/lite/kernels/internal/reference/integer_ops/conv.h:221-229 | a filter tap off the image sums to nothing over the extended image, for any number of channels |
| Convolution.Accumulate16 | proj/software_cnn/src/tensorflow/lite/kernels/internal/reference/integer_ops/conv.h:210-249 | the loops that skip taps off the image accumulate, with wrap-around, the convolution over the image extended by 0 |
| Convolution.ReplayWritten | proj/software_cnn/src/tensorflow/lite/kernels/internal/reference/integer_ops/conv.h:258-260 | such a sequence of stores leaves every element in place and the rest of the buffer as before |
| Convolution.Accumulate8 | proj/software_cnn/src/tensorflow/lite/kernels/internal/reference/integer_ops/conv.h:73-124 | the loop unrolled by four accumulates, with wrap-around, the sum over the image extended by -128 |
| Convolution.ConvPerChannel16 | proj/software_cnn/src/tensorflow/lite/kernels/internal/reference/integer_ops/conv.h:160-265 | the buffer ends as the replay of one store for each offset, in order, of its clamped requantised element: every element written once, nothing beyond them; any stride, dilation, padding and groups |
| Convolution.ConvPerChannel8 | proj/software_cnn/src/tensorflow/lite/kernels/internal/reference/integer_ops/conv.h:29-141 | the same for the 8-bit kernel |
| Convolution.EveryElementWritten | proj/software_cnn/src/tensorflow/lite/kernels/internal/reference/integer_ops/conv.h:258-260 | after either kernel, every coordinate of the output tensor holds its element |
| ConvolutionLaws.OneHotSum | proj/software_cnn/src/tensorflow/lite/kernels/internal/reference/integer_ops/conv.h:68-124 | with one filter element at w and the others zero, an output's sum is w times the one input element, raised by the offset, that stride, padding, dilation and groups assign to it, or 0 if that lies off the image, stated in parameters and row-major places; the 8-bit kernel sums to 0 for any tap but the first |
| ConvolutionLaws.SumsAdd | proj/software_cnn/src/tensorflow/lite/kernels/internal/reference/integer_ops/conv.h:210-249 | sums add up with the filters, so that the one-element law decides all filters |
| ConvolutionLaws.StoredByte | proj/software_cnn/src/tensorflow/lite/kernels/internal/reference/integer_ops/conv.h:126-136 | the byte stored is the value of the activation range nearest to the requantised sum and bias plus the output offset, each cut to 32 bits |
| ConvolutionLaws.StoredHalfWord | proj/software_cnn/src/tensorflow/lite/kernels/internal/reference/integer_ops/conv.h:250-260 | the half word stored is the value of the range nearest to the requantised sum and bias, cut to the accumulator's width |
| ConvolutionLaws.StoredPlace | proj/software_cnn/src/tensorflow/lite/kernels/internal/reference/integer_ops/conv.h:135-136 | the element of output (b, y, x, o) ends at its row-major place |
| Convolution.PointwiseIsConvolution | proj/software_cnn/src/tensorflow/lite/kernels/internal/reference/integer_ops/conv.h:74-124 | for a 1x1 filter the 8-bit kernel's sum is the whole convolution |
| Convolution.OtherTapsIgnored | proj/software_cnn/src/tensorflow/lite/kernels/internal/reference/integer_ops/conv.h:74-76 | for a larger filter the 8-bit kernel's sum depends on the first tap alone |
| Convolution.InstructionRefinesKernel | proj/filter_preload/cfu.py.unused:26-48 | the instruction, fed a pixel and a filter row four channels at a time, ends with the word the 8-bit kernel accumulates |
| Convolution.Kernel8Exact | proj/software_cnn/src/tensorflow/lite/kernels/internal/reference/integer_ops/conv.h:89-122 | no partial sum of the 8-bit kernel wraps for up to 65792 channels |
| ConvolutionRange.Kernel8ExactIff | proj/software_cnn/src/tensorflow/lite/kernels/internal/reference/integer_ops/conv.h:89-122 | at a pixel of the image no partial sum wraps, for all inputs and filters, if and only if there are at most 65792 channels |
| ConvolutionRange.FlatWindow | proj/software_cnn/src/tensorflow/lite/kernels/internal/reference/integer_ops/conv.h:212-249 | on tensors of one value each, the convolution is one product times the number of terms in the image |
| ConvolutionRange.Kernel16Exact | proj/software_cnn/src/tensorflow/lite/kernels/internal/reference/integer_ops/conv.h:240-246 | the 16-bit kernel's sum at an output element wraps for no input and filter if and only if fewer than 2^9 terms of its window lie in the image, for a 32-bit accumulator, or 2^41 for one of 64 bits |
| ConvolutionRange.Kernel16ExactInside | proj/software_cnn/src/tensorflow/lite/kernels/internal/reference/integer_ops/conv.h:240-246 | away from the border that is a bound on taps × channels of the filter |
| ConvolutionRange.OneTapSufficesIff | proj/software_cnn/src/tensorflow/lite/kernels/internal/reference/integer_ops/conv.h:74-87 | the 8-bit kernel sums the whole convolution at an output element, for all inputs and filters, if and only if every tap but the first lies off the image |
| MemoryReader.SequentialMemoryReader.Cycle | python/amaranth_cfu/util.py:279-305 | one cycle of the reader: address and data lines, and its four registers |
| MemoryReader.DualPortMemory.Cycle | python/amaranth_cfu/util.py:212-223 | a read answers one cycle later with the old value of a word written in the same cycle |
| MemoryReader.ShowsStep | python/amaranth_cfu/util.py:286-305 | a next pulse moves the reader on by exactly one item, and without one the item shown stays |
| MemoryReader.ReadsCyclically | python/amaranth_cfu/util.py:239-305 | from a restart to the next, for any spacing of pulses, the word shown is word k mod limit after k pulses, with the value the memory held when it was asked for |
| MemoryReader.FixedMemoryReadsCyclically | python/amaranth_cfu/util.py:239-305 | over a memory nobody writes, the reader is a cyclic list of its first limit words |
| Lram.NxLram.Cycle | soc/hps_lattice_nx.py:126-201 | one bus cycle: the addressed bank alone is read and byte-merged, the acknowledge toggles |
| Lram.Decode | soc/hps_lattice_nx.py:98-112 | bank and row of an address are a position in the flat array, in the striped and in the block layout |
| Lram.SameCell | soc/hps_lattice_nx.py:98-112 | two flat addresses never share a cell |
| Lram.CycleRefinesFlat | soc/hps_lattice_nx.py:135-201 | every cycle has the effect of at most one byte-enabled write on the flat array |
| Lram.HeldFlat | soc/hps_lattice_nx.py:126-201 | a request held for any number of cycles with any clock enables writes the flat array once, or not at all if no edge came |
| Lram.HeldRead | soc/hps_lattice_nx.py:126-201 | a held read shows the flat word from the first clock edge on, and what the bank showed before until then |
| Lram.AcknowledgedOnce | soc/hps_soc.py:153-158 | a bus master that shares the banks' clock enable takes exactly one acknowledgement of an access, in its last cycle, although the acknowledge register runs on |
| Lram.OpRefinesFlat | soc/hps_lattice_nx.py:126-201 | under any clock enables an access writes the flat array once although it is strobed in several cycles, and reads the flat word if the banks are clocked before the acknowledgement is taken |
| Lram.RunWritesFlat | soc/hps_lattice_nx.py:126-201 | over any sequence of accesses and idle cycles, under any clock gating, the banks hold what one flat array would |
| Lram.ReadAfterRun | soc/hps_lattice_nx.py:126-201 | a read whose banks are clocked before its acknowledgement is taken returns the flat array's word, whatever accesses came before, spoilt reads among them |
| Lram.RunRefinesFlat | soc/hps_lattice_nx.py:126-201 | if each read's banks are clocked before its acknowledgement is taken, all reads of such a sequence return what one flat array returns |
| Lram.UngatedFetches | soc/hps_soc.py:160-165 | with the clocks always on that is so for every access, and each takes two cycles |
| Lram.ReadNeedsClockIff | soc/hps_soc.py:153-158 | a gated read returns the flat word whatever the RAM held before if and only if the clock was on in a cycle before the one in which its acknowledgement was taken |
| GatedMemory.GatedReadIff | soc/hps_soc.py:118-158 | with the enables the controller gives in a run, a read returns the flat word whatever the RAM held before if and only if the CPU did not wait for the CFU in all cycles from the request to the one before the acknowledgement is taken |
| GatedMemory.StaleWhenOdd | soc/hps_soc.py:118-158 | a CPU that waits from the request on takes the acknowledgement in its first clocked cycle if and only if it waited an odd number of cycles |
| GatedMemory.CommandStops | soc/clock_control.py:36-63 | after a command to an instruction that takes two cycles, the CPU's clock is off for one cycle |
| GatedMemory.StaleRead | soc/hps_soc.py:118-158 | in a concrete run, from any state of any RAM, write, read, write, read of one address with the controller's enables returns the first word twice, where a flat array returns both |
| Lram.SecondPort | soc/sim.py:135-149 | row r of bank b behind the second ports is flat word depth·r + b, as the simulator's ports address it |
| LramBytes.RunBytes | soc/hps_lattice_nx.py:155-193 | after any run of accesses under any clock gating, each byte of the RAM is that byte of the data last written to its word with its select line on, or as before |
| LramBytes.ReadBytes | soc/hps_lattice_nx.py:137-150 | a read that fetches its word returns these four bytes |
| LramBytes.UnmappedReads | soc/hps_lattice_nx.py:135-143 | addresses left over behind the last bank read as zero |
| InitValues.InitvalParameters | soc/hps_lattice_nx.py:53-76 | the loop produces the 128 parameters, each with its name and string |
| InitValues.HexRoundTrip | soc/hps_lattice_nx.py:70 | reading back the hexadecimal digits of a word gives the word |
| InitValues.DigitsArePacked | soc/hps_lattice_nx.py:69-71 | a joined string, read as one number, is its words packed in 40-bit fields, first word lowest |
| InitValues.LoadedContents | soc/hps_lattice_nx.py:53-76 | word j of parameter i, at bit 40·j, is contents[128·i + j], with 8 zero bits above it, for all words |
| InitValues.NamesDistinct | soc/hps_lattice_nx.py:66-67 | the parameters have pairwise different names |
| InitValues.NameReadsBack | soc/hps_lattice_nx.py:66-71 | a name is INITVAL_ and two digits that read back as the parameter's number, a string is 0x and 1280 digits |
| InitValues.LoadedByName | soc/hps_lattice_nx.py:66-71 | the parameter whose name reads back as i holds words 128·i to 128·i + 127, each in its 40 bits |
| TreeSum.TreeIsSum | python/amaranth_cfu/util.py:34-44 | the tree adds the values from left to right, each once |
| TreeSum.TreeDepth | python/amaranth_cfu/util.py:41-44 | its depth in additions is the ceiling of the base-two logarithm of the length |
| TreeSum.TreeIsShallowest | python/amaranth_cfu/util.py:34-39 | no tree of additions over the same values is shallower |
| CycleCounter.GetMcycle64 | common/src/perf.h:65-79 | the retry loop ends and returns the value the counter had at the low read of its first untorn attempt |
| CycleCounter.HighRises | common/src/perf.h:70-74 | each torn attempt raises the high half by at least one |
| CycleCounter.RetriesIff | common/src/perf.h:57-79 | for attempts of at most c cycles, k retries always suffice if and only if (k + 1)·c ≤ k·2^32, or k + 1 reaches 2^32 |
| CycleCounter.OneRetryIff | common/src/perf.h:57-79 | attempts of at most c cycles are never torn twice running if and only if 2c ≤ 2^32 |
| CycleCounter.UnluckyTears | common/src/perf.h:74-75 | for slower loops a concrete counter tears the first k + 1 attempts |
| Framebuffer.RiseIs | common/src/fb_util.c:259-282 | the row of a column is the one whose error is more than minus, and at most plus, half a pixel |
| Framebuffer.DecisionStep | common/src/fb_util.c:264-281 | the sign of the decision variable says whether the next column's nearest row is higher, and its update keeps it so |
| Framebuffer.DecisionRange | common/src/fb_util.c:207-209 | the decision variable never overflows 32 bits, for steep lines too |
| Framebuffer.LineSymmetric | common/src/fb_util.c:242-257 | swapping the end points leaves the same set of pixels |
| Framebuffer.OnePixelPerColumn | common/src/fb_util.c:268-282 | every column has one pixel, which up to 45 degrees is within half a pixel of the ideal line, rising or falling |
| Framebuffer.TieStaysInRow | common/src/fb_util.c:275-281 | half way between two rows the pixel is in the row the line comes from, rising or falling |
| Framebuffer.OnePixelPerRow | common/src/fb_util.c:225-232 | a vertical line has one pixel in each row between its end points and no others |
| Framebuffer.SteepIsDiagonal | common/src/fb_util.c:264-281 | a line steeper than 45 degrees is drawn at 45 degrees from its left end point |
| Framebuffer.EndpointsDrawnIff | common/src/fb_util.c:197-286 | both end points are drawn if and only if the line is vertical or at most 45 degrees steep |
| Framebuffer.LineConnected | common/src/fb_util.c:275-280 | pixels of neighbouring columns are at most one row apart |
| Framebuffer.LineOnScreen | common/src/fb_util.c:268-282 | between points of the screen no pixel off the screen is written, however steep the line |
| Framebuffer.Frame.DrawLine | common/src/fb_util.c:197-286 | in all four branches exactly the pixels of the line take the color and no other changes |
| Framebuffer.Frame.DrawColumns | common/src/fb_util.c:259-282 | the incremental loop paints what the closed form of the line says |
| Framebuffer.Frame.NextColumn | common/src/fb_util.c:275-281 | one step of the loop takes row and decision variable from column x to those of column x+1, without overflow |
| Framebuffer.FillsExactlyIff | common/src/fb_util.c:140-153 | for all unsigned arguments, the call stays inside line buffer and framebuffer and stores to exactly the rectangle's pixels on the screen if and only if the clipped width fits the line buffer and either nothing is left to store, or the corner is on the screen or its far edges and the sums do not wrap |
| Framebuffer.Frame.FillRect | common/src/fb_util.c:130-156 | for all such arguments exactly the part of the rectangle on the screen takes the color, with every access inside the line buffer and the framebuffer |
| DivTrap.Core.Trap | common/src/crt0-vexriscv.S:39-110 | save, handler, clobbered registers and restore, in place, have the effect of one function of the machine, whatever the handler's C code left in the registers |
| DivTrap.Core.DivInstructionHandler | common/src/instruction_handler.cc:35-56 | the frame's word of the destination is replaced by the result, other words stay |
| DivTrap.Core.InstructionHandler | common/src/instruction_handler.cc:60-72 | dispatch on the opcode, and the return address moved on for handled instructions alone |
| DivTrap.ComputedIsIsa | common/src/instruction_handler.cc:40-52 | the computed word is the ISA's result, including division by zero and signed overflow |
| DivTrap.IsaResultUnique | common/src/instruction_handler.cc:40-52 | the ISA's result is determined, so that statement leaves the handler no freedom |
| DivTrap.TrapEffect | common/src/crt0-vexriscv.S:39-110 | all registers but the destination, and memory from the stack pointer up, survive the trap |
| DivTrap.TrapExecutes | common/src/instruction_handler.cc:32-72 | the trap acts as the division instruction for operands and destinations in the frame and, for remainders, a divisor other than zero |
| DivTrap.EncodedDivision | common/src/instruction_handler.cc:30-72 | a division encoded from its register numbers and funct3, all three registers in the frame, leaves the ISA's result of the two named registers in the third, and keeps all others, the memory outside the frame and the control registers but for the return address |
| DivTrap.OneDivision | common/src/instruction_handler.cc:35-43 | div x5, x6, x7 on 100 and 7 leaves 14 |
| DivTrap.SelfRemainderExecutes | common/src/instruction_handler.cc:47-52 | the remainder of x2 by itself is executed although x2 is not in the frame, if libgcc's remainder of zero by zero is zero |
| DivTrap.UnframedFails | common/src/crt0-vexriscv.S:43-44 | whatever libgcc is linked, every other division that names x0 or x2, but for a remainder by x0, has a machine state in which the trap gets it wrong |
| DivTrap.TrapExecutesIff | common/src/instruction_handler.cc:32-72 | whatever libgcc is linked, the trap executes an instruction in all machine states with a nonzero divisor for the remainders if and only if its register fields avoid x0 and x2, it is the one exception above, or it is a remainder by x0, which has no such state |
| DivTrap.RemainderByZeroIff | common/src/instruction_handler.cc:47-52 | a remainder by zero is executed if and only if libgcc returns the dividend |
| DivTrap.Funct7Ignored | common/src/instruction_handler.cc:35-39 | instructions that differ in funct7 alone are handled alike, so any other instruction with those fields is executed as a division |
| DivTrap.OthersIgnored | common/src/instruction_handler.cc:53-71 | all other instructions leave the registers unchanged, and are skipped exactly when their opcode is 0x33 |

## Left out

- The `reset` input of the CFU and of the controller during a run: every run starts in reset.
- The RAM ports of the CFU (`lram_addr`, `lram_data`): wires only.
- ClockControl.ContractMakesGatingTransparent: a contract stated without reference to runs, and so sufficient only; the exact conditions are in ClockControl.TransparentInAllRunsIff and GatingObserved.GatingUnseenIff.
- `proj/filter_preload/cfu.sv` and the 8-bit kernels of `proj/filter_preload` and `proj/proj_template`: hardware with side effects of its own.
- Convolution.ConvPerChannel8: filter depth equal to input depth and a multiple of four; other depths pass the source's checks but make the loop read past a pixel or a filter row. Tensor elements are integers of any size, and bytes only where exactness needs it.
- Convolution.ConvPerChannel16: output depth divisible by the number of groups; with fewer output channels than groups the source divides by zero, and otherwise its last filters would name a group past the input's channels.
- ConvolutionRange.Kernel16Exact: about the sum before the bias, which may be any accumulator value; wrap-around is modelled in both additions.
- Signed overflow in C, which the standard leaves undefined, is modelled as the wrap-around that the compiler's target performs; index arithmetic of the kernels is unbounded.
- `MultiplyByQuantizedMultiplier`: any function of accumulator, multiplier and shift.
- MemoryReader.ReadsCyclically: the limit is fixed and at least 1.
- The primitives SP512K, DPSC512K and DCC: synchronous RAM with byte enables whose output register keeps its value without a clock edge, and steps that are skipped. Which bus accesses the CPU has under way while it waits for the CFU is not part of this model.
- `NXLRAM` and `initval_parameters` with width 64, and `add_init` for more than one bank: the mask and the slice size there do not fit the layout stated for width 32.
- Packing.PackThenSplit: words of at least one bit, since `all_words` cannot step by zero.
- `tree_sum` of an empty list, which does not terminate in the source.
- Framebuffer.Frame.DrawLine: both sides of the screen below 2^15; end points on the screen. The unused `width` parameter is dropped.
- Framebuffer.Frame.FillRect: arguments that are not fillable, for which the source stores out of bounds or to the wrong pixels (Framebuffer.FillsExactlyIff); the address arithmetic of the framebuffer pointer is unbounded.
- `fb_draw_rect`, `fb_draw_string` and `fb_draw_buffer`: clipping there does not follow a contract that could be stated cleanly.
- The non-division branch of `trap_handler` (interrupts) and the smaller frame used without division emulation.
- DivTrap.TrapExecutes: memory below the stack pointer may change, as it does in the source; what libgcc returns for a remainder by zero is not part of this model. The called C code keeps x2 and the frame.
- CycleCounter.GetMcycle64: wrap-around of the 64-bit counter itself.
- MurmurHash.Murmurhash3: lengths below 2^32, and chunks loaded as little-endian words.
- Menus, UART, printing, SoC construction, the build system, and Amaranth and Migen themselves.
