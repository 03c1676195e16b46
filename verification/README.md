# RealBoy, a Dafny model

RealBoy is a Game Boy emulator written in C. This project models the four machines at its heart
and proves what each of them promises:

- **the sprite index and the renderer** of the PPU: a flat table of 17 rows of 40 pointers, kept
  up to date in place by OAM writes, the lookup of the sprites at a pixel, the priority loop, and
  the scanline renderer with its shifts and masks;
- **the PPU's timing machine**: four modes, a signed dot counter that carries overshoot from phase
  to phase, and the events of a frame;
- **the CPU's step machine**: arithmetic and flags, timers, HALT, interrupts, the stack, and the
  address map with OAM DMA;
- **the debugger's stop/resume handshake** between the emulation thread and the server thread.

Code that updates global structs and arrays in place is a class with those fields and arrays:
`SpriteTable.Sprites`, `CpuCore.Cpu`, `PpuCore.Ppu`, `Cartridge.Mbc1` and `MachineCore.Machine`.
Each method is proved against a function on values, and the promises over whole runs are lemmas
about those functions. The modules build on each other in this order:

| module | what it holds |
|---|---|
| `Bytes` | bytes, words and the bit idioms |
| `SpriteIndex`, `SpriteTable` | the index on values, and the flat table in place |
| `SpriteLookup`, `SpritePriority` | which sprites a pixel has, and which of them wins |
| `PixelPlane`, `PpuCore` | what a scanline shows, and the PPU that draws it |
| `LcdTiming` | the timing machine on values, conservation and the frame schedule |
| `Alu`, `Timers`, `CpuCore` | arithmetic, timers and the CPU's fields |
| `StackDiscipline`, `Interrupts`, `Halt` | stack nests, arbitration, waking from HALT |
| `Cartridge`, `MemoryMap` | the cartridge, and memory as one flat address space |
| `MachineState`, `MachineCore` | the whole machine on values, and in place |
| `Picture` | the layers of a line, from memory alone |
| `Handshake` | two threads under any schedule |

`dafny verify dfyconfig.toml` checks all of it.

## Where the code departs from what one would expect

The model follows the code. These departures are part of it, and each has its exact condition:

- Sprites start outside the index, so one that never leaves Y 0..15 is never filed
  (`src/emu/ppu.c:411-446`); `SpriteIndex.RunIndex` and `SpriteLookup.LookupIsNaiveScan` say when
  this matters, `SpriteLookup.LowSpriteMissed` gives a state.
- A transparent sprite can win a tie of X against an opaque one listed before it
  (`src/emu/ppu.c:219-236`); `PixelPlane.SpriteIsRule`, and `PixelPlane.TieLost` at a state.
- DAA subtracts decimal 60 where 0x60 is meant (`src/emu/cpu/cpu_ops.c:2603`); `Alu.SubBcdExact`.
- TIMA adds at most one per instruction (`src/emu/cpu/cpu.c:279-280`); `Timers.TicksExact`,
  `Timers.FastDividerLosesTicks`, `Timers.SmallerDividerLosesTicks`.
- A pixel is indeterminate when the background is off and nothing else draws
  (`src/emu/ppu.c:256`); `PixelPlane.UnsetExactly`, `PixelPlane.UnsetReached`.
- RESUME does not signal, and a STOP accepted before the emulation thread has entered its loop
  again can leave both threads waiting; `Handshake.StopAccepted`, `Handshake.SignalRace`,
  `Handshake.DeadlockReached`.
- A STOP that is accepted while the emulation thread stops for a breakpoint anyway leaves
  `server_stop_request` set, so that the next single step leaves its loop without stopping and runs
  on; `Handshake.SingleStep`, `Handshake.StaleRequestReached`.
- The comment at `src/emu/ppu.c:90-92` lets LY run to 152 in VBLANK; the code runs it to 153.
- A read of the DMA register gives the byte it has held since the start, since a write does not
  store it (`src/emu/ppu.c:384-390`), and there is no echo of work RAM (`src/monitor.c:83-130`).

## Model

| member | source | states |
|---|---|---|
| SpriteIndex.RunIndex | src/emu/ppu.c:411-446 | after any sequence of OAM stores from the empty index, the table is consistent (rows distinct, every entry a sprite of that bucket) and membership is known exactly: row b lists the sprites of bucket b, row 0 only those that some store had put at Y >= 16 |
| SpriteIndex.WriteKeepsConsistent | src/emu/ppu.c:442-446 | one OAM store of any byte at any offset keeps the index consistent |
| SpriteIndex.RowsShareCapacity | src/emu/ppu.c:153 | two rows together never hold more than 40 entries, so a full row leaves every other row empty; row 16 is always empty |
| SpriteIndex.ScanStops | src/emu/ppu.c:411-427 | a scan from the start of any row to the first NULL sees exactly that row and stays inside the flat 17 x 40 table, even when the row fills its 40 cells |
| SpriteTable.Sprites.Unfile | src/emu/ppu.c:411-421 | the in-place delete-and-shift loop removes one entry by shifting the rest of the row down and touches no other cell; an absent sprite changes nothing |
| SpriteTable.Sprites.File | src/emu/ppu.c:423-426 | the append loop overwrites exactly the first NULL after the row |
| SpriteTable.Sprites.Rehash | src/emu/ppu.c:411-427 | refiling in the flat table is the removal of the sprite from one list and its append to another, and the table goes on representing the lists |
| SpriteTable.Sprites.WriteOam | src/emu/ppu.c:442-446 | the store updates OAM and the flat table to the next state of the index on values and keeps both consistent |
| SpriteTable.RoomToAppend | src/emu/ppu.c:423-426 | the row a sprite moves to has a free cell of its own, so the append never spills into the next row |
| SpriteLookup.UnsignedBoxTest | src/emu/ppu.c:185-201 | the wrap-around unsigned comparisons decide exactly whether the sprite covers the pixel, for heights up to 16 |
| SpriteLookup.WindowIsWideEnough | src/emu/ppu.c:185-201 | a covering sprite of height 8 or 16 is in the bucket of y / 16 or the next one |
| SpriteLookup.LookupMeaning | src/emu/ppu.c:185-201 | the lookup returns distinct, indexed, covering sprites, exactly the smaller of ten and their number |
| SpriteLookup.LookupIsNaiveScan | src/emu/ppu.c:185-201 | when at most ten sprites cover the pixel, the lookup equals a scan of all 40 sprites if and only if every covering sprite with Y in 1..15 has been indexed |
| SpriteLookup.LeftOutLater | src/emu/ppu.c:185-201 | when more sprites cover the pixel than are returned, those left out are not in an earlier bucket of Y |
| SpriteLookup.LowSpriteMissed | src/emu/ppu.c:411-446 | OAM stores after which a covering sprite is not found, since it has never left Y 0..15 |
| SpriteTable.Sprites.GetObjsAtXy | src/emu/ppu.c:185-201 | the two nested loops over the flat table return the first ten hits of the window, in bounds |
| SpriteTable.Sprites.ScanRow | src/emu/ppu.c:188-198 | the inner loop appends the covering entries of one row, in row order, until ten are found |
| SpritePriority.PriorityExact | src/emu/ppu.c:203-242 | for lists of any length and order, the loop returns the opaque sprite of least (X, OAM place) if and only if no later transparent sprite of the same X and earlier OAM place displaces it |
| SpritePriority.PriorityMet | src/emu/ppu.c:203-242 | in OAM order, or with distinct X in any order, the loop always returns that sprite |
| SpritePriority.AllTransparent | src/emu/ppu.c:203-242 | with no opaque sprite the result is colour 0 |
| SpritePriority.OrderIrrelevant | src/emu/ppu.c:203-242 | with distinct X the result does not depend on the order of the list |
| SpritePriority.FoldIsLeastX | src/emu/ppu.c:203-242 | with distinct X the result is the opaque candidate of least X, or transparent only if all are |
| SpritePriority.RuleBroken | src/emu/ppu.c:219-236 | two candidates for which the fold departs from the rule: a transparent one wins a tie |
| PpuCore.Ppu.ComesFirst | src/emu/ppu.c:222-228 | the walk over OAM finds which of two sprites comes first |
| PpuCore.Ppu.Compete | src/emu/ppu.c:213-238 | one turn of the loop is one turn of the fold |
| PpuCore.Ppu.PixelPriority | src/emu/ppu.c:203-242 | the loop returns sprite and colour of the fold over all candidates |
| PpuCore.MaskedBits | src/emu/ppu.c:210-212 | the shifted 16-bit masks test exactly the column of the two bit planes |
| PpuCore.WrappedRow | src/emu/ppu.c:244-282 | the masked map offset and tile row are those of the plane of 256 lines |
| PpuCore.WrappedColumn | src/emu/ppu.c:244-284 | the column inside a tile is that of the wrapped plane of 256 columns |
| PpuCore.ObjectOffsets | src/emu/ppu.c:174-183 | the byte arithmetic on a covering sprite gives its row and column, without overflow |
| PpuCore.Ppu.TileIndex | src/emu/ppu.c:160-172 | the colour index of a background or window tile at its row and column, read in bounds in both addressing modes |
| PpuCore.Ppu.ObjectLine | src/emu/ppu.c:174-183 | the tile row of a sprite, with vertical flip and both heights, is read in bounds |
| PpuCore.Ppu.ObjectIndex | src/emu/ppu.c:203-212 | the masks give the colour index of the sprite at its own row and column, with both flips |
| PpuCore.Ppu.BgIndex | src/emu/ppu.c:274-284 | the background index is the sample of the wrapped 256 x 256 plane at (x + SCX, LY + SCY) |
| PpuCore.Ppu.WindowIndex | src/emu/ppu.c:291-309 | the window index is the sample of its plane at (x + 7 - WX, LY - WY) |
| PpuCore.Ppu.MixLayers | src/emu/ppu.c:274-316 | sprite in front, else window, else background, else the sprite behind them |
| PpuCore.Ppu.FinalPixel | src/emu/ppu.c:244-316 | one turn of the inner loop computes the pixel the specification calls for |
| PpuCore.Ppu.RenderLine | src/emu/ppu.c:244-319 | the frame afterwards is the frame before with row LY replaced by the 160 pixels of the specification |
| PixelPlane.UnsetExactly | src/emu/ppu.c:256-316 | a pixel is indeterminate if and only if the background is off and neither window nor sprite draws |
| PixelPlane.WinnerShown | src/emu/ppu.c:185-242 | for the list the lookup returns, whatever its order: the opaque sprite of least (X, OAM place) is shown if and only if no transparent one of the same X and an earlier place is listed after it |
| PixelPlane.SpriteIsRule | src/emu/ppu.c:185-242 | index, lookup, fold and tile arithmetic together against a plain scan of OAM: with at most ten covering sprites, all found, the sprite the priority rule chooses among them is shown if and only if none displaces it |
| PixelPlane.NoneShown | src/emu/ppu.c:185-242 | with all covering sprites transparent, none is shown |
| PixelPlane.SpriteIsBest | src/emu/ppu.c:185-242 | when moreover no two covering sprites share their X, the sprite shown is always the one a plain scan would choose |
| PixelPlane.TieLost | src/emu/ppu.c:219-236 | OAM stores and tiles at which a transparent sprite displaces the one the rule chooses, so that nothing is shown |
| PixelPlane.UnsetReached | src/emu/ppu.c:256-316 | a state at which every pixel of the line is indeterminate |
| PixelPlane.BgFromBytes | src/emu/ppu.c:160-172 | the background from the raw bytes: which map cell and which two bytes of tile data, in both addressing modes, and when it shows |
| PixelPlane.WindowFromBytes | src/emu/ppu.c:291-309 | the window likewise, and exactly where it covers |
| PixelPlane.SpriteFromBytes | src/emu/ppu.c:174-212 | a sprite likewise, with its height and both flips |
| PixelPlane.PlanesBits | src/emu/ppu.c:210-212 | the colour index from the two bytes of a tile row, bit by bit |
| PixelPlane.ShadesFromBits | src/emu/ppu.c:158-158 | the colour of an index, from two bits of the palette register |
| PixelPlane.PixelFromLayers | src/emu/ppu.c:256-316 | which of sprite, window and background a pixel shows, from the priority and palette bits of the sprite |
| Picture.BgFromMemory | src/emu/ppu.c:244-284 | the background of any column from the cells of the address space: scroll registers, map, tile data and palette at their addresses |
| Picture.WindowFromMemory | src/emu/ppu.c:291-309 | the window likewise |
| Picture.SpriteFromMemory | src/emu/ppu.c:174-212 | a sprite likewise, from its four bytes at 0xfe00 and up |
| PpuCore.PixelInFrame | src/emu/ppu.c:316-319 | drawing a line changes the 160 pixels of that line of the frame and no other |
| MachineState.DrawnLine | src/emu/ppu.c:114-151 | through a refresh of the whole machine the frame changes in exactly the line whose drawing is logged, and there shows the pixels called for |
| LcdTiming.DotsStayInRange | src/emu/ppu.c:508-532 | between refreshes the dot counter is positive and far from the bounds of int16_t |
| LcdTiming.RefreshTimed | src/emu/ppu.c:508-532 | a refresh keeps the timing invariant, lowers the dots to VBLANK by exactly 4 * ticks, and a VBLANK entry, which happens exactly when they run out, adds 70080 |
| LcdTiming.RefreshVBlank | src/emu/ppu.c:520-531 | VBLANK is left by the test of LY = 153 only, never because its dots run out |
| LcdTiming.RefreshHBlank | src/emu/ppu.c:114-139 | the end of HBLANK starts the next line or VBLANK, carrying the overshoot |
| LcdTiming.VblankSetsIf | src/emu/ppu.c:121-130 | a VBLANK entry requests the VBLANK interrupt |
| LcdTiming.RequestsExactly | src/emu/ppu.c:97-136 | through every refresh bit 1 of IF is set if and only if LY comes to be LYC, VBLANK is entered or a line begins, each enabled in STAT, bit 0 if and only if VBLANK is entered, and no other bit changes |
| LcdTiming.VblankLines | src/emu/ppu.c:526-531 | the lines of VBLANK last 456 dots each, counted from its entry |
| LcdTiming.NoCycles | src/emu/ppu.c:513-518 | a refresh with no cycles ends the mode at once, or lets 12 dots of VBLANK pass |
| LcdTiming.RunConserves | src/emu/ppu.c:508-532 | over any run with the LCD on, dots are conserved: the measure falls by the dots that passed and rises by 70080 for each VBLANK entry |
| LcdTiming.NoDrift | src/emu/ppu.c:508-532 | from one VBLANK entry to the n-th after it 70080 * n dots pass, give or take 23, for every n |
| LcdTiming.FramesFollowSchedule | src/emu/ppu.c:114-151 | from any moment the LCD is turned on, whatever was logged before, the log only grows, what is added is the frame schedule in its order, and frame_count advances by the number of whole frames added |
| LcdTiming.RunOnSchedule | src/emu/ppu.c:321-344 | every run stays on the schedule, begun at any position of the log, from any state on it, and frame_count goes up with the whole frames logged since |
| LcdTiming.RunLogs | src/emu/ppu.c:114-151 | a run only adds to the log, and adds exactly one VBLANK request for each VBLANK entered |
| LcdTiming.OneFrame | src/emu/ppu.c:321-344 | one frame of the schedule: lines 0 to 143 in order, each LY from 0 to 153 set once, one VBLANK request, one frame drawn, one end of frame |
| LcdTiming.LcdcScheduled | src/emu/ppu.c:356-365 | a write of LCDC, one that turns the LCD on or off included, leaves the log made of stretches of the schedule, each from its beginning |
| LcdTiming.StatFollowsMode | src/emu/ppu.c:97-151 | the mode bits of STAT follow the mode through every refresh, and the coincidence bit says LY = LYC whenever LY is set |
| PpuCore.Ppu.SetLy | src/emu/ppu.c:97-112 | the in-place update of LY, STAT and IF is that of the timing machine on values |
| PpuCore.Ppu.HblankEndCycle | src/emu/ppu.c:114-139 | the fields after the end of HBLANK are those of the timing machine |
| PpuCore.Ppu.VblankEndCycle | src/emu/ppu.c:141-151 | the fields after the end of VBLANK are those of the timing machine |
| PpuCore.Ppu.ChangePhase | src/emu/ppu.c:321-344 | the fields after a change of phase are those of the timing machine, and leaving the drawing phase draws the line LY names |
| PpuCore.Ppu.Refresh | src/emu/ppu.c:508-532 | one refresh of the fields is one refresh of the timing machine; the frame changes by exactly the line LY names, when the drawing phase ends |
| PpuCore.Ppu.WriteReg | src/emu/ppu.c:356-409 | the value stored in a register and what turning the LCD on or off resets |
| PpuCore.Ppu.WriteMemory | src/emu/ppu.c:429-450 | a store into video memory or OAM changes that cell only and keeps the sprite index |
| PpuCore.StoreIsInput | src/emu/ppu.c:356-409 | with the LCD kept on, every store except one to LY is an input the timing runs allow for |
| CpuCore.Cpu.Adc | src/emu/cpu/cpu_ops.c:756-764 | the flags computed from bit patterns are those of the sum and of the sum of the low nibbles |
| CpuCore.Cpu.Sbc | src/emu/cpu/cpu_ops.c:884-895 | the same for the difference with borrow |
| CpuCore.Cpu.Add | src/emu/cpu/cpu_ops.c:668-673 | the same without carry in; the carry read off the wrapped sum is the overflow |
| CpuCore.Cpu.Sub | src/emu/cpu/cpu_ops.c:831-838 | the same without borrow in |
| CpuCore.Cpu.Daa | src/emu/cpu/cpu_ops.c:2593-2636 | the decimal adjustment in place is the textbook correction after an addition, the code's own after a subtraction |
| Alu.HalfCarryOfSum | src/emu/cpu/cpu_ops.c:756-764 | the XOR test of bit 4 is the carry out of the low nibbles |
| Alu.HalfCarryOfDifference | src/emu/cpu/cpu_ops.c:884-895 | the XOR test of bit 4 is the borrow out of the low nibbles, and the high byte of the 16-bit difference is the borrow |
| Alu.AdcChainAdds | src/emu/cpu/cpu_ops.c:756-764 | ADC over numbers of any length gives their sum modulo 256^n, the carry flag being the digit that does not fit |
| Alu.SbcChainSubtracts | src/emu/cpu/cpu_ops.c:884-895 | SBC over numbers of any length gives their difference modulo 256^n, the carry flag being the borrow |
| Alu.SbcUndoesAdc | src/emu/cpu/cpu_ops.c:756-895 | subtracting what was added restores the number and the carry, for any length |
| Alu.AddBcdChainAdds | src/emu/cpu/cpu_ops.c:2593-2636 | ADC then DAA over packed-BCD numbers of any length gives the packed-BCD digits of the decimal sum modulo 100^n, the carry flag being the digit that does not fit |
| Alu.SubBcdExact | src/emu/cpu/cpu_ops.c:2598-2605 | SBC then DAA over packed-BCD numbers is the decimal subtraction if and only if no byte borrows |
| Alu.SubBcdFails | src/emu/cpu/cpu_ops.c:2598-2605 | a concrete decimal subtraction that goes wrong |
| Alu.FlagsRead | src/emu/cpu/cpu_ops.c:22-55 | the four flags are independent and the low nibble of F is kept |
| Alu.AdcFlags | src/emu/cpu/cpu_ops.c:756-764 | the four flags after ADC, each if and only if |
| Alu.SbcFlags | src/emu/cpu/cpu_ops.c:884-895 | the four flags after SBC, each if and only if |
| Alu.DaaFlags | src/emu/cpu/cpu_ops.c:2593-2636 | the four flags after DAA, each if and only if |
| CpuCore.Cpu.TickTimers | src/emu/cpu/cpu.c:272-290 | the timer fields and the request after an instruction are those of the timers on values |
| CpuCore.Cpu.Write | src/emu/cpu/cpu.c:195-247 | a write changes that cell only, as masked, and drives the timers |
| Timers.After | src/emu/cpu/cpu.c:223-240 | in every state that register writes and instructions lead to, an enabled timer has a divider other than 0 and DIV's prescaler stays within six bits |
| Timers.DivCountsCycles | src/emu/cpu/cpu.c:272-276 | 64 * DIV + prescaler counts every cycle of the run modulo 16384 |
| Timers.PhaseKept | src/emu/cpu/cpu.c:278-290 | the TIMA prescaler keeps the phase of all cycles, from every state, one at or above the divider included |
| Timers.TicksExact | src/emu/cpu/cpu.c:278-290 | from every state of the prescaler, TIMA ticks once per full divider period if and only if no instruction completes two periods |
| Timers.TicksClosedForm | src/emu/cpu/cpu.c:278-290 | with a divider of 16, 64 or 256 above the prescaler the count is (counter + cycles) / divider for every run |
| Timers.TicksFromAnyPhase | src/emu/cpu/cpu.c:278-290 | from any other state of the prescaler: at most one tick for the first instruction, then that count |
| Timers.FastDividerLosesTicks | src/emu/cpu/cpu.c:279-280 | with a divider of 4 one instruction can lose a tick |
| Timers.SmallerDividerLosesTicks | src/emu/cpu/cpu.c:223-240 | a TAC write to a smaller divider after which eleven periods go uncounted |
| Timers.LossesReached | src/emu/cpu/cpu.c:223-240 | both states that lose ticks are reached from power-on by a write of TAC and an instruction's cycles |
| Timers.RequestsClosedForm | src/emu/cpu/cpu.c:281-284 | interrupt requests and TIMA in closed form from the number of ticks, reload from TMA included |
| Timers.TacThenRun | src/emu/cpu/cpu.c:232-239 | after any write of TAC and any run: TIMA stands still with bit 2 clear, and with it set counts periods of 4 to the power of the clock bits |
| Timers.TacFromAnyPhase | src/emu/cpu/cpu.c:232-239 | the same from any state of the prescaler, with the longer periods |
| MachineState.TacProgram | src/emu/cpu/cpu.c:232-239 | the same of a store to 0xff07 and any program on the machine that leaves the timer registers alone |
| MachineState.DivProgram | src/emu/cpu/cpu.c:223-226 | a store to DIV, then any such program: DIV counts the cycles from 0 and the phase of the prescaler |
| StackDiscipline.RunRefines | src/emu/cpu/cpu_ops.c:2519-2712 | every run of pushes, calls, restarts, interrupts, pops, returns and other instructions on the stack in work RAM is a run of an abstract stack |
| StackDiscipline.BalancedRestores | src/emu/cpu/cpu_ops.c:2519-2712 | after a balanced nest of any depth SP and every byte of the live stack are as before |
| StackDiscipline.ReturnsToCaller | src/emu/cpu/cpu_ops.c:2554-2557 | a call, restart or interrupt around a balanced nest returns to the address it saved |
| StackDiscipline.PopRestoresRegister | src/emu/cpu/cpu_ops.c:2663-2690 | PUSH and POP around a balanced nest bring the register pair back, AF included |
| StackDiscipline.PushBytes | src/emu/cpu/cpu.h:48-50 | a push byte by byte: SP two lower, the low byte there, the high byte above, no other cell |
| StackDiscipline.PopBytes | src/emu/cpu/cpu_ops.c:2663-2685 | POP and RET byte by byte, the low nibble of F lost |
| StackDiscipline.PushedWord | src/emu/cpu/cpu_ops.c:2519-2712 | what PUSH, CALL, RST and an interrupt each push, and where they continue |
| MachineCore.Machine.Push | src/emu/cpu/cpu_ops.c:2687-2690 | PUSH is two stores wherever the stack lies, device registers included; in plain memory it is that of the stack model |
| MachineCore.Machine.Pop | src/emu/cpu/cpu_ops.c:2663-2685 | POP on the machine is that of the stack model, from anywhere in memory; the low nibble of F stays clear |
| MachineCore.Machine.Call | src/emu/cpu/cpu_ops.c:2519-2525 | CALL, the operand read first, likewise |
| MachineCore.Machine.Ret | src/emu/cpu/cpu_ops.c:2554-2557 | RET is that of the stack model, from anywhere in memory |
| MachineCore.Machine.Reti | src/emu/cpu/cpu_ops.c:2587-2591 | RETI is a return that enables interrupts |
| MachineCore.Machine.Restart | src/emu/cpu/cpu_ops.c:2708-2712 | RST likewise |
| MachineCore.Machine.WriteWord | src/emu/cpu/cpu.h:48-50 | WR_WORD is the store of the low byte, then of the high byte, wherever the two cells lie |
| MachineState.PlainPush | src/emu/cpu/cpu_ops.c:2687-2690 | a push into plain memory is the push of the stack model and tells neither timers nor PPU anything |
| Interrupts.ArbitrationMeaning | src/emu/cpu/cpu.c:73-91 | only with IME set is anything served, and then the lowest pending request, which alone is cleared; a CPU still halted or interruptible has nothing pending |
| Interrupts.ServedHasVector | src/emu/cpu/cpu.c:50-67 | with IF within 0x1f every served request has a vector, and IF stays within it |
| MachineCore.Machine.ProcessIntr | src/emu/cpu/cpu.c:41-71 | the entry to an interrupt pushes PC, wherever the stack lies, and jumps to the vector of its bit |
| MachineState.HandlingMeaning | src/emu/cpu/cpu.c:73-91 | wherever the stack lies, at most one interrupt is entered, the one arbitration names, and a machine that enters none is changed in nothing but that it may wake |
| MachineState.PlainInterrupt | src/emu/cpu/cpu.c:68-70 | with the stack in plain memory the entry is that of the stack model, and of IF in memory the served bit alone is cleared |
| MachineState.HandlingLeaves | src/emu/cpu/cpu.c:41-91 | with the stack in plain memory: of IF in memory exactly the served request is cleared, the CPU stays halted or interruptible exactly when IF & IE was 0 in memory, and an interrupt served finds IME set, clears it and continues at 0x40, 0x48, 0x50, 0x58 or 0x60 with the old PC on the stack |
| MachineState.TimerRequests | src/emu/cpu/cpu.c:278-285 | bit 2 of IF in memory is set if and only if TIMA, counting, goes past 0xff, and no other bit changes |
| MachineState.TimerServedAtOnce | src/emu/cpu/cpu.c:272-293 | an overflow of TIMA is served in the call in which it happens, when nothing of higher rank is pending |
| MachineCore.Machine.HandleIntrs | src/emu/cpu/cpu.c:73-91 | the loop over the mask does to the whole state what serving the lowest pending request does, wherever the stack lies; with it in plain memory IF, IE, IME, PC and the stack are as in HandlingLeaves |
| MachineCore.Machine.FinishExec | src/emu/cpu/cpu.c:272-295 | timers then interrupts, on the whole state |
| MachineCore.Machine.FinishStep | src/monitor.c:48-51 | the rest of exec_next on the whole state and the frame: timers, interrupts, PPU, and the line that is drawn |
| MachineCore.Machine.RefreshPpu | src/emu/ppu.c:508-532 | ppu_refresh on the whole state: memory changes in STAT, LY and IF, the frame by the line drawn |
| MachineCore.Machine.Fetch | src/emu/cpu/cpu.c:249-263 | the opcode is the byte at PC, or the one after a prefix, and nothing but PC changes |
| Halt.HaltWakes | src/emu/cpu/cpu.c:249-300 | with the LCD on and VBLANK enabled a halted CPU wakes within 5841 calls, from every state and whatever the timers do |
| Halt.HaltedStep | src/emu/cpu/cpu.c:268-270 | every call of a halted CPU wakes it or brings the VBLANK request twelve dots nearer |
| MachineCore.Machine.ExecHalt | src/emu/cpu/cpu_ops.c:2658-2661 | HALT halts the CPU and changes nothing else |
| MachineCore.Machine.RunWhileHalted | src/monitor.c:217-239 | on the machine itself the halt ends within 5841 calls, wherever the stack lies, and until then only the clock and its cells have gone on |
| MachineState.HaltedCall | src/emu/cpu/cpu.c:249-300 | one call of a halted CPU wakes it exactly when the clock on values does |
| MachineState.HaltedTurn | src/emu/cpu/cpu.c:268-270 | in a program too: a turn of a halted CPU takes three cycles, executes nothing and moves the clock on by one call |
| MachineState.ProgramRun | src/monitor.c:217-239 | the display under any program that leaves the LCD on and LY alone is a run of the timing machine over the cycles the program takes |
| MachineState.ProgramFollowsSchedule | src/monitor.c:217-239 | under any such program, with its interrupts and halts, from any state on the schedule since the LCD was last turned on, the machine stays on it, frame_count counts its whole frames, and the dots to VBLANK fall by four per cycle and rise by 70080 per VBLANK request logged |
| MachineState.SwitchedOn | src/emu/ppu.c:356-365 | every write of LCDC that turns the LCD on starts the schedule anew at the end of the log, whatever was logged before |
| MachineCore.Machine.Run | src/monitor.c:217-239 | the loop in place: the same of the machine itself, and the frame is the fold of the lines drawn over the frame before |
| MachineState.EverySession | src/monitor.c:217-239 | whatever program runs from power-on, turning the LCD on and off but not writing LY, the whole log is made of stretches of the frame schedule, each from its beginning, frame_count counts the frames that ended, and every line is drawn inside the frame |
| MachineState.StepsScheduled | src/monitor.c:217-239 | such programs keep that from any state that has it |
| MachineCore.PowerOn | src/emu/ppu.c:356-365 | a new machine, the write that turns its LCD on, and any program that leaves it on: the whole log is the schedule, the frame starts blank, and the first VBLANK is 65520 dots away |
| MachineCore.Play | src/monitor.c:217-239 | a new machine and any program that does not write LY: state, frame, stretches of the schedule and frame_count on the machine itself |
| MachineState.ProgramTicks | src/emu/cpu/cpu.c:272-290 | a program that leaves 0xff04-0xff07 alone, interrupts and halts included, runs the timers over the cycles of its turns |
| MachineState.ProgramDiv | src/emu/cpu/cpu.c:272-276 | under any such program 64 * DIV + prescaler of the machine counts its cycles modulo 16384 |
| MachineState.ProgramTima | src/emu/cpu/cpu.c:278-290 | under any such program, with a divider of 16, 64 or 256, TIMA and its interrupt requests are a closed form of the cycles |
| MemoryMap.LastWriteWins | src/monitor.c:83-176 | after any sequence of writes to plain memory a cell holds the last value written there, and no other cell changes |
| MachineState.StoreAllWrites | src/monitor.c:132-176 | stores in turn on the whole machine do to memory what the flat memory says |
| MachineState.AlwaysAgree | src/monitor.c:83-176 | after any program whatsoever from power-on the device registers and OAM in memory are those the timers, the PPU and the sprite index work with |
| MachineState.TurnedOff | src/emu/ppu.c:356-365 | with the LCD turned off memory shows mode 0 and line 0, and refreshes change nothing |
| MachineState.TurnedOn | src/emu/ppu.c:356-365 | with the LCD turned on memory shows line 0 and STAT as it was, and mode 2 begins |
| MemoryMap.OneCellWritten | src/monitor.c:132-176 | every write but those of the joypad, a bank, DMA and the boot register changes its own cell at most, masked as DIV, TAC and IF are |
| MemoryMap.JoypadRow | src/monitor.c:109-125 | what 0xff00 reads after any write: the select bits, and the nibble of keys they name |
| MemoryMap.BankShown | src/emu/mem/mbc1.c:35-44 | a bank write shows 16 KiB of the file: bank 1 for 0, else the low five bits, short files included |
| MemoryMap.BootHidden | src/emu/mem/mbc1.c:28-33 | a write to 0xff50 shows the first 0x256 bytes of the file |
| MemoryMap.DmaCopies | src/emu/ppu.c:384-390 | DMA makes OAM a copy of the page and leaves the rest alone; from OAM's own page it changes nothing |
| MachineCore.Machine.Write | src/monitor.c:132-176 | a write to any address does to memory, timers, timing machine and sprite index what the flat memory model says; it terminates, being entered again only once, by DMA |
| MachineCore.Machine.PpuWrite | src/emu/ppu.c:429-450 | the same for the PPU's part of the map |
| MachineCore.Machine.Dma | src/emu/ppu.c:384-390 | the 160 writes of a transfer copy the page as it was before, keep the sprite index and touch nothing else |
| MachineCore.Machine.ViewReads | src/monitor.c:83-130 | the flat view of memory is what monitor_rd_mem returns at every address |
| MachineCore.Machine.constructor | src/monitor.c:25-82 | the machine at power-on is the initial state on values: memory zero, no key pressed, index empty, LCD off, nothing logged |
| Cartridge.Mbc1.Write | src/emu/mem/mbc1.c:27-45 | what a write does to the ROM buffer and the RAM, short ROM files included |
| Handshake.ServedOnlyWhileParked | src/server.c:200-247 | in every interleaving without a spurious wakeup of the server, INSPECT and CONTROL_FLOW are served only while the emulation thread is outside exec_next and its tests, and the mutex is never held twice |
| Handshake.Reachable | src/monitor.c:217-239 | the invariant of locks, exclusion and wakeup holds in every reachable state |
| Handshake.SignalReachesStop | src/monitor.c:227-232 | a STOP accepted while the emulation thread is in its loop is already waiting when the signal is sent, and is released by it |
| Handshake.StopIsReleased | src/server.c:230-245 | once it waits, such a STOP is released by the ninth move of the emulation thread at the latest, in every schedule; the moves are counted from the wait, not from the acceptance |
| Handshake.StopAccepted | src/server.c:230-245 | what becomes of a STOP, for every point at which the emulation thread can be when it is accepted |
| Handshake.SignalRace | src/monitor.c:227-232 | a signal sent before the server waits is lost, and both threads then wait |
| Handshake.DeadlockReached | src/server.c:230-245 | a schedule from the start that ends in that state |
| Handshake.DeadlockIsForever | src/server.c:230-245 | that state is never left |
| Handshake.StopDuringExec | src/server.c:230-245 | a schedule in which the server waits for its STOP while an instruction runs |
| Handshake.HitStops | src/server.c:276-346 | a single step, a breakpoint under CONTINUE or UNTIL, and the until address: in every schedule without a spurious wakeup of the server, from the top of the loop with no stop request left over, by the eighth move of the emulation thread exec_next has run once, the thread is out of its loop with server_running off, and the flags behind it are down unless a STOP came first |
| Handshake.NoHitNoStop | src/server.c:276-330 | without such a hit stop_execution is not reached, a STOP on its way or not |
| Handshake.RunsOn | src/server.c:276-346 | with neither a hit nor a STOP the emulation runs on, pass after pass |
| Handshake.SingleStep | src/server.c:321-346 | with no further STOP, a step stops after one exec_next with NEXT down if and only if no stop request was left over |
| Handshake.StaleRequestReached | src/server.c:188-199 | a schedule from the start that comes to a single step with a stop request left over |
| Handshake.ControlFlowServed | src/server.c:61-93 | UNTIL, NEXT and CONTINUE raise their flag, let the emulation run and wake its thread |
| Handshake.OnlyStopWhileRunning | src/server.c:210-238 | which requests are served and which refused, running and stopped |
| Handshake.SpuriousWakeupBreaksExclusion | src/server.c:236-245 | one spurious wakeup of the server is enough to break the exclusion |

## Left out

- The opcode tables and the per-opcode register moves, rotates and bit operations: in a run an
  instruction is any stores in turn, any new registers and 1 to 6 cycles, and in the stack model
  any change of registers and memory that leaves the live stack alone.
- Wayland, evdev, pipewire, pixman and epoll, and the throttling of frames: drawing a pixel is an
  array store, drawing a frame an entry in the log of events.
- The libemu transport and its payloads: a request is a value, and replies are not modelled.
- DELETE and the lists behind it (`src/list.c`): breakpoints appear in the handshake only as a
  test that may or may not hit.
- Handshake as fields updated in place: the two threads are a step relation on values, since the
  point is their interleavings. Steps are sequentially consistent, a client is connected
  throughout, and the failure path of the lock in set_stop_request is not taken.
- General deadlock freedom of the handshake, which does not hold; what becomes of a STOP is
  characterised instead.
- Which key sets which bit of the joypad register: the released keys are two nibbles.
- The boot ROM file and the printing of the cartridge header: the ROM file is a sequence of bytes
  of any length, and the buffer starts zeroed.
- Wrap-around of the 64-bit frame counter and of the total of cycles.
- MachineState.EverySession: says nothing of programs that write LY or whose interrupts push onto it,
  which can take the display off the schedule.
- PpuCore.Ppu.RenderLine: requires LY of at most 144, which is what `src/render.c:44` asserts; the
  abort of a program that fails the assertion is not modelled. The same holds of ChangePhase,
  Refresh, FinishStep, Step and RunSteps.
