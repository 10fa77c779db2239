# godbg: the breakpoint engine, the frame-table machine and the line index

godbg is a source-level debugger for Go programs on Linux. This project models its three connected cores and proves
what a user relies on.

**The int3 breakpoint engine** (`Native`, `Ideal`, `Breakpoints`, `Executor`, `Stops`, `Disassemble`, `Backtrace`).
`Native` fixes an abstract instruction set and defines the *undebugged run*: `Run(w, k)` is the state after `k`
instructions of the pristine program. `Ideal` defines, on positions `k` of that run alone, what `c`, `s` and `n` should
do, and proves what those walks mean. `Breakpoints` and `Executor` hold the code as it is: classes whose methods poke
`0xCC` into text, rewind pc, lift and re-patch, filter and splice `bp.infos`, and leave re-enables deferred.

Three things are proved of every command and, in `Target.Session`, of every list of commands.

- *The effect* (`Effect`, from one snapshot to the next): what each command does to the list, the process and the terminal,
  with its answers when there is no process.
- *The patch invariant* (`Target.InPlace`): the text is pristine but for a trap at exactly the listed addresses, the
  addresses are distinct, each saved byte is the pristine byte, and each user breakpoint is where the line table puts its
  file and line. It needs no hypothesis on the program, the addresses or the stops: whatever happens, putting the saved
  bytes back gives the pristine text (`RestoredIsPristine`), and a place printed with a user breakpoint behind pc is the
  one `bl` lists for it (`StopShowsListedLine`).
- *Transparency* (`Target.On`): as long as the hypotheses below hold and only patchable addresses have been listed, the
  process is at some position `k` of the undebugged run, no earlier than before, with pc one further on when it has just
  trapped. Undo the trap and what is left is exactly state `k` (`FaithfulIsNative`); `c`, `s` and `n` do what the walks of
  `Ideal` say.

**The `.debug_frame` parser and the CFA machine** (`Words`, `Buffers`, `Leb128`, `FrameRecords`, `CallFrame`,
`FrameLookup`, `FrameLaws`). Byte buffers consumed in place, LEB128 loops on wrapping 64-bit words with the 32-bit byte count, record
parsing, the threading of the current CIE, the call frame interpreter and the frame search. They end in
`FrameBaseFromSection`: serialise any well-formed records as section 7.23 of DWARF version 3 lays them out, parse the
section, look up a pc, and the frame base is the one the unwind table of section 6.4.1 gives at that pc.

**The line index** (`LineIndex`). The nested-map index, its breakpoint lookup and its nearest-line lookup, whose map
iterations are left in an arbitrary order, against a linear scan of the raw rows. It meets the engine in
`StopShowsRequestedLine`: stopped at X+1 on the trap at X, `c` displays the line `b` was given.

## Hypotheses of transparency

The code forces these; each is a named predicate.

- `Local`: an instruction has 1 to 15 bytes, and its length, effect and decoding depend on those bytes alone; `n` decodes
  only where 100 bytes of text can be read, as the source does. Text is kept apart from data, so the program neither reads
  nor writes its own text.
- `Clean`: the undebugged run executes no int3 of its own.
- `Patchable`: no executed instruction starts one byte after a breakpoint or has it in its interior. The debugger infers
  "just trapped" from a breakpoint at `pc - 1`; `TrapInference` shows that this inference is right at every
  position if and only if no executed instruction starts one past a breakpoint, and `OneByteInstructionRepeats` gives
  a run that is corrupted otherwise.
- One thread; ptrace requests succeed while the process lives; the only stops are traps and the exit, which is terminal.
  A process that is gone and a debugger without a process are one state.
- `patience` bounds the machine steps of a command that may wait or loop for ever. It cuts nothing from the results: they
  hold for every value. `Blocked` means the command has not returned yet: deferred re-enables have not run, and only some
  of the listed breakpoints are in place.

## Where the code differs from what one would expect

The model follows the code. Where a property one would expect fails, a lemma gives an input and another says exactly
when it holds.

- A line with a row at address 0 (and no end of prologue) is reported as not found even if it has other rows
  (`ZeroAddressHidesLine`, exact in `BreakAtLeastNonzero`).
- FDE ranges are closed at the top, so the first pc of a function that directly follows another has two FDEs and the lookup
  fails (`AdjacentFunctionsClash`, exact in `SearchInside`); and a pc in no range is given a frame when exactly one range
  ends there (`PastEndGetsFrame`, exact in `SearchOutside` and `SearchPastEnd`).
- CIE pointers are only compared with 0xffffffff, never followed (`LinkingIgnoresPointers`, exact in
  `LinkingFollowsPointers`).
- A location that falls back after having advanced makes the early stop take another row than the table lookup, which
  may hold other rules (`WrappingLocationsDiffer`; exact for the row in `LeadingIsLast`; `EarlyStopIsLeading` says which
  row the early stop takes).
- When rows at the same address disagree, the displayed line depends on the map iteration order (`AnswerOfRow`, exact in
  `OrderIndependent`).
- `n` takes the first arrival at a return address for the return, so recursion can make it stop deeper than it started
  (`RecursionStopsDeeper`, exact in `StepOverStopsExactly`). Recursion inside a function that is stepped over does no harm
  (`NextStaysShallow`).
- After a plain instruction `n` compares the line of the address that follows in memory, not of pc, so a jump can make it
  stop on the line it started on (`JumpStopsOnStartingLine`, exact over unambiguous line tables in `StopLineExactly`).
- `s` leaves the breakpoints that trapped lifted until it returns, and `n` the one it starts on, so a loop can pass them
  again without a trap (`StepPassesLiftedBreakpoint`, `NextPassesLiftedBreakpoint`, exact in `StepPassesExactly` and
  `NextPassesStart`). No position of the run is skipped by this (`StepSkipsNothing`).
- `bt` goes on for ever on a frame pointer saved as itself (`SelfLinkedFrameNeverEnds`) or any longer cycle (exact in
  `WalkEndsExactly`).

Some choices of the code are simply modelled: `DW_CFA_restore` makes a register undefined, `DW_CFA_def_cfa_register` makes
the CFA rule undefined, the compact `DW_CFA_offset` is an error; a CIE cut short reads as end of file and silently ends the
section; `s`, documented as stepping one instruction, steps until the line of pc changes; and when the single step of `c`
over a breakpoint ends the program, the command reports a ptrace failure, not the exit.

## Model

| member | source | states |
|---|---|---|
| Native.PatchedStep | breakpoint.go:54-63 | Away from the armed addresses, patched text executes and decodes as pristine text does |
| Native.PatchedTrap | breakpoint.go:54-63 | At an armed address the processor only moves pc past the trap byte |
| Native.TrapInference | breakpoint.go:164-170 | Looking for a breakpoint at pc-1 tells a trapped process from an untrapped one at every position of the run if and only if no executed instruction starts one past a breakpoint |
| Native.OneByteInstructionRepeats | breakpoint.go:164-182 | A run where that fails: backing up executes an instruction twice and reaches no state of the undebugged run |
| Ideal.ContinueFindsFirst | prompt.go:215-245 | The walk of `c` ends at the first armed position at or after its start, or at the exit, with no armed position passed |
| Ideal.NoMissedBreakpoint | prompt.go:215-245 | Conversely the first armed position ahead is always where `c` stops |
| Ideal.StepVisitsInOrder | prompt.go:273-320 | `s` never goes back along the run and never re-arms a breakpoint in mid-command |
| Ideal.StepSkipsNothing | prompt.go:273-320 | Every position between the first and the last of `s` is one it stood on |
| Ideal.StepAccounts | prompt.go:291-302 | Single steps made = instructions of the program executed + traps taken, trap by trap; none is spent twice |
| Ideal.NextVisitsInOrder | prompt.go:364-450 | `n` never goes back along the run |
| Ideal.NextTrapsAtArmed | prompt.go:369-375 | `n` counts as trapped only at a breakpoint still in place |
| Ideal.NextAdvances | prompt.go:364-450 | The calling/callingfpc machine cannot spin: within three turns an instruction is executed or a breakpoint traps |
| Ideal.NextStaysShallow | prompt.go:361-450 | Unless trapped or gone, a turn that compares lines is no deeper than the start, when the calls of the stretch gone over that are made at or above the starting depth first reach their return address by returning; what happens below is free |
| Ideal.StepOverExactly | prompt.go:361-450 | Every turn of every `n` that compares lines is trapped, gone or no deeper than the start, if and only if each plain instruction it can step keeps its level and each call it can step over first reaches its return address by returning |
| Ideal.RecursionComparesDeeper | prompt.go:396-407 | On a recursive program with real text that meets the hypotheses, `n` first compares lines two calls deeper than it started, and that call is the undisciplined one |
| Stops.StepOverStopsExactly | prompt.go:361-450 | With every unambiguous line table and from every position, each stop of `n` is trapped or no deeper than the start, if and only if each plain instruction it can step keeps its level and each call it can step over first reaches its return address by returning |
| Stops.RecursionStopsDeeper | prompt.go:396-407 | On that recursive program a whole `n` stops untrapped, on another line, two calls deeper than it started |
| Ideal.LiftedExactly | prompt.go:291-296 | During `s` a breakpoint is out of the text exactly when it has trapped earlier in the same command |
| Ideal.LiftedWhenPassed | prompt.go:291-302 | Equivalently, when the run has executed its address since the command started |
| Ideal.StepPassesExactly | prompt.go:291-302 | `s` executes the instruction under a listed breakpoint without a trap exactly when the run has executed that address since the command started; otherwise it traps there |
| Ideal.NextPassesStart | prompt.go:344-355 | Of the positions a whole `n` has executed, only those at its starting address carry a listed breakpoint, and only if it started trapped there; it never traps on that one |
| Stops.StopLineExactly | prompt.go:438-447 | The line printed at a stop of `n` is sure to differ from the starting one, whatever the unambiguous line table, if and only if pc is the address whose line was compared |
| Stops.NextLeavesLine | prompt.go:361-450 | So a whole `n` that stops untrapped where control falls through prints another line than it started on |
| Stops.JumpStopsOnStartingLine | prompt.go:438-447 | A run where `n` stops on a jump and prints the line it started on |
| Stops.StepPassesLiftedBreakpoint | prompt.go:291-302 | A loop where `s` executes its starting breakpoint's instruction again without a trap, and `c` would have stopped there |
| Stops.NextPassesLiftedBreakpoint | prompt.go:344-355 | The same loop under `n` |
| Stops.LoopingIsTame | breakpoint.go:164-170 | That loop meets every hypothesis of the engine |
| Breakpoints.TrapTest | breakpoint.go:164-170 | In a sound state the pc-1 test finds a breakpoint exactly when the process has trapped, and then pc-1 is the instruction it is on |
| Breakpoints.MachineStep | breakpoint.go:180-186 | A single step of the patched process is a trap at an armed position and one step of the undebugged run elsewhere |
| Breakpoints.ResumeIsWalk | breakpoint.go:121-123 | Resuming patched text and waiting equals the ideal walk to the next breakpoint |
| Breakpoints.SurvivorsOfRestart | breakpoint.go:197-218 | Clearing every internal address leaves the user breakpoints in their order |
| Breakpoints.BP.FindBreakPoint | breakpoint.go:125-132 | Finds an entry with that pc if and only if there is one |
| Breakpoints.BP.EnableBreakPoint | breakpoint.go:134-143 | Writes the trap at the entry's pc and changes nothing else |
| Breakpoints.BP.DisableBreakPoint | breakpoint.go:145-154 | Writes the saved byte at the entry's pc and changes nothing else |
| Breakpoints.BP.SetPcBreakPoint | breakpoint.go:42-66 | Refuses a listed address; else patches it and returns the byte that was there |
| Breakpoints.BP.SetInternalBreakPoint | breakpoint.go:68-80 | At any address: appends an internal entry whose saved byte is the pristine one and keeps list and text in agreement; failures change nothing |
| Breakpoints.BP.SetFileLineBreakPoint | breakpoint.go:82-119 | The same for the address of any file and line, with the not-found, existing and ptrace errors |
| Breakpoints.BP.SingleStepInstructionWithBreakpointCheck | breakpoint.go:156-195 | With a breakpoint at pc-1: backs up, executes one instruction with that patch lifted, and every patch is in place again; otherwise the process is left alone |
| Breakpoints.StepOverIsNative | breakpoint.go:164-186 | For a process that follows the undebugged run, that is exactly one of its instructions if it has trapped, and none if not |
| Breakpoints.BP.ClearInternalBreakPoint | breakpoint.go:197-205 | Removes exactly the internal entries at that address |
| Breakpoints.BP.SetBpWhenRestart | breakpoint.go:207-218 | The list becomes the user entries in order and exactly those are patched, although the list is replaced while it is walked; it fails exactly when there is a user entry and no process, or one outside the text; no user entry is ever lost |
| Executor.Target.Launch | main.go:31-63 | A session begins with no breakpoints, at the first state of the run |
| Executor.Target.Break | prompt.go:49-72 | `b` at any address keeps the patch invariant, with each error case, and keeps all addresses patchable if and only if the one it set is |
| Executor.Target.List | prompt.go:118-130 | `bl` prints the user breakpoints in list order |
| Executor.Target.Lift | prompt.go:103-107 | Removing one trap puts a process standing one past it back onto it, and no other |
| Executor.Target.ClearAll | prompt.go:79-93 | `bc all` leaves exactly the internal entries, in place, and backs up a process standing one past a removed one, which keeps its position in the run |
| Executor.Target.ClearNth | prompt.go:95-116 | `bc N` removes one entry, un-patches it and backs up a process standing one past it, which keeps its position; a bad index or missing process changes nothing |
| Executor.ClearMatchesList | prompt.go:99-125 | `bc N` removes exactly the line `bl` prints as N and keeps all others in order |
| Executor.Target.Continue | prompt.go:208-255 | `c` steps over a breakpoint behind pc, resumes with every trap in place and shows a nearest line of the raw pc; a process that follows the run stops trapped at the first breakpoint ahead (itself included) |
| Executor.Target.RunDeferred | prompt.go:296 | The pile of deferred re-enables, run last first, puts back every lifted trap |
| Executor.Target.Step | prompt.go:256-322 | `s` leaves every trap back in place and prints the line of pc; a process that follows the run ends n single steps on, all from places that show the starting line, the last showing another |
| Executor.Target.StepLoop | prompt.go:273-320 | Mid-command the traps in place are exactly the listed ones that are not deferred; the loop follows the walk |
| Executor.StepStands | prompt.go:291-302 | On patched text, undoing a trap and one machine step is one move of the walk of `s` |
| Executor.Target.StepOnce | prompt.go:291-302 | One turn: the breakpoint behind pc joins the deferred ones, then one move of the walk |
| Executor.Target.Next | prompt.go:323-451 | `n` leaves every trap back in place and prints the line of pc; a process that follows the run is taken along the walk from the instruction it is on and stops where its rules say |
| Executor.Target.NextLoop | prompt.go:361-450 | The loop makes n turns that found no reason to stop, then one that did |
| Executor.Target.NextTurn | prompt.go:365-375 | A turn that begins trapped stops; any other is one move of the walk |
| Executor.Target.NextMachineTurn | prompt.go:377-409 | The branches over calling and callingfpc: run on, or come back and compare lines |
| Executor.Target.NextPlainTurn | prompt.go:409-449 | The branch outside a call: decode, note a call, or step and compare lines |
| Executor.NextNeverDeeper | prompt.go:361-450 | `n` stops trapped on a breakpoint or no deeper than it started, when the stretch of the run it went over keeps to the call depth |
| Executor.Target.Execute | prompt.go:36-451 | Every command that returns has its own effect: `b` grows the list or says why not, `bc` and `bc all` remove what they name and take the process off it, `bl` changes nothing, `c`, `s` and `n` take their own walks; the patch invariant holds again and a process that follows the run goes zero or more instructions forward |
| Executor.Target.Session | prompt.go:21-451 | Over every list of commands each step of the log is the effect of its command, the patch invariant holds after it and a place printed is that of pc; as long as only patchable addresses have been listed, every state is faithful to the undebugged run at positions that never go back |
| Executor.RestoredIsPristine | breakpoint.go:134-154 | After any command of any session the saved bytes restore the pristine text |
| Executor.RewindIsNative | prompt.go:163-165 | Moving pc back when pc-1 carries a breakpoint gives exactly state k of the undebugged run |
| Executor.FaithfulIsNative | breakpoint.go:134-182 | In a faithful state both hold at once |
| Executor.StopShowsRequestedLine | prompt.go:245-250 | Stopped on the trap of a file and line, the line displayed for X+1 is that file and line |
| Executor.StopShowsListedLine | prompt.go:245-250 | Whenever a command of a session stops with a user breakpoint behind pc, the place printed is the file and line `bl` lists for it |
| Executor.RestartIsFaithful | breakpoint.go:207-218 | On a fresh process of the same program the patch invariant holds with the user breakpoints, and on patchable addresses the process is at the beginning of the run |
| Executor.Target.CurrentPc | prompt.go:157-165 | `bt` and `p` undo the trap: pc moved back when pc-1 carries a breakpoint |
| Executor.Target.Bt | prompt.go:142-207 | The first line is the place of the current instruction, then one frame for each caller of the walk |
| Executor.Target.CurrentFrame | prompt.go:542-552 | `p` looks the frame up at the instruction's address while register 16 keeps the raw pc |
| Executor.RegisterFile | bininfo.go:413-416 | In the lookup's register file 6 and 7 are the DWARF registers of those numbers and 16 is the raw pc |
| Disassemble.DisassembleRange | disassemble.go:13-68 | Succeeds exactly when there are instructions that lie end to end over the readable range and decode where they lie, and lists those, with the original bytes where they start on a breakpoint; the length wraps in 64 bits |
| Disassemble.SweepInPlace | disassemble.go:44-67 | The in-place loop computes the sweep and leaves its buffer as the listing's bytes |
| Disassemble.SweepExactly | disassemble.go:44-67 | The sweep finds a listing if and only if it is one: instructions end to end, each decoded from its restored first byte and the bytes after it, shown with the originals where they start on a breakpoint |
| Disassemble.SweepTiles | disassemble.go:57-64 | Instructions lie end to end over the whole range, so addresses are running sums of lengths |
| Disassemble.FinalByte | disassemble.go:46-50 | The listing shows the original byte exactly where an instruction starts on a breakpoint, and the byte read elsewhere |
| Disassemble.ListingIsPristine | disassemble.go:44-67 | The listing of patched text shows the pristine bytes if and only if an instruction starts at each breakpoint that changed a byte, and then it is the listing of the unpatched text |
| Disassemble.ListingHidesTraps | disassemble.go:44-67 | Breakpoints at instruction starts of the pristine sweep: patched and pristine text have the same listing |
| Disassemble.RangeIsTrapped | disassemble.go:27-42 | Between commands the bytes read are the pristine ones with traps, and the overlaid bytes are the pristine ones |
| Disassemble.ListingAtStop | disassemble.go:13-68 | At any stop, instructions that lie end to end over the unpatched bytes of a range and decode there are the listing of the patched process, when every breakpoint is where one starts |
| Disassemble.ListedIsDecoded | bininfo.go:566-581 | Each instruction of the unpatched program's listing is the one `n` decodes at that address, unless fewer than 100 bytes of text follow, where `n` fails |
| Backtrace.FindFunctionIncludePc | bininfo.go:287-294 | The first function whose half-open range holds pc |
| Backtrace.FunctionAtLaw | bininfo.go:287-294 | The function found is the first in the list with low <= pc < high, and none only if there is none |
| Backtrace.PrintFrames | prompt.go:173-204 | One printed frame for each return address of the walk, with its place and function, and how the walk ends |
| Backtrace.WalkRecoversStack | prompt.go:173-204 | The walk completes with a list of callers if and only if following the pairs in memory gives it, innermost first, with every ret-1 in a known function |
| Backtrace.WalkOverBytes | prompt.go:178-193 | For any stack whose frame pointers and return addresses lie in memory byte by byte, lowest byte first, the return address above the saved pointer, the walk is exactly those return addresses and completes |
| Backtrace.LabelsLaw | prompt.go:195-203 | A printed frame shows the place of ret-1 and the name of the first function that holds it |
| Backtrace.SelfLinkedFrameNeverEnds | prompt.go:174-204 | A frame pointer saved as itself is printed without end |
| Backtrace.WalkEndsExactly | prompt.go:174-204 | The walk ends if and only if no frame pointer of the chain repeats, and then within as many frames as there are mapped addresses |
| Leb128.DecodeULEB128 | frame.go:116-141 | The sum of the 7-bit groups times 128^i modulo 2^64, for every byte string, padded ones included; consumes exactly its bytes; error at a cut |
| Leb128.DecodeSLEB128 | frame.go:157-185 | The two's-complement value of the groups reduced to int64, at every length |
| Leb128.FinishSigned | frame.go:180-182 | The guard comparing shift with 8*len never withholds an extension that matters, even when the 32-bit count wraps |
| Leb128.UnsignedRoundTrip | frame.go:116-141 | Decoding inverts the shortest encoding on all of uint64 and leaves the suffix |
| Leb128.SignedRoundTrip | frame.go:157-185 | Decoding inverts the shortest encoding on all of int64 and leaves the suffix |
| Leb128.StandardExamples | frame.go:116-185 | The shortest encodings of the numbers that section 7.6 of DWARF version 3 tabulates |
| Leb128.CutNumber | frame.go:124-127 | A number is cut short exactly when no byte left ends one; it reads as 0 and uses up the buffer |
| FrameRecords.ParseFrameInformation | frame.go:71-104 | One record off the buffer, with end of file, short reads and the panics of bad slices |
| FrameRecords.ParseCommonInformationEntry | frame.go:187-227 | The CIE fields in order, or an error when the bytes run out |
| FrameRecords.ParseFrameSection | bininfo.go:341-361 | The parse loop with its current CIE; terminates on every byte string |
| FrameRecords.CiePayloadRoundTrip | frame.go:187-227 | Parsing a serialised CIE gives its fields |
| FrameRecords.FdePayloadRoundTrip | frame.go:230-244 | Parsing a serialised FDE gives its fields |
| FrameRecords.EntryRoundTrip | frame.go:71-104 | A serialised record comes back and exactly 4 + length bytes are consumed |
| FrameRecords.SectionRoundTrip | bininfo.go:341-361 | Any list of well-formed records comes back in order, each FDE with the latest CIE |
| FrameRecords.RecordLaw | frame.go:82-103 | One record of any bytes: the 32-bit length less 4, the marker, and each way to fail |
| FrameRecords.ShortSection | frame.go:82-98 | A nonempty section of fewer than 8 bytes panics |
| FrameRecords.CieCut | frame.go:201-219 | A CIE is cut short exactly when fewer than three numbers end after its augmentation |
| FrameRecords.CieUnterminated | frame.go:201-203 | So is one whose augmentation has no terminator |
| FrameRecords.TailDecides | bininfo.go:343-360 | After well-formed records, nothing or a CIE cut short silently ends the section with them; a record too short panics |
| FrameRecords.LinkIsNearest | bininfo.go:342-360 | The latest CIE is the nearest preceding one |
| FrameRecords.LinkingFollowsPointers | bininfo.go:354-359 | An FDE gets the CIE its pointer denotes if and only if that CIE equals the nearest preceding one |
| FrameRecords.LinkingIgnoresPointers | bininfo.go:354-359 | A section where an FDE is given another CIE than its pointer denotes |
| CallFrame.ExecSingleInstruction | cfa.go:72-155 | Consumes exactly one instruction and applies it; an unsupported or cut one fails and changes no rule |
| CallFrame.ExecWithOperands | cfa.go:100-122 | The LEB128-operand instructions are fetched and applied |
| FrameLaws.NopLaw | cfa.go:148-149 | On bytes: changes nothing |
| FrameLaws.OffsetExtendedLaw | cfa.go:100-103 | On bytes: the rule of one register becomes the operand times the data alignment factor, in int64; nothing else changes |
| FrameLaws.DefCfaLaw | cfa.go:105-109 | On bytes: the CFA is that register plus that offset |
| FrameLaws.DefCfaRegisterLaw | cfa.go:111-114 | On bytes: the new register, the old offset, the rule undefined |
| FrameLaws.DefCfaOffsetSfLaw | cfa.go:116-120 | On bytes: the CFA offset becomes the operand times the data alignment factor, in int64; nothing else changes |
| FrameLaws.AdvanceLaw | cfa.go:123-128 | On bytes: the location moves by the low six bits times the code alignment factor, the rules stay |
| FrameLaws.AdvanceLaw1 | cfa.go:130-135 | On bytes: the same with one operand byte |
| FrameLaws.AdvanceLaw2 | cfa.go:137-140 | On bytes: the same with two, the low one first |
| FrameLaws.RestoreLaw | cfa.go:142-147 | On bytes: the register in the low six bits becomes undefined |
| FrameLaws.UnsupportedLaw | cfa.go:78-152 | Exactly which opcodes fail, and that both loops fail there |
| CallFrame.ExecCIEInstructions | cfa.go:157-164 | Runs the whole program |
| CallFrame.ExecFDEInstructions | cfa.go:166-173 | Runs until the location passes the address |
| CallFrame.FetchInvertsEncode | cfa.go:78-155 | Every supported instruction is fetched back from its bytes with exactly those bytes consumed (the read, unread, read of the compact opcodes nets one byte) |
| CallFrame.ProgramInvertsEncode | cfa.go:157-164 | Any list of supported instructions is read back from its encoding |
| CallFrame.RunAllIsFold | cfa.go:157-164 | On every byte string, the byte interpreter is the fold of the abstract instructions, and fails exactly when one is unsupported |
| CallFrame.RunUntilIsFold | cfa.go:166-173 | On every byte string, the interpreter that stops early is the stopped fold of the instructions before the first unsupported one, and fails exactly when it gets to that one |
| CallFrame.LookupIsLast | cfa.go:166-173 | The table lookup gives the last row that starts at or below pc |
| CallFrame.EarlyStopIsLeading | cfa.go:166-173 | For every program, wrapping or not, stopping when loc passes pc gives the rules of the row before the first row above pc |
| CallFrame.LeadingIsLast | cfa.go:166-173 | That is the last row at or below pc, at every pc from the first row on, if and only if no row above the first is followed by a lower one |
| CallFrame.EarlyStopIsTableLookup | cfa.go:166-173 | So for such tables the early stop is the lookup of section 6.4.3 of DWARF version 3 |
| CallFrame.NonWrappingIsSettled | cfa.go:123-141 | Programs whose location never wraps have such tables |
| CallFrame.WrappingLocationsDiffer | cfa.go:123-141 | A program whose location wraps, and a pc where the early stop and the lookup differ |
| FrameLookup.FindFde | bininfo.go:364-383 | The only FDE whose closed range holds pc, none, or a duplicate |
| FrameLookup.RunUnwindPrograms | bininfo.go:385-402 | The CIE program, then the FDE program from the start of its range |
| FrameLookup.FindFrameInformation | bininfo.go:364-458 | The frame base and each error of the search, the programs and the CFA rule |
| FrameLaws.NoneHolds | bininfo.go:366-383 | A pc in no closed range is not covered |
| FrameLaws.TwoHold | bininfo.go:371-377 | A pc in two closed ranges is reported as a duplicate |
| FrameLaws.OneHoldsLaw | bininfo.go:381-402 | In exactly one: a missing CIE, then failing programs, then the CFA rule |
| FrameLaws.UnwindFails | bininfo.go:390-402 | The programs fail exactly at an unsupported instruction of the CIE, or of the FDE before its location passes pc |
| FrameLaws.CfaRegisterLaw | bininfo.go:413-435 | The CFA of a program on any register: 6, 7 and 16 are known, the others up to 16 null, larger ones refused |
| FrameLaws.CfaRuleLost | bininfo.go:451-453 | After def_cfa_register there is no frame base |
| FrameLaws.PrologueFrame | bininfo.go:364-457 | A function that pushes one word: the frame base is 8 above the stack pointer before the push and 16 above it afterwards |
| FrameLookup.SearchInside | bininfo.go:366-383 | For a pc in exactly one half-open range the search succeeds if and only if no other FDE ends at pc; otherwise it reports a duplicate |
| FrameLookup.SearchOutside | bininfo.go:366-383 | A pc in no range is not found if and only if no range ends there |
| FrameLookup.SearchPastEnd | bininfo.go:366-383 | A pc in no range, where one ends, is given that one if and only if no other ends there; otherwise a duplicate is reported |
| FrameLookup.PastEndGetsFrame | bininfo.go:368-383 | One function, and the frame base found at the pc one past its end |
| FrameLookup.AdjacentFunctionsClash | bininfo.go:368-377 | Two functions back to back: the lookup fails at the first pc of the second |
| FrameLookup.UnwindIsTableLookup | bininfo.go:390-402 | The two programs give the row of the unwind table at pc |
| FrameLookup.FrameBaseFromSection | bininfo.go:341-457 | From serialised section bytes to the frame base: the CFA of the table row at pc, built from the nearest CIE, whatever programs the other records hold |
| FrameLookup.VariableAddress | prompt.go:568-577 | The address of a DW_OP_fbreg location in int64 arithmetic; other expressions are refused |
| FrameLookup.VariableAtOffset | prompt.go:575-577 | A variable encoded at offset v is found at frame base + v modulo 2^64, for every int64 v |
| FrameLookup.VariableElsewhere | prompt.go:570-575 | Only locations that begin with DW_OP_fbreg have an address |
| LineIndex.BI.AddCompileUnit | bininfo.go:190-207 | The index stays exactly the raw rows grouped by file and line, over any number of units |
| LineIndex.BI.AddLineEntry | bininfo.go:199-206 | One row is filed under its file and line, last; a row without file is dropped |
| LineIndex.BI.FileLineToPcForBreakPoint | bininfo.go:488-512 | Over the raw rows: the address of the first row of that file and line that ends a prologue; without one the least address of its rows, unless there is none or one is at 0 |
| LineIndex.BreakAddressOverRows | bininfo.go:493-511 | The same of the specification `b` is proved against |
| LineIndex.SelectConcat | bininfo.go:199-206 | The rows of a file and line are selected row by row: none lost, repeated or moved |
| LineIndex.BI.PcToFileLine | bininfo.go:526-564 | The answer of the scan in some iteration order, which is the place of a row with the greatest address at most pc, or the empty place if none |
| LineIndex.BI.ScanInOrder | bininfo.go:541-563 | The loops compute the answer of the given order |
| LineIndex.AnswerIsClosest | bininfo.go:541-563 | In every iteration order the answer is the place of a nearest row |
| LineIndex.AnswerOfRow | bininfo.go:544-546 | Every indexed row is the answer at its own address in some iteration order |
| LineIndex.BI.ScanFile | bininfo.go:541-561 | One file's lines, an exact match ending the scan |
| LineIndex.ScanRows | bininfo.go:543-559 | One list of rows against the running best |
| LineIndex.BreakAtLeastNonzero | bininfo.go:498-511 | Without an end of prologue, the breakpoint is at the least nonzero address if and only if the line has rows and none is at 0 |
| LineIndex.ZeroAddressHidesLine | bininfo.go:498-511 | A line with a nonzero row that is reported as not found |
| LineIndex.OrderIndependent | bininfo.go:541-563 | All iteration orders give the same answer at every pc if and only if rows at the same address agree |
| LineIndex.BreakLocationRoundTrip | bininfo.go:488-564 | The breakpoint address of a file and line is shown as that file and line, and so is the address after it when no row starts there |

## Left out

- ELF opening, decompression, Go's `debug/dwarf` reader and the attribute parsing of functions and variables: the model
  starts from section bytes, line rows, function ranges and location bytes.
- Real ptrace and wait4, signals other than the trap, threads, ptrace requests that fail on a live process, exit codes.
- The process launch of `r`: only `SetBpWhenRestart` on a given fresh process; the new command is held in a local variable
  of `executor` and its fate is not modelled.
- x86 decoding and instruction semantics: abstract functions constrained by `Local` and `PrefixDecoder`.
- Printing, source listing (`l` and the lines shown after a stop of `s` and `n`), `bl all`, completion, help, logging, `build`,
  argument parsing, `os.Getwd` and path joining (a file name stands for the joined path), `parseLoc`, the auxiliary vector.
- The error of a nil `Sources` map (an empty map gives the empty place), and the second printing of the same error by `bc N`
  when N exceeds the list.
- Reading and printing the string value in `p` once its address is known, and choosing the variable by name.
- Fields nothing here reads: `cie_id`, the entry's own `len`, `Frame.Offset`, `Frame.instructions`, and `rangeMax` of
  the nearest-line lookup.
- DWARF features the code does not have: remember and restore state, expressions, standard restore, 64-bit records.
- Session: transparency stops being promised once an address that is not `Patchable` is listed, since the engine's
  inference fails there as in `TrapInference` and `OneByteInstructionRepeats`. The patch invariant goes on.
- What lies after the text in memory: the 100 bytes `n` reads to decode are taken from the text map alone.
- DisassembleRange: the panic of an allocation too large for a wrapped length counts as the failing read, and reads take
  whole ranges rather than the 8-byte words ptrace fetches.
- Step: what the listing shows after the stop is left out, and so is the line comparison when the index holds no sources.
- ParseFrameSection: a panic in a malformed record ends the model's section as `Panic`; the process state after a panic is
  not modelled.
