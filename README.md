# simbricks-lpn core, modelled in Dafny

This project models the device simulators of simbricks-lpn: the labelled,
timed Petri-net (LPN) engine that drives the performance models, the two
concrete nets (the VTA deep-learning accelerator and the JPEG decoder), the
DMA request matchers that connect a functional simulator to the net, the VTA
functional simulator and its IO generator, the JPEG front end, the PCIe
behavioural-model base, the AXI adapters, the Verilator glue of the JPEG and
GCD devices, the GCD workload's software reference, and the index
arithmetic of two result-scraping scripts.

Each source file keeps its own form. Places, request queues, matchers and
port state that the C++ updates in place are Dafny classes whose methods
carry `modifies` clauses; loops stay loops with invariants, proved against
specification functions on values; constant tables and closed-form formulas
are functions and lemmas. C integer widths are written out where they
matter (`ToU32`, `ToI32`, C's truncating `/` and `%`), and a source
`assert`/`CHECK` that would abort the process is a result flag or a
`Result` failure.

Modules, one per file:

| file | models |
|---|---|
| `arith.dfy` | shared integer helpers (C division, fixed-width truncation, powers of two) |
| `wrappers.dfy` | `Option` and `Result` |
| `lpn_engine.dfy` | `place<T>`, transition records and the engine functions, `NextCommitTime`/`CommitAtTime`, conflict detection |
| `vta_isa.dfy` | the VTA instruction fields the models read |
| `vta_tokens.dfy` | `MakeLaunchToken`, `MakeNumInsnToken` |
| `vta_net.dfy` | the VTA net: closures, delays, transition table, initial marking |
| `vta_setup.dfy` | `translate` and `collect_insns` |
| `mem_req.dfy` | the DMA request record shared by both matchers |
| `vta_req_map.dfy` | the VTA `Matcher`, `setupReqQueues`, `enqRequest` |
| `jpeg_req_map.dfy` | the JPEG `Matcher`, `CtlVar`, the request-queue functions |
| `vta_bitpack.dfy` | `BitPacker` |
| `vta_sram.dfy` | `SRAM::Load` and `TruncStore` of the functional simulator |
| `vta_compute.dfy` | GEMM and ALU semantics |
| `vta_device.dfy` | `Profiler`, `Device::Run`, `Run_Insn` |
| `vta_iogen.dfy` | the IO generator's request streams |
| `jpeg_net.dfy` | the JPEG net: delays, transition table, conserved counts, initial marking |
| `rollback_buf.dfy` | the rollback buffer and `CHECK_ENOUGH_BUF` |
| `jpeg_bit_buffer.dfy` | `jpeg_bit_buffer`: stuffing and marker detection, `read_word`, `eof` |
| `jpeg_frame.dfy` | segment words, the SOF0 mode, pixel saturation and placement, chroma upsampling, the MCU cursor, the tokens of an MCU |
| `jpeg_output.dfy` | the lazily allocated R, G, B planes, `ConvertYUV2RGB`, the chroma expansion, the tokens an MCU hands the net |
| `jpeg_segments.dfy` | the `(last_b, b)` marker dispatch and the SOF0 header fields |
| `jpeg_scan.dfy` | the 4:2:0 MCU loop of `DecodeImage(till_end)` over the entropy decoder's answers |
| `jpeg_func_sim.dfy` | the functional simulator `jpeg_decode_funcsim` with its statics, DMA fetches and scan chunks |
| `jpeg_driver.dfy` | the LPN driver `driver.hpp`: `UpdateLpnState` with rollback, `DecodeImage` with checkpoints |
| `gcd_sw.dfy` | the GCD workload's software reference, Euclid by repeated subtraction on 16-bit values |
| `reg_file.dfy` | register files as bytes: 32-bit little-endian fields and the bounds-checked BAR 0 access |
| `pcie_bm.dfy` | the PCIe behavioural-model base: the timed event heap and the DMA engine with at most 64 operations in flight |
| `vta_bm.dfy` | the VTA behavioural model: its registers and the chunked DMA scheduler over the request queues |
| `jpeg_bm.dfy` | the JPEG decoder behavioural model: its registers, the chunked image fetch and the RGB565 write-back |
| `mmio.dfy` | the MMIO master of the Verilator JPEG decoder over an AXI-Lite port |
| `axi.dfy` | what the AXI4 burst adapters share: burst operations, beat bytes and offsets |
| `axi_rtl.dfy` | the RTL library's `AXIReader` and `AXIWriter` |
| `axi_misc.dfy` | the Verilator JPEG decoder's own AXI reader and writer |
| `verilator_glue.dfy` | the host messages the Verilator simulators poll for and the switching of VCD tracing |
| `gcd_verilator.dfy` | the Verilator GCD device: its 13-byte BAR 0 state and the host reads and writes of it |
| `jpeg_verilator.dfy` | the Verilator JPEG decoder's PCIe side: MMIO over BAR 0, the tracing byte over BAR 1, DMA as host messages |
| `results_text.dfy` | the Python string operations the result scripts use |
| `results_jpeg.dfy` | the JPEG result script: locating and cleaning the image dump, RGB565 to 8-bit channels |
| `results_tvm.dfy` | the TVM detection result script: locating each client's image dump and the figures drawn |

## Model

| member | source | states |
|---|---|---|
| LpnEngine.Drop | sims/lpn/lpn_common/place_transition.cc:9-13 | `fire(p, n)` removes exactly `min(n, len)` tokens from the front and keeps the rest in order; `n <= 0` changes nothing |
| LpnEngine.Counts | sims/lpn/lpn_common/place_transition.cc:19-28 | one real count per input, in input order, each the input's weight on the marking |
| LpnEngine.MaxTsIsMax | sims/lpn/lpn_common/place_transition.cc:18-35 | the enabling time is an upper bound of every needed token timestamp and equals one of them (or the initial 0) |
| LpnEngine.Stamp | sims/lpn/lpn_common/place_transition.cc:60-62 | stamping keeps every produced token's data and sets its timestamp to the event time |
| LpnEngine.Accept | sims/lpn/lpn_common/place_transition.cc:53-64 | running the producers of outputs `[0, k)` in order keeps the number of places |
| LpnEngine.Fire | sims/lpn/lpn_common/place_transition.cc:39-51 | consuming the recorded counts input by input keeps the number of places |
| LpnEngine.Commit | sims/lpn/lpn_common/place_transition.cc:131-136 | a commit runs outputs first, then inputs, on the same set of places |
| LpnEngine.Repeat | sims/lpn/vta/lpn_def/lpn_def.hh:10-15 | `n` equal tokens, as `create_empty_queue` appends |
| LpnEngine.MinTimeOfIsMin | sims/lpn/lpn_common/place_transition.cc:92-109 | the `min_time_g` value is at most `LARGE`, below every listed `min_time`, and is `LARGE` or the event time of a scheduled listed transition |
| LpnEngine.TriggerSchedules | sims/lpn/lpn_common/place_transition.cc:70-90 | a schedule is at or after the pipeline time and every needed token, counts are appended, and without a pipeline interval `pip_ts` becomes the maturity time |
| LpnEngine.TriggerOutcome | sims/lpn/lpn_common/place_transition.cc:70-90 | `trigger` answers true iff already scheduled or enabled and not disabled; when it answers false nothing about the schedule changes; `disable`, `pip` and `count` never change |
| LpnEngine.TriggerIdempotent | sims/lpn/lpn_common/place_transition.cc:72 | a second `trigger` on the same marking returns the same answer and changes nothing |
| LpnEngine.SyncClears | sims/lpn/lpn_common/place_transition.cc:124-138 | after `sync(t, time)` the transition is unscheduled or due after `time`; it answers 1 iff it was unscheduled; the marking changes only by a due commit |
| LpnEngine.AcceptAppends | sims/lpn/lpn_common/place_transition.cc:53-64 | `accept_t` only appends to a place, every added token carries the event time, and a place that is no output is untouched |
| LpnEngine.FireDrops | sims/lpn/lpn_common/place_transition.cc:39-51 | `fire_t` only removes tokens from the front of each place |
| LpnEngine.FireUntouched | sims/lpn/lpn_common/place_transition.cc:39-51 | a place that is no input keeps its tokens under `fire_t` |
| LpnEngine.TriggerAll | sims/lpn/lpn_common/lpn_sim.hh:4-7 | triggering a list of transitions in order keeps the net's shape invariant |
| LpnEngine.SyncAll | sims/lpn/lpn_common/lpn_sim.cc:13-16 | syncing a list of transitions in order keeps the net's shape invariant and the number of places |
| LpnEngine.SyncAllDue | sims/lpn/lpn_common/lpn_sim.cc:13-16 | after `CommitAtTime(time)` no listed transition is scheduled at or before `time` |
| LpnEngine.SyncAllUnlisted | sims/lpn/lpn_common/lpn_sim.cc:13-16 | transitions outside the list keep their records under `CommitAtTime` |
| LpnEngine.TriggerAllKeepsScheduled | sims/lpn/lpn_common/place_transition.cc:72 | an already scheduled transition is untouched by any sequence of triggers |
| LpnEngine.TriggerAllUnlisted | sims/lpn/lpn_common/lpn_sim.hh:4-7 | transitions outside the list keep their records under `NextCommitTime` |
| LpnEngine.TriggerAllSettles | sims/lpn/lpn_common/lpn_sim.cc:3-4 | after the trigger loop every listed transition is scheduled, disabled, or unable to fire |
| LpnEngine.Lpn.constructor | sims/lpn/lpn_common/place_transition.hh:81-87 | every place starts with empty `tokens` and `tokens_init`, and every transition record has the member defaults |
| LpnEngine.Lpn.TokensLen | sims/lpn/lpn_common/place_transition.hh:107-109 | `tokens_len` is the length of the place's deque |
| LpnEngine.Lpn.TsAt | sims/lpn/lpn_common/place_transition.hh:110-112 | `ts_at(i)` is token `i`'s timestamp |
| LpnEngine.Lpn.HasInit | sims/lpn/lpn_common/place_transition.hh:89-91 | `has_init` holds iff `tokens_init` is non-empty |
| LpnEngine.Lpn.InitSize | sims/lpn/lpn_common/place_transition.hh:99-101 | `init_size` is the length of `tokens_init` |
| LpnEngine.Lpn.PushToken | sims/lpn/lpn_common/place_transition.hh:122-125 | `push_token` appends at the back of one place; all else is unchanged |
| LpnEngine.Lpn.PopToken | sims/lpn/lpn_common/place_transition.hh:119-121 | `pop_token` removes the front token of one place; all else is unchanged |
| LpnEngine.Lpn.Reset | sims/lpn/lpn_common/place_transition.hh:126-128 | `reset` empties `tokens` and leaves `tokens_init` untouched |
| LpnEngine.Lpn.CopyToInit | sims/lpn/lpn_common/place_transition.hh:93-97 | `copy_to_init` appends every current token to `tokens_init` in order; afterwards `has_init` holds iff either was non-empty |
| LpnEngine.Lpn.SetTokenTs | sims/lpn/lpn_common/place_transition.hh:113-115 | `set_token_ts(i, ts)` changes only token `i`'s timestamp |
| LpnEngine.Lpn.CreateEmptyQueue | sims/lpn/vta/lpn_def/lpn_def.hh:10-15 | `create_empty_queue(q, n)` appends exactly `max(n, 0)` fresh tokens to one place |
| LpnEngine.Lpn.FirePlace | sims/lpn/lpn_common/place_transition.cc:9-13 | `fire(p, n)` leaves `Drop(tokens[p], n)` in `p` and changes no other place |
| LpnEngine.Lpn.AbleToFire | sims/lpn/lpn_common/place_transition.cc:15-37 | the result is 1 iff every input meets its threshold; then `enabled_ts` is the maximum needed timestamp and `consume_tokens` gains the real counts in input order; on failure `consume_tokens` is empty |
| LpnEngine.Lpn.FireT | sims/lpn/lpn_common/place_transition.cc:39-51 | `fire_t` consumes the recorded counts input by input and empties `consume_tokens` |
| LpnEngine.Lpn.AcceptT | sims/lpn/lpn_common/place_transition.cc:53-64 | `accept_t` runs each output producer in order and stamps what it added with `delay_event` |
| LpnEngine.Lpn.StampFrom | sims/lpn/lpn_common/place_transition.cc:60-62 | the inner loop of `accept_t` sets the timestamp of tokens `[ori, len)` and nothing else |
| LpnEngine.Lpn.Trigger | sims/lpn/lpn_common/place_transition.cc:70-90 | `trigger` updates exactly one record as the scheduling specification says and returns its answer |
| LpnEngine.Lpn.TriggerForPath | sims/lpn/lpn_common/place_transition.cc:141-148 | `trigger_for_path` behaves exactly as `trigger` |
| LpnEngine.Lpn.Sync | sims/lpn/lpn_common/place_transition.cc:124-138 | `sync` returns 1 with no change when unscheduled, commits and unschedules when due, and otherwise changes nothing; other records are unchanged |
| LpnEngine.Lpn.SyncForPath | sims/lpn/lpn_common/place_transition.cc:150-159 | `sync_for_path` increments `count`, commits outputs then inputs, unschedules and returns 0 |
| LpnEngine.Lpn.MinTimeG | sims/lpn/lpn_common/place_transition.cc:99-109 | `min_time_g` computes the minimum listed event time, capped by `LARGE` |
| LpnEngine.Lpn.MinTimeT | sims/lpn/lpn_common/place_transition.cc:111-121 | `min_time_t` returns exactly the listed transitions whose `min_time` is `min_t`, in list order |
| LpnEngine.Lpn.TriggerList | sims/lpn/lpn_common/lpn_sim.hh:4-7 | `LOOP_TS(trigger(t))` triggers every listed transition once, in list order |
| LpnEngine.Lpn.NextCommitTime | sims/lpn/lpn_common/lpn_sim.cc:3-11 | `NextCommitTime` triggers every listed transition in order and returns 0 on both branches |
| LpnEngine.Lpn.NextCommitTimeFixed | sims/lpn/lpn_common/lpn_sim.cc:3-11 | the intended `NextCommitTime`: the same triggers, returning the minimum event time |
| LpnEngine.Lpn.CommitAtTime | sims/lpn/lpn_common/lpn_sim.cc:13-16 | `CommitAtTime` syncs every listed transition in order, returns 0, and leaves none scheduled at or before `time` |
| LpnEngine.WithTimeMembers | sims/lpn/lpn_common/place_transition.cc:111-121 | a transition is in the `min_time_t` result iff it is listed and its `min_time` is `min_t` |
| LpnEngine.Writers | sims/lpn/lpn_common/place_transition.cc:164-171 | the writers of a place are exactly the list positions whose outputs contain it, ascending |
| LpnEngine.OutputsContain | sims/lpn/lpn_common/place_transition.cc:165-170 | the scan of an output list answers whether the place is in it |
| LpnEngine.WritersOf | sims/lpn/lpn_common/place_transition.cc:164-171 | the inner loop of the first phase collects exactly the writers of one place |
| LpnEngine.PotentialConflicts | sims/lpn/lpn_common/place_transition.cc:162-172 | the first phase maps exactly the listed places that some transition writes to all their writers |
| LpnEngine.ClearShared | sims/lpn/lpn_common/place_transition.cc:173-180 | the second phase zeroes exactly the entries in a writer list of two or more and leaves the rest |
| LpnEngine.DetectConflictingTransitionGroups | sims/lpn/lpn_common/place_transition.cc:161-182 | `conflict_free[i]` becomes 0 exactly for transitions that share a listed output place with another transition; other entries are untouched |
| LpnEngine.SharedIffConflicting | sims/lpn/lpn_common/place_transition.cc:161-182 | sharing a writer list of two or more is equivalent to writing a listed place that another transition writes |
| LpnEngine.ReadIndexAsWritten | sims/lpn/lpn_common/place_transition.cc:33 | the index read by `able_to_fire_t` is the checked count minus one |
| LpnEngine.ZeroCountReadsBeforeFront | sims/lpn/lpn_common/place_transition.cc:23-33 | an input with count 0 passes the check on an empty place and the read index is -1 |
| LpnEngine.NextCommitTimeLosesMinimum | sims/lpn/lpn_common/lpn_sim.cc:5-10 | with one transition scheduled at 5 the minimum is 5, while `NextCommitTime` answers 0 |
| VtaNet.CycleDelay | sims/lpn/vta/lpn_def/lpn.hh:207-212 | a delay of `e` cycles is `6666 * e` picoseconds (`1000000/150` under integer division) whenever that fits the transition's `int`, and always lies in the `int` range |
| VtaNet.ComputeCycles | sims/lpn/vta/lpn_def/lpn.hh:392-413 | `delay_compute` gives 2 cycles for SYNC, dispatches ALU, GEMM, LOADACC and LOADUOP to their formulas, and 0 for any other step |
| VtaNet.Take | sims/lpn/vta/lpn_def/lpn.hh:115-124 | `pass_var_token_readLen` passes the first `insn_count` tokens of `pnumInsn`, in order |
| VtaNet.ReadCmds | sims/lpn/vta/lpn_def/lpn.hh:95-113 | `output_insn_read_cmd` produces only instruction-count tokens |
| VtaNet.ReadCmdsCover | sims/lpn/vta/lpn_def/lpn.hh:95-113 | the read commands number `ceil(total/8)`, each counts 1 to 8 with all but the last exactly 8, and the counts sum to `total_insn`; a non-positive total yields none |
| VtaNet.LaunchYieldsOneReadCmd | sims/lpn/vta/src/parse_tokens.hh:6-10 | the launch token yields exactly one read command of one instruction |
| VtaNet.Defs | sims/lpn/vta/lpn_def/lpn_def.hh:7-8 | `t_list` holds the 12 transitions in the order t13, t9, t12, t14, t15, t16, load launch/done, store launch/done, compute launch/done |
| VtaNet.DefsWellFormed | sims/lpn/vta/lpn_def/transitions.hh:8-119 | every transition of the table names existing places and has one weight and threshold per input and one producer per output |
| VtaNet.DispatchEffect | sims/lpn/vta/lpn_def/transitions.hh:35-64 | t14, t15 and t16 take one `psDrain` token and one capacity token and move the drained instruction into the unit's queue |
| VtaNet.LaunchEffect | sims/lpn/vta/lpn_def/transitions.hh:65-91 | a load or store launch moves the queue's front instruction to its process place and consumes one dependency token iff the instruction's pop flag is 1 |
| VtaNet.FinishEffect | sims/lpn/vta/lpn_def/transitions.hh:74-100 | a load or store done retires the front process token, adds one done token and one capacity token, and one dependency token iff the push flag is 1 |
| VtaNet.ComputeLaunchEffect | sims/lpn/vta/lpn_def/transitions.hh:101-109 | `tcompute_launch` moves the front compute instruction to `pcompute_process` and consumes the `pop_next`/`pop_prev` dependency tokens |
| VtaNet.ComputeDoneEffect | sims/lpn/vta/lpn_def/transitions.hh:110-118 | `tcompute_done` adds a token to `pcompute2load` iff `push_prev`, to `pcompute2store` iff `push_next`, one done token, and always returns one compute-capacity token |
| VtaNet.T13Effect | sims/lpn/vta/lpn_def/transitions.hh:8-16 | t13 turns the launch token into the read commands of its instruction total |
| VtaNet.T9Effect | sims/lpn/vta/lpn_def/transitions.hh:17-25 | t9 consumes the front read command, the control token and `insn_count` instruction tokens, and passes those same instructions to `psDrain` in order |
| VtaNet.T12Effect | sims/lpn/vta/lpn_def/transitions.hh:26-34 | t12 moves the control token back from `pcontrol_prime` to `pcontrol` |
| VtaNet.CapacityKept | sims/lpn/vta/lpn_def/transitions.hh:8-119 | every firing preserves `cap + inst_q + process` of the load, compute and store units, and `pcontrol + pcontrol_prime` |
| VtaNet.T9Conserves | sims/lpn/vta/lpn_def/transitions.hh:17-25 | t9 preserves the four unit counts |
| VtaNet.T12Conserves | sims/lpn/vta/lpn_def/transitions.hh:26-34 | t12 preserves the four unit counts |
| VtaNet.DispatchConserves | sims/lpn/vta/lpn_def/transitions.hh:35-64 | a dispatch moves one token from a unit's capacity place into its queue |
| VtaNet.LaunchConserves | sims/lpn/vta/lpn_def/transitions.hh:65-91 | a launch moves one token from a unit's queue into its process place |
| VtaNet.FinishConserves | sims/lpn/vta/lpn_def/transitions.hh:74-100 | a done transition moves one token from a unit's process place back to its capacity place |
| VtaNet.ComputeLaunchConserves | sims/lpn/vta/lpn_def/transitions.hh:101-109 | the compute launch preserves the four unit counts |
| VtaNet.ComputeDoneConserves | sims/lpn/vta/lpn_def/transitions.hh:110-118 | the compute done preserves the four unit counts |
| VtaNet.Initialized | sims/lpn/vta/lpn_def/lpn_def.hh:20-31 | the initial marking keeps the place count |
| VtaNet.InitialCounts | sims/lpn/vta/lpn_def/lpn_def.hh:22-30 | after `lpn_init` the three capacity places hold 512 tokens, `pcontrol` holds 1, and every other place is empty |
| VtaNet.LpnInit | sims/lpn/vta/lpn_def/lpn_def.hh:17-32 | the first `lpn_init` fills the initial marking; a second call hits `assert(0)` and changes nothing |
| VtaNet.SumCountsRepeat | sims/lpn/vta/lpn_def/lpn.hh:101-105 | `n` read commands of count `c` add up to `c * n` |
| VtaNet.GemmDelay | sims/lpn/vta/lpn_def/lpn.hh:363-369 | a GEMM instruction's compute delay is `6 + (uop_end - uop_begin) * lp_1 * lp_0` cycles, read from the decoded instruction |
| VtaNet.AluDelay | sims/lpn/vta/lpn_def/lpn.hh:383-390 | an ALU instruction's delay is the GEMM product times `2 - use_alu_imm`, plus 6 |
| VtaNet.NopComputeDelay | sims/lpn/vta/src/parse_tokens.hh:28-49 | an empty ACC/ACC_8BIT/UOP load becomes a compute SYNC token whose delay is 2 cycles |
| VtaNet.LoadUopCyclesClosed | sims/lpn/vta/lpn_def/lpn.hh:371-375 | for non-negative sizes `delay_loadUop` is `22 + xsize * (ysize/2 + 1)` cycles |
| VtaNet.StoreCyclesClosed | sims/lpn/vta/lpn_def/lpn.hh:199-206 | for a non-negative `xsize`, `delay_store` is `27 * (xsize / 8) * ysize` cycles |
| VtaTokens.MakeLaunchToken | sims/lpn/vta/src/parse_tokens.hh:6-10 | the launch token has `total_insn = 1` |
| VtaTokens.MakeNumInsnToken | sims/lpn/vta/src/parse_tokens.hh:13-121 | the token is EMPTY exactly for unknown opcodes; `tstype` is set only for FINISH and non-empty WGT/INP loads; memory instructions copy their four dependency flags and others leave them 0; sizes are copied only from non-empty memory instructions; STORE goes to the store unit and GEMM/ALU to compute |
| VtaTokens.TokenRoutedToUnit | sims/lpn/vta/src/parse_tokens.hh:28-121 | the unit a token is routed to is the one the opcode, memory type and `x_size` select |
| VtaTokens.ComputeTokenShape | sims/lpn/vta/src/parse_tokens.hh:84-114 | GEMM tokens take `uop_begin`/`uop_end`, `lp_1 = iter_out`, `lp_0 = iter_in`; ALU tokens also `use_alu_imm`; other tokens leave these 0 |
| VtaSetup.TranslateName | sims/lpn/vta/lpn_def/setup.hpp:14-20 | `translate(dict, key, 1)` succeeds iff the key is one of the 11 mnemonics and then yields its value; an absent key is the `assert(0)` failure |
| VtaSetup.NoLoadAccName | sims/lpn/vta/lpn_def/setup.hpp:29-40 | the name dictionary has no entry for LOADACC |
| VtaSetup.AtoiDecimal | sims/lpn/vta/lpn_def/setup.hpp:21-23 | `atoi` of a decimal numeral is its value |
| VtaSetup.AtoiNegDecimal | sims/lpn/vta/lpn_def/setup.hpp:21-23 | `atoi` of a minus sign and a decimal numeral is the negated value |
| VtaSetup.DecimalValue | sims/lpn/vta/lpn_def/setup.hpp:21-23 | the digits of a decimal numeral read back as its value |
| VtaSetup.RemoveSpaces | sims/lpn/vta/lpn_def/setup.hpp:46 | removing spaces leaves no space and never lengthens the line |
| VtaSetup.RemoveSpacesAppend | sims/lpn/vta/lpn_def/setup.hpp:46 | removing spaces distributes over concatenation |
| VtaSetup.RemoveSpacesNoSpace | sims/lpn/vta/lpn_def/setup.hpp:46 | a line without spaces is unchanged |
| VtaSetup.RemoveSpacesIdempotent | sims/lpn/vta/lpn_def/setup.hpp:46 | removing spaces twice is removing them once |
| VtaSetup.RemoveSpacesCounts | sims/lpn/vta/lpn_def/setup.hpp:46 | exactly the spaces are removed: every other character keeps its count |
| VtaSetup.FindComma | sims/lpn/vta/lpn_def/setup.hpp:49 | `find(",", last)` returns the first comma at or after `last`, or `npos` |
| VtaSetup.PiecesJoin | sims/lpn/vta/lpn_def/setup.hpp:48-53 | the plain comma split joins back to the line |
| VtaSetup.PiecesNoComma | sims/lpn/vta/lpn_def/setup.hpp:48-53 | no piece of the plain split holds a comma |
| VtaSetup.SplitFromTruncatesLast | sims/lpn/vta/lpn_def/setup.hpp:53 | the loop's split agrees with the plain split except that the final field is cut to at most `last + 1` characters |
| VtaSetup.SplitLine | sims/lpn/vta/lpn_def/setup.hpp:45-53 | the splitting loop computes the field list of the specification |
| VtaSetup.ParseLineFields | sims/lpn/vta/lpn_def/setup.hpp:54-68 | a line parses iff it has at least 15 fields and fields 1-3 are known names; then fields 1-3 are looked up and fields 4-14 are `atoi`'d into xsize ... push_next in order |
| VtaSetup.ReadLine | sims/lpn/vta/lpn_def/setup.hpp:45-68 | one line's processing yields the line's specified token or its failure |
| VtaSetup.Collect | sims/lpn/vta/lpn_def/setup.hpp:44-70 | one token per line, in file order, until the first line that aborts |
| VtaSetup.CollectInsns | sims/lpn/vta/lpn_def/setup.hpp:26-74 | `collect_insns` appends the collected tokens to the deque and reports the aborting line |
| VtaSetup.CollectedStops | sims/lpn/vta/lpn_def/setup.hpp:55-57 | nothing after the first failing line is collected |
| MemReqs.NewReq | sims/lpn/vta/src/lpn_req_map.cc:22-28 | a new request has the given fields, a zeroed buffer of `len` bytes and nothing acquired |
| MemReqs.Overwrite | sims/lpn/vta/include/lpn_req_map.hh:130-132 | `memcpy` into a buffer replaces exactly the target range and keeps every other byte |
| MemReqs.DequeueReq | sims/lpn/jpeg_decoder/src/lpn_req_map.cc:44-48 | `dequeueReq` returns the front and leaves the rest of the queue in order |
| VtaReqMap.CopyOverlap | sims/lpn/vta/include/lpn_req_map.hh:122-130 | an overlap copy keeps the window's address and length and adds `to - from` to `acquired_len`; the added length is the whole buffered request iff it lies inside the window |
| VtaReqMap.CopyOverlapBytes | sims/lpn/vta/include/lpn_req_map.hh:124-128 | a byte of the window inside `[max(start, addr), min(end, addr + len))` comes from the buffered request at the same address; every other byte is kept |
| VtaReqMap.MatchAllFrom | sims/lpn/vta/include/lpn_req_map.hh:110-151 | the result of `MatchAll` keeps the window's address and length and every request well sized |
| VtaReqMap.MatchAllConserves | sims/lpn/vta/include/lpn_req_map.hh:129-143 | when no assertion fails, the bytes acquired plus the bytes still buffered are conserved and the buffer only loses requests |
| VtaReqMap.MatchAllExhausts | sims/lpn/vta/include/lpn_req_map.hh:118-149 | incomplete buffered requests are never erased, and a window left incomplete overlaps no remaining complete request |
| VtaReqMap.MatchAllSkips | sims/lpn/vta/include/lpn_req_map.hh:118-149 | a buffered request that is incomplete or disjoint from the window is kept and the scan moves on |
| VtaReqMap.MatchAllTakes | sims/lpn/vta/include/lpn_req_map.hh:122-147 | a complete overlapping request is copied; it aborts if it sticks out of the window, is erased otherwise, and the scan stops once the window is complete |
| VtaReqMap.MatchReqSpec | sims/lpn/vta/include/lpn_req_map.hh:154-177 | `MatchReq` answers true iff the request overlaps the window; then it copies the overlap, and the assertion holds iff the request lies inside, in which case exactly its length is added |
| VtaReqMap.MatchLoop | sims/lpn/vta/include/lpn_req_map.hh:110-151 | the erase-inside-iteration loop computes the specified match result |
| VtaReqMap.Matcher.constructor | sims/lpn/vta/include/lpn_req_map.hh:68-69 | a new matcher has the tag, no current request, no buffered requests and is not valid |
| VtaReqMap.Matcher.Clear | sims/lpn/vta/include/lpn_req_map.hh:71-75 | `Clear` drops `currReq`, empties `reqs` and clears `valid` |
| VtaReqMap.Matcher.IsCompleted | sims/lpn/vta/include/lpn_req_map.hh:100-102 | `isCompleted` holds iff valid and `acquired_len == len` |
| VtaReqMap.Matcher.Register | sims/lpn/vta/include/lpn_req_map.hh:78-84 | `Register` installs the read request, sets `valid`, and runs `MatchAll` over the buffered requests |
| VtaReqMap.Matcher.Produce | sims/lpn/vta/include/lpn_req_map.hh:87-91 | when not valid the request is buffered; otherwise it is matched into `currReq` and buffered only if it does not overlap |
| VtaReqMap.Matcher.Consume | sims/lpn/vta/include/lpn_req_map.hh:94-98 | `Consume` returns `currReq`, leaves none, and clears `valid` |
| VtaReqMap.Matcher.MatchAll | sims/lpn/vta/include/lpn_req_map.hh:110-151 | `MatchAll` updates `currReq` and `reqs` as the match specification says |
| VtaReqMap.Matcher.MatchReq | sims/lpn/vta/include/lpn_req_map.hh:154-177 | `MatchReq` updates `currReq` as the single-match specification says and leaves `reqs` alone |
| VtaReqMap.ReqMaps.constructor | sims/lpn/vta/src/lpn_req_map.cc:3-5 | the three global maps start empty |
| VtaReqMap.ReqMaps.SetupReqQueues | sims/lpn/vta/src/lpn_req_map.cc:14-20 | every id gets an empty `lpn_req_map` queue and fresh, empty `func_req_map` and `perf_req_map` matchers; other ids keep their entries |
| VtaReqMap.ReqMaps.SetupReqQueue | sims/lpn/vta/src/lpn_req_map.cc:16-18 | one id's entries are replaced and nothing else |
| VtaReqMap.ReqMaps.EnqRequest | sims/lpn/vta/src/lpn_req_map.cc:22-34 | `enqRequest` builds a READ request with `id = tag` and a zeroed buffer whatever `rw` is, registers it with `func_req_map[tag]` (default-constructing it if absent) and returns that matcher |
| JpegReqMap.PrefixMatch | sims/lpn/jpeg_decoder/include/lpn_req_map.hh:107-136 | `MatchAll` looks only at the first buffered request; it keeps the window's address and length; a complete window or an empty buffer changes nothing; a window left alone had an incomplete front that was not yet filled far enough |
| JpegReqMap.PrefixMatchCopies | sims/lpn/jpeg_decoder/include/lpn_req_map.hh:119-126 | the current request changes iff the front request has filled past its end; then its `len` bytes are copied from offset `start - req.addr` and `acquired_len` grows by `len` |
| JpegReqMap.FreshReadServed | sims/lpn/jpeg_decoder/include/lpn_req_map.hh:120-131 | a fresh read whose bytes are already in the front request completes in one match |
| JpegReqMap.Matcher.constructor | sims/lpn/jpeg_decoder/include/lpn_req_map.hh:68-69 | a new matcher has the tag, no current request, no buffered requests and is not valid |
| JpegReqMap.Matcher.Clear | sims/lpn/jpeg_decoder/include/lpn_req_map.hh:71-75 | `Clear` drops `currReq`, empties `reqs` and clears `valid` |
| JpegReqMap.Matcher.IsCompleted | sims/lpn/jpeg_decoder/include/lpn_req_map.hh:98-100 | `isCompleted` holds iff valid and `acquired_len == len` |
| JpegReqMap.Matcher.Register | sims/lpn/jpeg_decoder/include/lpn_req_map.hh:78-84 | `Register` installs the read request, sets `valid` and matches it against the front buffered request |
| JpegReqMap.Matcher.Produce | sims/lpn/jpeg_decoder/include/lpn_req_map.hh:87-89 | `Produce` only appends to `reqs` |
| JpegReqMap.Matcher.Consume | sims/lpn/jpeg_decoder/include/lpn_req_map.hh:92-96 | `Consume` returns `currReq`, leaves none and clears `valid` |
| JpegReqMap.Matcher.MatchAll | sims/lpn/jpeg_decoder/include/lpn_req_map.hh:107-136 | when not valid nothing changes; otherwise `currReq` becomes the prefix match and `reqs` is untouched |
| JpegReqMap.CtlVar.constructor | sims/lpn/jpeg_decoder/include/lpn_req_map.hh:141-148 | flags start false and the matcher map empty |
| JpegReqMap.CtlVar.Reset | sims/lpn/jpeg_decoder/include/lpn_req_map.hh:150-158 | every matcher is cleared with its tag kept, the key set is unchanged, and the three flags are false |
| JpegReqMap.CtlVar.ClearKey | sims/lpn/jpeg_decoder/include/lpn_req_map.hh:152-154 | one matcher is cleared and the others keep their state |
| JpegReqMap.CtlVar.MatcherFor | sims/lpn/jpeg_decoder/src/lpn_req_map.cc:61-100 | `req_matcher[tag]` returns the existing matcher, or inserts a default-constructed (tag 0) cleared one |
| JpegReqMap.CtlVar.ClearOne | sims/lpn/jpeg_decoder/src/lpn_req_map.cc:20 | `req_matcher[id].Clear()` inserts the key if missing, clears that matcher and changes no other |
| JpegReqMap.CtlVar.Install | sims/lpn/jpeg_decoder/src/lpn_req_map.cc:12 | `req_matcher[id] = Matcher(id)` puts a fresh cleared matcher tagged `id` and keeps the others |
| JpegReqMap.SetupReqQueues | sims/lpn/jpeg_decoder/src/lpn_req_map.cc:9-14 | every listed id gets a fresh cleared matcher tagged with it; unlisted ids keep theirs |
| JpegReqMap.ClearReqQueues | sims/lpn/jpeg_decoder/src/lpn_req_map.cc:17-23 | every listed id ends with a cleared matcher; the key set gains the listed ids and the matcher objects are kept |
| JpegReqMap.EnqueueReq | sims/lpn/jpeg_decoder/src/lpn_req_map.cc:30-41 | `enqueueReq` appends a zeroed request with the given fields to `req_matcher[tag].reqs` and returns its position, the last one |
| JpegReqMap.GetDataNB | sims/lpn/jpeg_decoder/src/lpn_req_map.cc:78-95 | `getDataNB` registers a zeroed read and returns 1 iff the prefix match completes it; on 0 the request is consumed and the matcher left invalid |
| JpegReqMap.PutTarget | sims/lpn/jpeg_decoder/src/lpn_req_map.cc:101-119 | the scan stops at the first complete request, and otherwise picks the first request that contains `[addr, addr + len)` |
| JpegReqMap.Fill | sims/lpn/jpeg_decoder/src/lpn_req_map.cc:112-113 | the written bytes land at `addr - req.addr`, everything else is kept, and `acquired_len` grows by `len` |
| JpegReqMap.PutData | sims/lpn/jpeg_decoder/src/lpn_req_map.cc:98-120 | `putData` fills the target request, if any, and then re-runs `MatchAll`; with no target nothing changes |
| VtaBitPacker.NumPackElem | sims/lpn/vta/src/func_sim.cc:127 | `kNumPackElem = 32 / bits` is the largest count of elements that fit in one 32-bit word |
| VtaBitPacker.KMask | sims/lpn/vta/src/func_sim.cc:128 | `kMask` has `min(bits, 31)` low bits set |
| VtaBitPacker.MaskCoversPacked | sims/lpn/vta/src/func_sim.cc:128 | for packed widths the mask covers the whole element; at 32 bits it would drop the top bit, which is why that width has its own branch |
| VtaBitPacker.ElemBytes | sims/lpn/vta/src/func_sim.cc:142 | `kElemBytes` is the number of whole bytes that hold `kBits * kLane` bits, rounded up |
| VtaBitPacker.Shift | sims/lpn/vta/src/func_sim.cc:87-119 | an element's bit offset `(index % kNumPackElem) * bits` leaves room for the element inside its word |
| VtaBitPacker.FieldClosed | sims/lpn/vta/src/func_sim.cc:74-89 | the bitwise field read is `(w >> s) & (2^b - 1)` |
| VtaBitPacker.PutClosed | sims/lpn/vta/src/func_sim.cc:105-106 | the masked write replaces bits `[s, s + b)` of the word by the low `b` bits of the value and keeps the rest |
| VtaBitPacker.PutIsWord | sims/lpn/vta/src/func_sim.cc:105-121 | a masked write into a `uint32_t` stays a `uint32_t` |
| VtaBitPacker.GetUnsigned | sims/lpn/vta/src/func_sim.cc:64-76 | an unsigned read returns a value below `2^bits` (with the packed path corrected, see Findings) |
| VtaBitPacker.GetUnsignedAsWritten | sims/lpn/vta/src/func_sim.cc:64-76 | the code as written agrees with the corrected read on the 8-, 16- and 32-bit paths |
| VtaBitPacker.SignExtend | sims/lpn/vta/src/func_sim.cc:90-91 | the shift-left, arithmetic-shift-right pair yields the two's-complement value of `bits` bits, which is the unsigned value or it minus `2^bits` |
| VtaBitPacker.GetSignedIsInt32 | sims/lpn/vta/src/func_sim.cc:78-93 | every signed read fits the `int32_t` it returns |
| VtaBitPacker.SetUnsigned | sims/lpn/vta/src/func_sim.cc:95-108 | the array afterwards is the word sequence `WithUnsigned` describes |
| VtaBitPacker.SetSigned | sims/lpn/vta/src/func_sim.cc:110-123 | the array afterwards is `WithUnsigned` of the value's 32-bit pattern |
| VtaBitPacker.PutThenField | sims/lpn/vta/src/func_sim.cc:74-106 | reading a field just written returns the low `b` bits of the written value |
| VtaBitPacker.PutKeepsOtherFields | sims/lpn/vta/src/func_sim.cc:105-106 | a write leaves every field that does not overlap it unchanged |
| VtaBitPacker.SlotsDisjoint | sims/lpn/vta/src/func_sim.cc:103-104 | two different elements in the same word occupy disjoint bit ranges |
| VtaBitPacker.UnsignedRoundTrip | sims/lpn/vta/src/func_sim.cc:64-108 | `GetUnsigned(i)` after `SetUnsigned(i, v)` returns `v mod 2^bits` |
| VtaBitPacker.WordRoundTrip | sims/lpn/vta/src/func_sim.cc:65-97 | the 32-bit width stores and returns the word unchanged |
| VtaBitPacker.PackedRoundTrip | sims/lpn/vta/src/func_sim.cc:72-106 | a packed width returns the truncated value it stored |
| VtaBitPacker.SignedRoundTrip | sims/lpn/vta/src/func_sim.cc:78-123 | `GetSigned(i)` after `SetSigned(i, v)` returns `v` truncated to `bits` bits and sign-extended |
| VtaBitPacker.SignedRoundTripExact | sims/lpn/vta/src/func_sim.cc:78-123 | a value that fits `bits` signed bits comes back exactly |
| VtaBitPacker.SetKeepsOtherElements | sims/lpn/vta/src/func_sim.cc:95-123 | writing element `i` changes no other element, read either signed or unsigned |
| VtaBitPacker.SetChangesOnlyItsBits | sims/lpn/vta/src/func_sim.cc:103-106 | writing element `i` changes only its own word and, in it, only its own bits |
| VtaBitPacker.GetUnsignedAsWrittenMisreads | sims/lpn/vta/src/func_sim.cc:72-74 | with 4-bit elements, element 1 set to 15 reads back as 8 through the code as written |
| VtaCompute.LaneSum | sims/lpn/vta/src/func_sim.cc:589-594 | the `k` loop's `int32_t` running sum equals the start value plus the exact dot product of the input and weight rows, reduced to 32 bits |
| VtaCompute.GemmElem | sims/lpn/vta/src/func_sim.cc:586-597 | the GEMM element update keeps the element's lane count |
| VtaCompute.GemmElemAt | sims/lpn/vta/src/func_sim.cc:586-597 | lane `i * BLOCK_OUT + j` of the updated element is the accumulator plus the dot product of input row `i` and weight row `j`, as an `int32_t` |
| VtaCompute.GemmBlock | sims/lpn/vta/src/func_sim.cc:586-597 | the batch/block loops compute exactly that element |
| VtaCompute.AluFnMeaning | sims/lpn/vta/src/func_sim.cc:630-664 | ADD and MUL agree with the exact sum and product modulo `2^32`; MAX and MIN return the larger and smaller operand; SHR by a non-negative amount is the floor of division by `2^y` (arithmetic shift), by a negative amount a left shift mod `2^32` |
| VtaCompute.AluFnInt32 | sims/lpn/vta/src/func_sim.cc:630-664 | every ALU function maps `int32_t` operands to an `int32_t` |
| VtaCompute.AluElem | sims/lpn/vta/src/func_sim.cc:681-687 | every lane of the destination becomes the opcode's function of the destination lane and the immediate or the source lane |
| VtaCompute.AluBlock | sims/lpn/vta/src/func_sim.cc:681-687 | the lane loop computes exactly that element |
| VtaCompute.StepsCover | sims/lpn/vta/src/func_sim.cc:569-571 | the three nested loops visit exactly the steps `(y, x, u)` with `y < iter_out`, `x < iter_in`, `uop_bgn <= u < uop_end`, `iter_out * iter_in * (uop_end - uop_bgn)` of them |
| VtaCompute.ApplyAppend | sims/lpn/vta/src/func_sim.cc:569-600 | running two step sequences in turn is running their concatenation |
| VtaCompute.ResetBlock | sims/lpn/vta/src/func_sim.cc:611-613 | a reset micro-op zeroes every lane of its destination |
| VtaCompute.RunNest | sims/lpn/vta/src/func_sim.cc:569-600 | the nested loops leave the accumulator as the step-by-step application of every micro-op in loop order |
| VtaCompute.RunGemm | sims/lpn/vta/src/func_sim.cc:564-618 | `gemm_counter` grows by the micro-op count only when not resetting (mod `2^64`); the accumulator is the loop-order application of the GEMM or reset micro-ops |
| VtaCompute.RunAlu | sims/lpn/vta/src/func_sim.cc:620-691 | an unknown ALU opcode changes neither the counter nor the accumulator; otherwise the counter grows by the micro-op count and every micro-op applies the opcode's function |
| VtaCompute.ApplyKeeps | sims/lpn/vta/src/func_sim.cc:574-595 | accumulator elements no micro-op names as destination keep their value |
| VtaCompute.ResetZeroes | sims/lpn/vta/src/func_sim.cc:604-616 | after a reset GEMM every destination element it names is zero |
| VtaCompute.GemmUpdatesOnce | sims/lpn/vta/src/func_sim.cc:569-600 | when the micro-ops' destinations are distinct, each one ends as one GEMM update of its original value |
| VtaCompute.AluUpdatesOnce | sims/lpn/vta/src/func_sim.cc:670-690 | when destinations are distinct (and, without immediate, no source is an earlier destination), each destination ends as one ALU update of its original value and its source |
| VtaSram.RowBaseClosed | sims/lpn/vta/src/func_sim.cc:164-178 | row `r` of the loaded block starts at `sram_base + r * xtotal` |
| VtaSram.ZeroRows | sims/lpn/vta/src/func_sim.cc:168-180 | the padding rows are zeroed and no other element changes |
| VtaSram.LoadRow | sims/lpn/vta/src/func_sim.cc:171-179 | one source row: zero left padding, the `x_size` DRAM elements at `dram_base + y * x_stride`, zero right padding; nothing else changes |
| VtaSram.LoadRows | sims/lpn/vta/src/func_sim.cc:171-179 | after the row loop every row up to `y_pad_0 + y_size` holds the loaded block; elements outside those rows are unchanged |
| VtaSram.Load | sims/lpn/vta/src/func_sim.cc:157-181 | `load_counter` grows by `x_size * y_size * kElemBytes` (mod `2^64`); every element of the `ytotal` by `xtotal` block holds zero in the padding and the DRAM element elsewhere; the rest of the SRAM is unchanged |
| VtaSram.Narrow | sims/lpn/vta/src/func_sim.cc:264-265 | a lane stored into `target_bits` bits and read back signed is the value of that width congruent to it |
| VtaSram.TruncStore | sims/lpn/vta/src/func_sim.cc:244-270 | any padding aborts with the buffer untouched; otherwise the length set is `(y_size * x_stride + x_size) * kLane` and the buffer is the row-by-row store of every lane |
| VtaSram.TruncStoreNarrows | sims/lpn/vta/src/func_sim.cc:259-268 | when `x_size <= x_stride`, every lane `(y * x_stride + x) * kLane + i` of the buffer reads back as the narrowed accumulator lane `(y * x_size + x) * kLane + i` |
| VtaDevice.Profiler.constructor | sims/lpn/vta/src/func_sim.cc:282-299 | every counter and `debug_flag` start at zero |
| VtaDevice.Profiler.Clear | sims/lpn/vta/src/func_sim.cc:301-309 | the seven counters are zeroed and `debug_flag` is kept |
| VtaDevice.Profiler.SkipExec | sims/lpn/vta/src/func_sim.cc:311-314 | `SkipExec` is always false: it returns before reading `debug_flag` |
| VtaDevice.CountFinish | sims/lpn/vta/src/func_sim.cc:367-370 | the FINISH count over `n` fetched instructions is at most `n` |
| VtaDevice.CountFinishAll | sims/lpn/vta/src/func_sim.cc:367-370 | the count is `n` iff every fetched instruction is FINISH, and 0 iff none is |
| VtaDevice.Device.constructor | sims/lpn/vta/src/func_sim.cc:341-343 | a new device has a zero finish counter, no pending instruction fetch and an empty read buffer |
| VtaDevice.Device.RunInsn | sims/lpn/vta/src/func_sim.cc:498-527 | only FINISH changes the device: it adds one to `finish_counter_`; every other opcode only logs |
| VtaDevice.Device.Run | sims/lpn/vta/src/func_sim.cc:345-378 | `Run` returns 0; with no pending fetch it enqueues one LOAD_INSN read of `insn_count` instructions and runs nothing; with a complete fetch it dequeues it, runs `insn_count` instructions from the buffer (counting the FINISHes) and pops `len` bytes; with an incomplete fetch nothing changes |
| VtaIoGen.LoadReqsShape | sims/lpn/vta/src/io_generator.cc:159-173 | a load issues `y_size` reads, all under one id and the given tag, each `kElemBytes * x_size` long, the first at `dram_base * kElemBytes` and each next one `kElemBytes * x_stride` further |
| VtaIoGen.StoreReqs | sims/lpn/vta/src/io_generator.cc:271-279 | the store issues `y_size * x_size` writes |
| VtaIoGen.StoreReqsAt | sims/lpn/vta/src/io_generator.cc:271-279 | the write for `(y, x)` is the `y * x_size + x`-th, at `dram_base * target_width + (y * x_stride + x) * kLane * target_bits / 8`, `kLane * target_bits / 8` bytes long, tagged STORE_ID |
| VtaIoGen.ChunksTile | sims/lpn/vta/src/io_generator.cc:357-370 | the fetch is split into `ceil(insn_count / 128)` chunks: all full but the last, which is non-empty, and together exactly `insn_count` instructions; instruction `k` sits in chunk `k / 128` at position `k % 128` |
| VtaIoGen.FetchedNext | sims/lpn/vta/src/io_generator.cc:377-401 | instruction `128 * chunk + holder` is read at `insn_phy_addr + 128 * 16 * chunk + 16 * holder` |
| VtaIoGen.InsnStepEffect | sims/lpn/vta/src/io_generator.cc:418-505 | one instruction: a non-empty INP, WGT, ACC or UOP load, or a non-empty unpadded OUT store, takes a new id and issues its requests, and no other instruction issues; FINISH adds one to `finish_counter_`; a non-empty OUT store adds to `out_store_nbytes`; exactly a padded OUT store or a non-empty 8-bit accumulator load aborts |
| VtaIoGen.ComputeIsInert | sims/lpn/vta/src/io_generator.cc:436-445 | GEMM and ALU change nothing |
| VtaIoGen.IssuedShareId | sims/lpn/vta/src/io_generator.cc:162-168 | all requests of one instruction carry the same id |
| VtaIoGen.RunInsnsAppends | sims/lpn/vta/src/io_generator.cc:372-402 | a run only appends requests and never lowers `id_counter`, and ids stay at or below the counter |
| VtaIoGen.RunInsnsEnded | sims/lpn/vta/src/io_generator.cc:263-266 | after an abort nothing more happens |
| VtaIoGen.RunInsnsCounts | sims/lpn/vta/src/io_generator.cc:418-457 | without aborts, `id_counter` grows by the number of issuing instructions and `finish_counter_` by the number of FINISHes |
| VtaIoGen.IoGen.constructor | sims/lpn/vta/src/io_generator.cc:350-352 | a fresh generator has the given id counter, no requests, zero counters and has not aborted |
| VtaIoGen.IoGen.Load | sims/lpn/vta/src/io_generator.cc:159-173 | `Load` returns 0, takes the next id and appends one read per source row |
| VtaIoGen.IoGen.StoreRowReqs | sims/lpn/vta/src/io_generator.cc:272-278 | one row of the store appends its `x_size` writes and nothing else |
| VtaIoGen.IoGen.TruncStore | sims/lpn/vta/src/io_generator.cc:262-281 | `TruncStore` aborts on padding and otherwise takes the next id and appends every write in row order |
| VtaIoGen.IoGen.RunLoad | sims/lpn/vta/src/io_generator.cc:460-487 | `RunLoad` does nothing for `x_size == 0` or an unknown memory type, aborts for ACC_8BIT and otherwise loads with the memory type's element size and tag |
| VtaIoGen.IoGen.RunStore | sims/lpn/vta/src/io_generator.cc:489-505 | `RunStore` does nothing for `x_size == 0` or a memory type other than OUT; otherwise it adds to `out_store_nbytes` and runs `TruncStore` |
| VtaIoGen.IoGen.RunInsn | sims/lpn/vta/src/io_generator.cc:418-457 | one instruction changes the generator as the single-step specification says |
| VtaIoGen.IoGen.EnqueueChunks | sims/lpn/vta/src/io_generator.cc:362-370 | one LOAD_INSN read per chunk, each under a new id, and nothing else |
| VtaIoGen.IoGen.RunChunk | sims/lpn/vta/src/io_generator.cc:372-402 | running one fetched chunk extends the run by its instructions |
| VtaIoGen.IoGen.Run | sims/lpn/vta/src/io_generator.cc:354-415 | `Run` returns 0 after issuing the chunk fetches and running all `insn_count` fetched instructions in order |
| JpegNet.Picos | sims/lpn/jpeg_decoder/lpn_def/funcs.hh:7-15 | a delay of `c` cycles is `6666 * c` picoseconds whenever that fits the transition's `int`, and always lies in the `int` range |
| JpegNet.DefsWellFormed | sims/lpn/jpeg_decoder/lpn_def/lpn_def.hh:6-7 | `t_list` holds `T_SIZE` = 6 transitions (t0 .. t5, `tfinal` not among them), each naming existing places with one weight and threshold per input and one producer per output |
| JpegNet.PhaseEnabling | sims/lpn/jpeg_decoder/lpn_def/transitions.hh:42-70 | t2 and t3 are enabled exactly when `p6` holds at least 2 tokens (besides their other inputs) although they take none, and t4 exactly when `p6` holds at least 2 although it takes 4 |
| JpegNet.T1Effect | sims/lpn/jpeg_decoder/lpn_def/transitions.hh:6-13 | t1 takes one `ptasks` and one `p8` token and adds one empty token to `p7`, stamped with the event time |
| JpegNet.T0Effect | sims/lpn/jpeg_decoder/lpn_def/transitions.hh:15-22 | t0 takes one token each from `p7`, `p4` and `pvarlatency` and adds one to `p0` and one to `p8` |
| JpegNet.T2Effect | sims/lpn/jpeg_decoder/lpn_def/transitions.hh:62-70 | t2 takes one `p0` and one `p20` token, leaves `p6` as it is, and adds one token each to `p1`, `p21` and `p4` |
| JpegNet.T3Effect | sims/lpn/jpeg_decoder/lpn_def/transitions.hh:52-60 | t3 takes one `p0` and four `p21` tokens, leaves `p6`, and adds four tokens to `p2` and one each to `p22` and `p4` |
| JpegNet.T4Effect | sims/lpn/jpeg_decoder/lpn_def/transitions.hh:42-50 | t4 takes one `p0`, one `p22` and up to four `p6` tokens (all of them when only 2 or 3 are there), and adds four tokens to `p3`, four to `p20` and one to `p4` |
| JpegNet.T5Effect | sims/lpn/jpeg_decoder/lpn_def/transitions.hh:24-31 | t5 takes one token each from `p1`, `p2` and `p3` and adds one to `pbefore_done` and one to `p6` |
| JpegNet.TfinalEffect | sims/lpn/jpeg_decoder/lpn_def/transitions.hh:33-40 | `tfinal` turns four `pbefore_done` tokens into one `pdone` token |
| JpegNet.ListedConserve | sims/lpn/jpeg_decoder/lpn_def/transitions.hh:6-70 | every listed transition, committed on a marking that enables it, keeps `p7 + p8`, `p0 + p4` and `p20 + p21 + 4*p22`, and leaves `pdone` unchanged |
| JpegNet.AdmitRoundTrip | sims/lpn/jpeg_decoder/lpn_def/transitions.hh:6-22 | t1 then t0 leave `p7` and `p8` as they were, use up one task and one latency token, and put one MCU into `p0` |
| JpegNet.FinalConserves | sims/lpn/jpeg_decoder/lpn_def/transitions.hh:33-40 | `tfinal` keeps the three conserved counts and adds exactly one `pdone` token for four `pbefore_done` tokens |
| JpegNet.InitialCounts | sims/lpn/jpeg_decoder/lpn_def/lpn_def.hh:16-27 | from the empty net, `lpn_init` leaves `p4 = 4`, `p5 = 7`, `p6 = 4`, `p8 = 1`, `p11 = 4`, `p20 = 4` and every other place empty, so one admission token, four MCU slots and a phase count of 4 |
| JpegNet.LpnInit | sims/lpn/jpeg_decoder/lpn_def/lpn_def.hh:16-27 | the first `lpn_init` appends the initial tokens through `create_empty_queue`; a later call (`init_done` set) changes nothing |
| RollbackBuf.Rollback.constructor | sims/lpn/lpn_helper/rollback_buf.hh:6-12 | `last_idx` and `last_buf_size` start at 0 and the global buffer is a fresh block of 8192 bytes |
| RollbackBuf.Rollback.CheckPointIdx | sims/lpn/lpn_helper/rollback_buf.hh:38-40 | the checkpoint becomes `cur` (as a `size_t`) and the saved size is unchanged |
| RollbackBuf.Rollback.CheckNotEnoughBuf | sims/lpn/lpn_helper/rollback_buf.hh:24-36 | with `future_idx < len` it returns 0 and changes nothing; otherwise the global buffer starts with `buf[last_idx..len)`, the rest of it is kept, `last_buf_size = len - last_idx` and it returns 1 |
| RollbackBuf.Rollback.AugmentBufWithLast | sims/lpn/lpn_helper/rollback_buf.hh:14-22 | with nothing saved the caller keeps its own buffer and length; otherwise the global buffer holds the saved bytes followed by the `len` new ones and the length grows by `last_buf_size` |
| RollbackBuf.CheckEnoughBuf | sims/lpn/lpn_helper/rollback_buf.hh:42-45 | the macro returns `ret` from its caller exactly when `CheckNotEnoughBuf` reports a shortfall |
| RollbackBuf.ShortIff | sims/lpn/lpn_helper/rollback_buf.hh:27 | an index inside the batch is never a shortfall; one at or past its end is, and so is a negative one, since it compares as a huge `size_t` |
| JpegBitBuffer.BigEndian | sims/lpn/jpeg_decoder/lpn_setup/jpeg_bit_buffer.h:114-120 | the OR-and-shift loop reads bytes most significant first, so `n` bytes give a value below `2^(8n)` |
| JpegBitBuffer.BitBuffer.constructor | sims/lpn/jpeg_decoder/lpn_setup/jpeg_bit_buffer.h:27-41 | every field starts at 0 and the buffer is a fresh `1 << 20`-byte block, as `reset(-1)` makes it |
| JpegBitBuffer.BitBuffer.Reset | sims/lpn/jpeg_decoder/lpn_setup/jpeg_bit_buffer.h:43-65 | a fresh zeroed buffer of `max_size` bytes (`1 << 20` for `max_size <= 0`), write offset 0, `m_last` and `m_rd_offset` taken from the globals, which become 0; nothing else changes |
| JpegBitBuffer.BitBuffer.Push | sims/lpn/jpeg_decoder/lpn_setup/jpeg_bit_buffer.h:67-95 | after a stored `0xFF` past the last marker, `0x00` is stuffing (not stored, `last_is_padding` set) and any other byte is a marker (`0xFF` taken back, `marker_detected` set, false, `m_last` kept); otherwise the byte is stored at the write offset, which grows, or the assert fails |
| JpegBitBuffer.BitBuffer.CopyOut | sims/lpn/jpeg_decoder/lpn_setup/jpeg_bit_buffer.h:96-102 | the buffered bytes land at `global_buf_idx` in the output with the rest of it kept; `global_buf_len` is the end of that range and `last_detect_marker` that end plus the stuffing flag |
| JpegBitBuffer.BitBuffer.Advance | sims/lpn/jpeg_decoder/lpn_setup/jpeg_bit_buffer.h:125-129 | the read offset grows by `bits` and nothing else changes |
| JpegBitBuffer.BitBuffer.Eof | sims/lpn/jpeg_decoder/lpn_setup/jpeg_bit_buffer.h:131-147 | the answer is `ceil(rd/8) >= wr` once a marker is seen and `floor(rd/8) >= wr` before; the rollback buffer saves the batch tail exactly when the probed byte is past it |
| JpegBitBuffer.BitBuffer.ReadWord | sims/lpn/jpeg_decoder/lpn_setup/jpeg_bit_buffer.h:104-123 | 0 at the end of the data, otherwise the 32-bit window of the five bytes at `m_rd_offset / 8` shifted by `m_rd_offset % 8` |
| JpegBitBuffer.WindowAligned | sims/lpn/jpeg_decoder/lpn_setup/jpeg_bit_buffer.h:112-122 | on a byte boundary the word read is the next four bytes, big-endian |
| JpegBitBuffer.WindowShift | sims/lpn/jpeg_decoder/lpn_setup/jpeg_bit_buffer.h:112-122 | in general the word is the 40-bit window with its low `8 - bit` bits dropped and truncated to 32 bits: the 32 stream bits starting `bit` bits into the first byte |
| JpegFrame.Be16 | sims/lpn/jpeg_decoder/lpn_setup/driver.hpp:116 | a segment word read with `get_word` is below `2^16` |
| JpegFrame.Be16Bytes | sims/lpn/jpeg_decoder/lpn_setup/driver.hpp:116 | the word gives back both bytes: the first as its high byte, the second as its low byte |
| JpegFrame.FactorsByte | sims/lpn/jpeg_decoder/lpn_setup/driver.hpp:520-522 | the horizontal and vertical factors are `h` and `v` exactly when the sampling byte is `16h + v` |
| JpegFrame.ClassifyBytes | sims/lpn/jpeg_decoder/lpn_setup/driver.hpp:527-556 | the mode is monochrome exactly for one component; 4:4:4 exactly for ids 1, 2, 3 with sampling bytes `0x11, 0x11, 0x11`; 4:2:0 exactly for ids 1, 2, 3 with `0x22, 0x11, 0x11` |
| JpegFrame.SaturateClamps | sims/lpn/jpeg_decoder/lpn_setup/driver.hpp:190-192 | for values within 24 bits the overflow step clamps to 0..255 |
| JpegFrame.XBlocks | sims/lpn/jpeg_decoder/lpn_setup/driver.hpp:172-176 | `x_blocks` is the width divided by 8, rounded up |
| JpegFrame.InImageOffset | sims/lpn/jpeg_decoder/lpn_setup/driver.hpp:178-179 | a pixel whose coordinates lie inside the image has an offset inside the `w * h` plane |
| JpegFrame.PixelsDistinct | sims/lpn/jpeg_decoder/lpn_setup/driver.hpp:178-179 | two pixels inside the image row with the same offset are the same pixel of the same block |
| JpegFrame.BlockAreaCovers | sims/lpn/jpeg_decoder/src/func_sim.cc:119-121 | the block area `GetSizeOfRGB` of the functional simulator is 64 bytes per token of the token target, and at least the pixel count |
| JpegFrame.BlockRow | sims/lpn/jpeg_decoder/lpn_setup/driver.hpp:179 | a block number below the block count lies in one of the block rows |
| JpegFrame.OffsetBound | sims/lpn/jpeg_decoder/lpn_setup/driver.hpp:194-196 | a pixel inside a `cols` by `rows` raster has an offset below `cols * rows` |
| JpegFrame.BlockColumnFits | sims/lpn/jpeg_decoder/lpn_setup/driver.hpp:178 | every pixel column of a block lies inside the whole blocks of a row |
| JpegFrame.BlockRowFits | sims/lpn/jpeg_decoder/lpn_setup/driver.hpp:179 | every pixel row of a block below the block count lies inside the whole block rows |
| JpegFrame.BlockPixelFits | sims/lpn/jpeg_decoder/src/func_sim.cc:119-121 | every pixel of a block below the block count lies inside the block area |
| JpegFrame.RasterArea | sims/lpn/jpeg_decoder/src/func_sim.cc:119-121 | the block area is the whole-block width times the whole-block height, in pixels |
| JpegFrame.Upsample | sims/lpn/jpeg_decoder/lpn_setup/driver.hpp:339-373 | the expansion of one chroma block has 256 samples |
| JpegFrame.UpsampleSpatial | sims/lpn/jpeg_decoder/lpn_setup/driver.hpp:339-373 | pixel `(x, y)` of the 16x16 MCU, pixel `i` of luma block `q`, takes the chroma sample at `(x / 2, y / 2)` |
| JpegFrame.QuadrantSample | sims/lpn/jpeg_decoder/lpn_setup/driver.hpp:339-373 | the `sub_idx` each of the four expansion loops reads is the sample at half the MCU coordinates |
| JpegFrame.NextClosedForm | sims/lpn/jpeg_decoder/lpn_setup/driver.hpp:384-390 | from MCU row `a`, column `b` of an even block width `2k`, one step of `block_num`/`loop` reaches the next column, or column 0 of the next MCU row |
| JpegFrame.CursorClosedForm | sims/lpn/jpeg_decoder/lpn_setup/driver.hpp:384-390 | with an even block width `2k`, after `n` MCUs the cursor is at MCU row `n / k`, column `n % k` |
| JpegFrame.McuBlockAt | sims/lpn/jpeg_decoder/lpn_setup/driver.hpp:380-383 | luma block `s` of MCU `n` is block row `2(n / k) + s / 2`, block column `2(n % k) + s % 2`, and that column is inside the row |
| JpegFrame.CursorBlocks | sims/lpn/jpeg_decoder/lpn_setup/driver.hpp:380-383 | the four `ConvertYUV2RGB` calls take block `s` to lie `s / 2` block rows and `s % 2` columns past `block_num / 2` |
| JpegFrame.HalfBlockNum | sims/lpn/jpeg_decoder/lpn_setup/driver.hpp:380 | `block_num / 2` at MCU row `a`, column `b` is block `(2a)(2k) + 2b` |
| JpegFrame.McusDisjoint | sims/lpn/jpeg_decoder/lpn_setup/driver.hpp:380-390 | with an even block width, two different MCUs never draw the same block |
| JpegFrame.LatencyFeedsNet | sims/lpn/jpeg_decoder/lpn_setup/driver.hpp:432-441 | after an MCU's latency tokens are appended, `t0` reads the old front latency, or the first block's `3 * cnt + 6` on an empty queue; each token's delay gives back its coefficient count |
| JpegOutput.RawChannel | sims/lpn/jpeg_decoder/lpn_setup/driver.hpp:181-232 | one channel of a block holds 64 values, each `128 + y` in monochrome or the colour conversion's component otherwise |
| JpegOutput.Painted | sims/lpn/jpeg_decoder/lpn_setup/driver.hpp:181-232 | painting the pixels of a block keeps the plane's length |
| JpegOutput.OverrunsStep | sims/lpn/jpeg_decoder/lpn_setup/driver.hpp:218-223 | a block overruns a plane within `k + 1` pixels exactly when it did within `k`, or pixel `k` is stored past the plane |
| JpegOutput.ColourFits | sims/lpn/jpeg_decoder/lpn_setup/driver.hpp:223 | in colour a plane of `w * h` bytes never overruns, because only pixels inside the image are stored |
| JpegOutput.OffsetsDiffer | sims/lpn/jpeg_decoder/lpn_setup/driver.hpp:205-231 | two different pixels inside the image row never share an offset |
| JpegOutput.PaintedColour | sims/lpn/jpeg_decoder/lpn_setup/driver.hpp:205-231 | in colour a block sets exactly its pixels inside the image, each to the clamp of its value; every other byte keeps its old value |
| JpegOutput.MonoWraps | sims/lpn/jpeg_decoder/lpn_setup/driver.hpp:181-204 | monochrome stores pixels right of the image, and colour does not; such a pixel lands at the start of the next pixel row |
| JpegOutput.ZeroPlane | sims/lpn/jpeg_decoder/lpn_setup/driver.hpp:139-161 | a freshly allocated plane holds `size` zero bytes |
| JpegOutput.Planes.constructor | sims/lpn/jpeg_decoder/lpn_setup/driver.hpp:23-56 | the planes start unallocated |
| JpegOutput.Planes.Get | sims/lpn/jpeg_decoder/lpn_setup/driver.hpp:139-161 | `GetMOutputX` returns the plane, zero-filled and newly allocated on first use, the same one afterwards; the other planes are untouched |
| JpegOutput.Planes.Release | sims/lpn/jpeg_decoder/lpn_setup/driver.hpp:83-98 | `Reset` frees the three planes and sets them back to null |
| JpegOutput.Planes.Convert | sims/lpn/jpeg_decoder/lpn_setup/driver.hpp:166-232 | `ConvertYUV2RGB` fetches the planes, faults on a zero width, and otherwise paints each plane with its channel and faults exactly when a stored pixel lies past a plane |
| JpegOutput.Planes.PaintBlock | sims/lpn/jpeg_decoder/lpn_setup/driver.hpp:181-231 | the pixel loop leaves each plane painted with its channel and faults exactly when it stored a pixel past a plane |
| JpegOutput.Planes.PaintPixel | sims/lpn/jpeg_decoder/lpn_setup/driver.hpp:194-231 | one pixel stores its clamped value at its offset when it is stored and fits; it is missed exactly when it would be stored past the plane |
| JpegOutput.ExpandChroma | sims/lpn/jpeg_decoder/lpn_setup/driver.hpp:339-373 | `cb_dct_out_x2` and `cr_dct_out_x2` are the upsampled chroma blocks, in two fresh arrays |
| JpegOutput.ExpandQuad | sims/lpn/jpeg_decoder/lpn_setup/driver.hpp:339-373 | loop `q` fills entries `64q .. 64q + 63` with their upsampled samples and keeps the entries before them |
| JpegOutput.BlockRaws | sims/lpn/jpeg_decoder/lpn_setup/driver.hpp:380-383 | the four calls of an MCU convert four blocks of 64 samples each |
| JpegOutput.PaintBlocks | sims/lpn/jpeg_decoder/lpn_setup/driver.hpp:380-383 | painting the blocks of an MCU keeps the plane's length |
| JpegOutput.PaintBlocksPixels | sims/lpn/jpeg_decoder/lpn_setup/driver.hpp:380-383 | with distinct block numbers, every in-image pixel of the painted blocks holds its own clamped value and every other byte is unchanged |
| JpegOutput.OutputMcu | sims/lpn/jpeg_decoder/lpn_setup/driver.hpp:339-390 | one MCU: the planes fetched, the cursor moved on; it faults on a zero width, and otherwise paints its four blocks and faults exactly when one overruns a plane |
| JpegOutput.ConvertBlocks | sims/lpn/jpeg_decoder/lpn_setup/driver.hpp:380-383 | the four calls paint the four blocks in order and fault exactly when one of them overruns a plane |
| JpegOutput.McuOverrunsStep | sims/lpn/jpeg_decoder/lpn_setup/driver.hpp:380-383 | the first `k + 1` blocks overrun exactly when the first `k` do or block `k` does |
| JpegOutput.ConvertQuad | sims/lpn/jpeg_decoder/lpn_setup/driver.hpp:380-383 | the call for luma block `q` with its quarter of the expanded chroma paints block `q` and faults exactly when it overruns |
| JpegOutput.EmitTokens | sims/lpn/jpeg_decoder/lpn_setup/driver.hpp:432-441 | per block count, one latency token with delay `3 * cnt + 6` is added to `pvarlatency` and one empty token to `ptasks`, in order, stamped with the timestamp; every other place is unchanged |
| JpegSegments.SegmentOf | sims/lpn/jpeg_decoder/lpn_setup/driver.hpp:468-720 | outside the scan a branch is taken exactly for `0xFF` followed by a handled marker; inside it every byte is scan data except SOI, SOF0, DQT, DHT, EOI and SOS markers; RST and APP are taken only for their marker ranges |
| JpegSegments.Sof0Comps | sims/lpn/jpeg_decoder/lpn_setup/driver.hpp:513-525 | a SOF0 holds `num_comps` components, each with its id and sampling byte read from its triple |
| JpegSegments.Sof0Mode | sims/lpn/jpeg_decoder/lpn_setup/driver.hpp:503-556 | the mode read off a SOF0 segment is monochrome exactly for one component and 4:2:0 exactly for components 1, 2, 3 with sampling bytes `0x22, 0x11, 0x11` |
| JpegScan.Leading | sims/lpn/jpeg_decoder/lpn_setup/driver.hpp:288-333 | the leading run counts the MCUs before the first failing one: all of them decoded, and the next one, if any, failed |
| JpegScan.Taken | sims/lpn/jpeg_decoder/src/func_sim.cc:420-422 | a call turns at most the leading run into pixels, and at most one MCU with `till_end == 0` |
| JpegScan.TakenOkIff | sims/lpn/jpeg_decoder/src/func_sim.cc:265-310 | a call returns false exactly when a failing MCU comes before the end of the input and, with `till_end == 0`, is the first one |
| JpegScan.Advance | sims/lpn/jpeg_decoder/lpn_setup/driver.hpp:384-390 | the cursor never moves back |
| JpegScan.AdvanceAfter | sims/lpn/jpeg_decoder/lpn_setup/driver.hpp:258-259 | a cursor kept across calls stands at the cursor of the total MCU count, however the MCUs were split into calls |
| JpegScan.CursorAsWritten | sims/lpn/jpeg_decoder/src/func_sim.cc:254 | with the shadowing local `loop`, a single call still ends at the kept cursor |
| JpegScan.ShadowedLoopOverdraws | sims/lpn/jpeg_decoder/src/func_sim.cc:254 | with the shadowing local `loop`, three one-MCU calls on a 32-pixel-wide image draw the third MCU over block 4, which the first MCU drew, instead of at block 8 |
| JpegScan.ScanLatencyLength | sims/lpn/jpeg_decoder/lpn_setup/driver.hpp:432-436 | a run of decoded MCUs adds six latency tokens per MCU |
| JpegScan.PaintMcu | sims/lpn/jpeg_decoder/lpn_setup/driver.hpp:380-383 | painting one MCU keeps the plane's length |
| JpegScan.McuTokens | sims/lpn/jpeg_decoder/lpn_setup/driver.hpp:432-441 | one MCU keeps the number of places |
| JpegScan.PaintRun | sims/lpn/jpeg_decoder/lpn_setup/driver.hpp:380-390 | painting a run of MCUs keeps the plane's length |
| JpegScan.RunTokens | sims/lpn/jpeg_decoder/lpn_setup/driver.hpp:427-441 | a run of MCUs keeps the number of places |
| JpegScan.AfterScan | sims/lpn/jpeg_decoder/lpn_setup/driver.hpp:288-441 | a run keeps the three plane lengths and the number of places |
| JpegScan.RunTasks | sims/lpn/jpeg_decoder/lpn_setup/driver.hpp:437-441 | after a run of `k` decoded MCUs `ptasks` has gained `6k` empty tokens, and every place but `ptasks` and `pvarlatency` is unchanged |
| JpegScan.RunLatency | sims/lpn/jpeg_decoder/lpn_setup/driver.hpp:432-436 | after a run `pvarlatency` has gained each MCU's six latency tokens, in decoding order |
| JpegScan.McuFits | sims/lpn/jpeg_decoder/lpn_setup/driver.hpp:223 | planes of at least `w * h` bytes never overrun on a colour MCU |
| JpegScan.RepeatJoin | sims/lpn/jpeg_decoder/lpn_setup/driver.hpp:437-441 | two runs of empty tokens make one run of their total length |
| JpegScan.StepMcu | sims/lpn/jpeg_decoder/src/func_sim.cc:316-418 | one decoded MCU moves the cursor on; it faults on a zero width or on planes too small for the image, and otherwise paints the MCU and hands its tokens to the net |
| JpegScan.LeadingNext | sims/lpn/jpeg_decoder/src/func_sim.cc:265-310 | a decoded MCU right after the leading run extends it |
| JpegScan.ScanExit | sims/lpn/jpeg_decoder/src/func_sim.cc:257-422 | the MCU count at which the loop stops is the count `Taken`, and it returns the matching value |
| JpegScan.ScanMcus | sims/lpn/jpeg_decoder/src/func_sim.cc:257-422 | the MCU loop never hangs; when it returns, the result is `Taken` with its value, the cursor has advanced that far, and the planes and queues are `AfterScan` of that many MCUs |
| JpegScan.Scan420 | sims/lpn/jpeg_decoder/src/func_sim.cc:243-422 | the 4:2:0 `DecodeImage(till_end)` promises the same as the MCU loop, and allocates the planes on first use |
| JpegFuncSim.StopOf | sims/lpn/jpeg_decoder/src/func_sim.cc:674-681 | a `DecodeImage` call ends the run exactly when it does not return |
| JpegFuncSim.MemRange | sims/lpn/jpeg_decoder/src/func_sim.cc:432-435 | a DMA read of `size` bytes gives `size` bytes |
| JpegFuncSim.Fetch | sims/lpn/jpeg_decoder/src/func_sim.cc:432-435 | `GETDATA` copies exactly the requested range of host memory into the buffer at its offset and keeps the rest; a copy past the buffer is the fault |
| JpegFuncSim.SegmentAt | sims/lpn/jpeg_decoder/src/func_sim.cc:461-741 | a SOF0 frame size is below `2^16` on both axes |
| JpegFuncSim.SegmentAtBytes | sims/lpn/jpeg_decoder/src/func_sim.cc:461-741 | the byte loop stops exactly at EOI, SOF2 and an SOS in an unsupported mode; SOF0 asserts exactly for more than three components; DQT and DHT fetch a table; a handled marker goes on past its segment, any other byte at the next one |
| JpegFuncSim.SegmentAtFrame | sims/lpn/jpeg_decoder/src/func_sim.cc:467-555 | SOF0 reads the height and the width as big-endian words and the mode from the component bytes |
| JpegFuncSim.FuncSim.constructor | sims/lpn/jpeg_decoder/src/func_sim.cc:25-55 | static storage starts at zero, with no planes, and the mode unsupported |
| JpegFuncSim.FuncSim.Reset | sims/lpn/jpeg_decoder/src/func_sim.cc:62-96 | `Reset` clears every counter and flag, including the MCU cursor, resets the bit buffer to its default size, frees the planes and empties `ptasks` and `pdone`; the mode is kept |
| JpegFuncSim.FuncSim.ClearStatics | sims/lpn/jpeg_decoder/src/func_sim.cc:62-96 | the counter and flag assignments of `Reset` set every one of them to zero |
| JpegFuncSim.FuncSim.GetSizeOfRGB | sims/lpn/jpeg_decoder/src/func_sim.cc:119-121 | the plane size is 64 bytes per block token and at least the pixel count |
| JpegFuncSim.FuncSim.GetCurRGBOffset | sims/lpn/jpeg_decoder/src/func_sim.cc:123-131 | no `pdone` token gives 0; otherwise, without `int` overflow, `min(256 * tokens, GetSizeOfRGB())` |
| JpegFuncSim.FuncSim.UpdateConsumedRGBOffset | sims/lpn/jpeg_decoder/src/func_sim.cc:138-141 | the consumed offset becomes `len` |
| JpegFuncSim.FuncSim.DecodeImage | sims/lpn/jpeg_decoder/src/func_sim.cc:243-426 | it hangs exactly outside 4:2:0 with `till_end` set and input left; outside 4:2:0 the cursor and planes are unchanged and one pass adds six zero-count tokens; in 4:2:0 it returns `Taken`, moves the cursor that far and adds 6 to `finished` per MCU; a fault needs a zero width or planes too small |
| JpegFuncSim.FuncSim.DecodeOther | sims/lpn/jpeg_decoder/src/func_sim.cc:257-418 | outside 4:2:0 nothing is decoded: no input returns true, `till_end` set with input left hangs, and `till_end == 0` hands the net six zero-count tokens and adds 6 to `finished` |
| JpegFuncSim.FuncSim.Decode420 | sims/lpn/jpeg_decoder/src/func_sim.cc:257-422 | the corrected definition of the func_sim.cc:254 Findings row, not the code as written: the static `loop` is kept across calls with `block_num`, where the source restarts a local `loop` at 0 on every call; in 4:2:0 the call never hangs; on return it gives `Taken` with its value, the cursor has advanced that far, `finished` grew by 6 per MCU, and the planes and queues are `AfterScan` of those MCUs |
| JpegFuncSim.FuncSim.PushChunk | sims/lpn/jpeg_decoder/src/func_sim.cc:657-670 | either all 1536 bytes go in, or the bit buffer refuses a non-zero byte as a marker: `j` ends one short of it and `marker_detected` is set |
| JpegFuncSim.FuncSim.FillChunk | sims/lpn/jpeg_decoder/src/func_sim.cc:655-670 | the fetched chunk is pushed with the same outcomes as `PushChunk` |
| JpegFuncSim.FuncSim.ScanChunk | sims/lpn/jpeg_decoder/src/func_sim.cc:651-683 | a pass moves `i` on by the whole chunk, or ends one short of the marker with `marker_detected` set; it ends the run only at an assert, a hang or a fault |
| JpegFuncSim.FuncSim.DecodeChunk | sims/lpn/jpeg_decoder/src/func_sim.cc:674-681 | a `DecodeImage` call ends the run only when it hangs or faults |
| JpegFuncSim.FuncSim.ScanData | sims/lpn/jpeg_decoder/src/func_sim.cc:648-683 | the scan ends at the end of the input, or at a marker no earlier than one byte before it began, or at an assert, a hang or a fault |
| JpegFuncSim.FuncSim.StartFrame | sims/lpn/jpeg_decoder/src/func_sim.cc:467-555 | SOF0 records the frame size, its token target and its mode, and allocates all three planes |
| JpegFuncSim.FuncSim.Segment | sims/lpn/jpeg_decoder/src/func_sim.cc:461-741 | each kind of segment goes on at its end, records the frame, asserts, fetches a table (a fault past the buffer), runs the scan, or stops |
| JpegFuncSim.FuncSim.Pass | sims/lpn/jpeg_decoder/src/func_sim.cc:446-743 | a pass handles the segment that host memory's bytes at `i` start, and remembers `b` as `last_b` unless the run ends |
| JpegFuncSim.FuncSim.SegmentStart | sims/lpn/jpeg_decoder/src/func_sim.cc:449-456 | the head of a pass takes `b` from host memory at `i` and classifies the segment from the 31 bytes after it |
| JpegFuncSim.FuncSim.DecodeFuncSim | sims/lpn/jpeg_decoder/src/func_sim.cc:437-446 | an empty image finishes with no `DecodeImage` call; the timestamp is the one passed in |
| JpegDriver.LastBefore | sims/lpn/jpeg_decoder/lpn_setup/driver.hpp:269-282 | the byte recorded before a checkpoint is never `0xFF`, and is the byte itself otherwise |
| JpegDriver.DecodedBeforeAll | sims/lpn/jpeg_decoder/lpn_setup/driver.hpp:261-333 | a run that reached MCU `k` went through every earlier MCU, each decoded with the bits not at their end |
| JpegScan.AfterScanNext | sims/lpn/jpeg_decoder/lpn_setup/driver.hpp:288-441 | one more decoded MCU is one more MCU step at the cursor reached so far |
| JpegDriver.RunStateNext | sims/lpn/jpeg_decoder/lpn_setup/driver.hpp:261-441 | decoding MCU `k` with the bits not at their end, painting it and handing it to the net takes the loop's state one MCU further |
| JpegDriver.RanForUnique | sims/lpn/jpeg_decoder/lpn_setup/driver.hpp:261-445 | the number of MCUs a call goes through and its result are determined by the decoder's answers and the bit buffer |
| JpegDriver.Exit | sims/lpn/jpeg_decoder/lpn_setup/driver.hpp:468-720 | the parse loop goes on exactly after SOF0, a plain move and SOS |
| JpegDriver.ParseAgreesWithFuncSim | sims/lpn/jpeg_decoder/lpn_setup/driver.hpp:468-720 | with the 31 bytes after the marker in the batch, each marker branch does what the functional simulator's chain does on the same bytes, except that a segment running past the batch is rolled back |
| JpegDriver.FallsOnlyPastBatch | sims/lpn/jpeg_decoder/lpn_setup/driver.hpp:113-117 | a segment wholly inside the batch is never rolled back, and parsing never moves back before `seg_start` |
| JpegDriver.XBlocksOf16 | sims/lpn/jpeg_decoder/lpn_setup/driver.hpp:375-377 | a `16k`-pixel-wide image is `2k` blocks wide |
| JpegDriver.LastMcuEnd | sims/lpn/jpeg_decoder/lpn_setup/driver.hpp:194-197 | for a picture of whole 4:2:0 MCUs the last MCU leaves `rgb_cur_len` at the pixel count, so the whole picture is reported ready |
| JpegDriver.NatProduct | sims/lpn/jpeg_decoder/lpn_setup/driver.hpp:384-390 | a block offset of whole MCU rows is not negative |
| JpegDriver.LastPixel | sims/lpn/jpeg_decoder/lpn_setup/driver.hpp:194-197 | the last pixel of the bottom right block of a `16k` by `16r` picture is its last pixel |
| JpegDriver.RgbCurLenWraps | sims/lpn/jpeg_decoder/lpn_setup/driver.hpp:39 | for a 256 by 256 picture the last MCU sets `rgb_cur_len` to 65536, which its `uint16_t` holds as 0 |
| JpegDriver.StaleCursorOffImage | sims/lpn/jpeg_decoder/lpn_setup/driver.hpp:258-259 | after a whole `16k` by `16r` picture the static cursor starts the next picture's first MCU in pixel row `16r`, below the picture |
| JpegDriver.Driver.constructor | sims/lpn/jpeg_decoder/lpn_setup/driver.hpp:23-56 | static storage starts at zero, with no planes, the mode unsupported, and an empty rollback buffer |
| JpegDriver.Driver.IsCurImgFinished | sims/lpn/jpeg_decoder/lpn_setup/driver.hpp:58-64 | the image is finished exactly when a token target is set and `pdone` holds that many tokens |
| JpegDriver.Driver.GetSizeOfRGB | sims/lpn/jpeg_decoder/lpn_setup/driver.hpp:122-124 | the plane size is the pixel count, at most 64 bytes per block token |
| JpegDriver.Driver.UpdateConsumedRGBOffset | sims/lpn/jpeg_decoder/lpn_setup/driver.hpp:135-137 | the consumed offset becomes `len` |
| JpegDriver.Driver.Reset | sims/lpn/jpeg_decoder/lpn_setup/driver.hpp:66-99 | every counter and flag is cleared and, unlike the source, the MCU cursor too; the bit buffer goes back to its default size, the planes are freed, `ptasks` and `pdone` are emptied; the mode is kept |
| JpegDriver.Driver.ClearStatics | sims/lpn/jpeg_decoder/lpn_setup/driver.hpp:66-99 | the counter and flag assignments of `Reset` set every one of them to zero, the cursor included |
| JpegDriver.Driver.SafeEof | sims/lpn/jpeg_decoder/lpn_setup/jpeg_bit_buffer.h:131-147 | `eof()` answers as the bit buffer's specification says, and faults exactly when the rollback it triggers would overrun the global buffer |
| JpegDriver.Driver.Need | sims/lpn/jpeg_decoder/lpn_setup/driver.hpp:113-117 | `CHECK_ENOUGH_BUF` is short exactly for an index outside the batch and then saves the tail from the checkpoint; it faults exactly when that tail is longer than the global buffer |
| JpegDriver.Driver.Sof0Segment | sims/lpn/jpeg_decoder/lpn_setup/driver.hpp:473-560 | the SOF0 branch gives `DriverParse`'s outcome; each frame field is stored as soon as its bytes are in the batch; the planes are allocated zeroed once the width is read |
| JpegDriver.Driver.Sof0Size | sims/lpn/jpeg_decoder/lpn_setup/driver.hpp:483-500 | the header is read up to the width exactly when its bytes are in the batch; the height, width, token target and planes are set as they are read |
| JpegDriver.Driver.Sof0Tail | sims/lpn/jpeg_decoder/lpn_setup/driver.hpp:503-560 | the rest of the header gives `DriverParse`'s outcome and sets the mode once the components are read |
| JpegDriver.Driver.TableSegment | sims/lpn/jpeg_decoder/lpn_setup/driver.hpp:564-588 | DQT and DHT give `DriverParse`'s outcome: rolled back unless the whole segment is in the batch, then parsing goes on past it |
| JpegDriver.Driver.SkipSegment | sims/lpn/jpeg_decoder/lpn_setup/driver.hpp:688-720 | DRI, RST, APP and COM give `DriverParse`'s outcome: only the length word must be in the batch |
| JpegDriver.Driver.Sof2Segment | sims/lpn/jpeg_decoder/lpn_setup/driver.hpp:677-687 | SOF2 stops parsing once its length word is in the batch |
| JpegDriver.Driver.SosSegment | sims/lpn/jpeg_decoder/lpn_setup/driver.hpp:600-643 | SOS stops in an unsupported mode; otherwise the scan starts past the segment, with `mcu_start` set and `b`, `last_b` cleared, once the header and the whole segment are in the batch |
| JpegDriver.Driver.Segment | sims/lpn/jpeg_decoder/lpn_setup/driver.hpp:468-720 | a marker branch ends the loop only at EOI, SOF2 or an unsupported SOS, and never moves back before `seg_start` |
| JpegDriver.Driver.ParseSegment | sims/lpn/jpeg_decoder/lpn_setup/driver.hpp:468-720 | each marker branch gives `DriverParse`'s outcome; only SOF0 touches the frame statics and only SOS starts the scan |
| JpegDriver.Driver.OtherSegment | sims/lpn/jpeg_decoder/lpn_setup/driver.hpp:564-720 | the remaining branches give `DriverParse`'s outcome and never start the scan |
| JpegDriver.Driver.ScanPush | sims/lpn/jpeg_decoder/lpn_setup/driver.hpp:644-673 | the push loop stops at the end or before a marker, and the bytes the bit buffer kept are copied back over the batch from `i0`, the rest of it unchanged |
| JpegDriver.Driver.ScanReset | sims/lpn/jpeg_decoder/lpn_setup/driver.hpp:648-652 | the bit buffer is emptied with the batch's length, points at the batch from `i0`, and takes over the saved read offset |
| JpegDriver.Driver.ScanLoop | sims/lpn/jpeg_decoder/lpn_setup/driver.hpp:654-668 | every byte goes in, or the byte after `i` is refused as a marker with `mcu_start` cleared; the bit buffer keeps at most the bytes pushed |
| JpegDriver.Driver.ScanBytes | sims/lpn/jpeg_decoder/lpn_setup/driver.hpp:644-676 | the scan branch leaves `mcu_start` clear exactly when it stopped at a marker, `decode_done` as the decode's value, and in 4:2:0 a decode that went as far as the decoder's answers and the bits allow |
| JpegDriver.Driver.DecodeScan | sims/lpn/jpeg_decoder/lpn_setup/driver.hpp:675 | `decode_done` is the value of the `DecodeImage` call, which in 4:2:0 never spins |
| JpegDriver.Driver.UpdateLpnState | sims/lpn/jpeg_decoder/lpn_setup/driver.hpp:449-739 | a saved tail too long for the global buffer crashes; stopping happens only at EOI, SOF2 or an unsupported SOS; a rollback leaves the batch's tail from the checkpoint saved, and before any scan that batch is the saved bytes followed by the new ones |
| JpegDriver.Driver.ParseLoop | sims/lpn/jpeg_decoder/lpn_setup/driver.hpp:454-723 | the loop stops only at EOI, SOF2 or an unsupported SOS, and a rollback saves the batch's tail from the checkpoint |
| JpegDriver.Driver.ParseStep | sims/lpn/jpeg_decoder/lpn_setup/driver.hpp:454-722 | one iteration goes on with `last_b` equal to `b`, or leaves the loop at a stop, a rollback, a crash or a hang |
| JpegDriver.Driver.NextByte | sims/lpn/jpeg_decoder/lpn_setup/driver.hpp:458-463 | outside the scan the byte at `i` is checkpointed and read as `b` |
| JpegDriver.Driver.ScanStep | sims/lpn/jpeg_decoder/lpn_setup/driver.hpp:644-676 | the scan branch uses up the next scheduled call, and leaves the loop only on a crash or a hang |
| JpegDriver.Driver.MarkerStep | sims/lpn/jpeg_decoder/lpn_setup/driver.hpp:468-722 | a marker branch goes on no earlier than `seg_start` with `last_b` equal to `b`, or stops, rolls back or crashes |
| JpegDriver.Driver.CheckPoint | sims/lpn/jpeg_decoder/lpn_setup/driver.hpp:269-282 | the checkpoint is the byte the next MCU starts in, with its bit offset and its distance to the data's end; at index 0 or past the data the read of the byte before it is the fault |
| JpegDriver.Driver.ConvertMcu | sims/lpn/jpeg_decoder/lpn_setup/driver.hpp:339-441 | one decoded MCU, planes allocated first: it faults on a zero width or planes too small; otherwise it paints the MCU, moves the cursor, sets `rgb_cur_len` to its end, adds 6 to `finished` and hands its tokens to the net |
| JpegDriver.Driver.ConvertHeld | sims/lpn/jpeg_decoder/lpn_setup/driver.hpp:380-441 | as `ConvertMcu`, once the planes exist, and keeping them |
| JpegDriver.Driver.FetchPlanes | sims/lpn/jpeg_decoder/lpn_setup/driver.hpp:139-161 | fetching the planes allocates the missing ones zeroed, and what each plane holds is unchanged |
| JpegDriver.Driver.DecodeOther | sims/lpn/jpeg_decoder/lpn_setup/driver.hpp:261-445 | outside 4:2:0 the call returns true exactly when the bits are at their end, and otherwise spins |
| JpegDriver.Driver.McuHead | sims/lpn/jpeg_decoder/lpn_setup/driver.hpp:261-333 | an iteration ends the call with true at the end of the bits, with false at a failing MCU (after its checkpoint), or goes on with a decoded MCU |
| JpegDriver.Driver.DecodeImage | sims/lpn/jpeg_decoder/lpn_setup/driver.hpp:237-445 | outside 4:2:0 it returns true exactly at the end of the bits, else spins, and moves nothing; in 4:2:0 it never spins and a return went as far as the decoder's answers and the bits allow |
| JpegDriver.Driver.Decode420 | sims/lpn/jpeg_decoder/lpn_setup/driver.hpp:261-445 | the 4:2:0 loop never spins; its return went as far as the decoder's answers and the bits allow, with the read offset, cursor, `finished`, `rgb_cur_len`, planes and queues those MCUs lead to |
| JpegDriver.Driver.Loop420 | sims/lpn/jpeg_decoder/lpn_setup/driver.hpp:261-441 | the loop from MCU `k` promises the same, from the state where it started |
| JpegDriver.Driver.RunStarts | sims/lpn/jpeg_decoder/lpn_setup/driver.hpp:261 | before its first MCU the loop is in the state it started in |
| JpegDriver.Driver.Iteration | sims/lpn/jpeg_decoder/lpn_setup/driver.hpp:261-441 | one iteration stops the call with a matching result, or takes the run one MCU further |
| JpegDriver.Driver.Step | sims/lpn/jpeg_decoder/lpn_setup/driver.hpp:288-441 | a decoded MCU that does not fault takes the run one MCU further |
| JpegDriver.Driver.DecodeMcu | sims/lpn/jpeg_decoder/lpn_setup/driver.hpp:288-441 | the MCU's bits are read, and without a fault it is painted at the old cursor as in `ConvertMcu` |
| Axi.NewOp | lib/simbricks/rtl/axi/axi.cc:47-50 | a valid address beat creates an operation of `2^size`-byte beats and `2^size * (len + 1)` bytes, at its address and id, with offset 0 and a buffer of its length |
| Axi.BeatBytes | lib/simbricks/rtl/axi/axi.cc:93-95 | a beat carries at least one byte and at most one beat's worth, and never runs past the end of the data port (the writer computes the same at lines 201-207) |
| Axi.DistinctAppend | lib/simbricks/rtl/axi/axi.cc:174-182 | appending a burst whose id is not pending keeps the pending ids distinct |
| Axi.DistinctReplaceHead | lib/simbricks/rtl/axi/axi.cc:193-222 | updating or dropping the oldest pending burst keeps the pending ids distinct |
| Axi.CarriedOff | lib/simbricks/rtl/axi/axi.cc:77-98 | after at least one beat the offset has moved on (the writer advances likewise at line 210) |
| Axi.AlignedBurstOffsets | lib/simbricks/rtl/axi/axi.cc:77-98 | a burst starting on a beat boundary, with the port a whole number of beats, advances a full beat every time (the writer advances likewise at line 210) |
| Axi.AlignedLaneRoom | lib/simbricks/rtl/axi/axi.cc:94-95 | a beat-aligned address leaves at least a beat of room on the port |
| Axi.AlignedBurstLast | lib/simbricks/rtl/axi/axi.cc:78-99 | for an aligned burst the offset reaches the operation's length on beat `len + 1` and on no other beat (the writer tests the same at line 215) |
| Axi.BeatsDetermineLength | lib/simbricks/rtl/axi/axi.cc:50 | `k` beats of a size make `n` beats' worth iff `k == n` |
| Axi.UnalignedNeverLast | lib/simbricks/rtl/axi/axi.cc:94-99 | with a 4-byte port, 4-byte beats and address 2, the offset after `k` beats is `4k - 2` |
| Axi.UnalignedBurstMissesLast | lib/simbricks/rtl/axi/axi.cc:78-99 | that unaligned burst never reaches the operation's length, so `last` is never raised and a write never completes (the writer tests the same at line 215) |
| Axi.IntendedBeatBytes | lib/simbricks/rtl/axi/axi.cc:94-95 | the corrected beat ends on the next beat boundary: between 1 and a beat's worth of bytes |
| Axi.IntendedLen | lib/simbricks/rtl/axi/axi.cc:50 | the corrected length of an unaligned burst is `len + 1` beats less the start's misalignment |
| Axi.IntendedOffsets | lib/simbricks/rtl/axi/axi.cc:98 | in the corrected burst the offset after `k >= 1` beats is `k * step - addr % step` |
| Axi.IntendedBurstLast | lib/simbricks/rtl/axi/axi.cc:99 | the corrected burst reaches its length on beat `len + 1` exactly, from any start address |
| Axi.FullWidthBeats | lib/simbricks/rtl/axi/axi.cc:93-95 | on a port exactly one beat wide, the beat sizes as written are the corrected ones |
| Axi.LaterBeatLanes | lib/simbricks/rtl/axi/axi.cc:96 | a later read beat is driven from lane 0, leaving the other lanes |
| Axi.NarrowSecondBeatOnLaneZero | lib/simbricks/rtl/axi/axi.cc:94-96 | over an 8-byte port, the second 4-byte beat of a burst from address 0 is not on lanes 4..8 where its address puts it |
| Axi.IntendedBeatLanes | lib/simbricks/rtl/axi/axi.cc:72-96 | the corrected placement drives a beat on the lanes of its own address, over a port-wide data bus |
| Axi.IntendedLaneOfByte | lib/simbricks/rtl/axi/axi.cc:72-96 | in the corrected placement the byte at address `x` travels on lane `x % db` |
| AxiMisc.NewOpWholeBeats | sims/misc/jpeg_decoder/axi.cc:46-49 | every operation a burst address creates is non-empty and a whole number of beats long, at offset 0 (the writer creates its operations the same way at lines 166-168) |
| AxiMisc.WholeReplaceHead | sims/misc/jpeg_decoder/axi.cc:204-215 | dropping the oldest pending burst, or replacing it by an unfinished whole-beat one, keeps the queue whole-beat and unfinished |
| AxiMisc.BeatFits | sims/misc/jpeg_decoder/axi.cc:74-95 | a whole-beat offset short of a whole-beat length leaves room for a full beat and stays whole-beat (and in the writer at line 204) |
| AxiMisc.WholeBeatsLast | sims/misc/jpeg_decoder/axi.cc:75-96 | advancing a full beat each time, `last` comes on beat `len + 1` and no other, from any start address (and in the writer at line 208) |
| AxiMisc.MiscAxiReader.constructor | sims/misc/jpeg_decoder/axi.cc:32-34 | a fresh reader has nothing pending and nothing in flight |
| AxiMisc.MiscAxiReader.ReadDone | sims/misc/jpeg_decoder/axi.cc:110-120 | a filled operation joins the back of the pending queue |
| AxiMisc.MiscAxiReader.Beat | sims/misc/jpeg_decoder/axi.cc:67-104 | a beat never reads past the buffer; the first is driven on the lanes of the address and later ones from lane 0; the offset advances a full beat, and `last` is raised exactly at the length |
| AxiMisc.MiscAxiReader.StartNext | sims/misc/jpeg_decoder/axi.cc:57-84 | the front pending operation goes in flight with its id and `valid`, `last` at once iff it is one beat long |
| AxiMisc.MiscAxiReader.Step | sims/misc/jpeg_decoder/axi.cc:36-108 | the address channel is always ready and only a non-INCR burst fails; operations start in order, advance only when the design is ready, and idling lowers only `valid` |
| AxiMisc.MiscAxiWriter.constructor | sims/misc/jpeg_decoder/axi.cc:122-125 | a fresh writer has no bursts, no responses and no pause |
| AxiMisc.MiscAxiWriter.WriteDone | sims/misc/jpeg_decoder/axi.cc:222-228 | a written burst's response joins the back of the completed queue |
| AxiMisc.MiscAxiWriter.Respond | sims/misc/jpeg_decoder/axi.cc:134-155 | a taken response is retired, then the oldest completed write's id goes out, in the order writes were reported done |
| AxiMisc.MiscAxiWriter.AcceptAddr | sims/misc/jpeg_decoder/axi.cc:157-180 | a valid INCR burst with a new id joins the pending bursts; another burst type or a duplicate id aborts |
| AxiMisc.MiscAxiWriter.AcceptData | sims/misc/jpeg_decoder/axi.cc:182-219 | a valid beat fills the oldest pending burst and advances it a full beat; nothing pending, or the final beat without `last`, aborts; the final beat hands the burst on |
| AxiMisc.MiscAxiWriter.Step | sims/misc/jpeg_decoder/axi.cc:127-220 | before `suspend_until` nothing happens; a burst handed on is complete and pauses the writer for `16 * (1000000 / 150)` time units |
| AxiRtl.OpenReplaceHead | lib/simbricks/rtl/axi/axi.cc:208-224 | dropping the oldest pending burst, or replacing it by an unfinished one, keeps every pending burst unfinished |
| AxiRtl.Zeros | lib/simbricks/rtl/axi/axi.cc:111 | `n` zero bytes |
| AxiRtl.AcceptBurst | lib/simbricks/rtl/axi/axi.cc:158-168 | a valid INCR address beat yields its new operation; another burst type fails the assertion; no beat, no operation (the reader does the same at lines 40-50) |
| AxiRtl.AxiReader.constructor | lib/simbricks/rtl/axi/axi.hh:155-174 | a fresh reader has nothing pending and nothing in flight |
| AxiRtl.AxiReader.ReadDone | lib/simbricks/rtl/axi/axi.cc:116-129 | a filled operation joins the back of the pending queue |
| AxiRtl.AxiReader.StartResponse | lib/simbricks/rtl/axi/axi.cc:59-87 | the front pending operation starts: its first beat goes out on the lanes of its address with its id, `last` exactly when that beat completes it, and a beat past the buffer fails |
| AxiRtl.AxiReader.NextBeat | lib/simbricks/rtl/axi/axi.cc:88-107 | a later beat sends the next bytes of the buffer from lane 0, advances the offset by them, and raises `last` exactly at the length |
| AxiRtl.AxiReader.Step | lib/simbricks/rtl/axi/axi.cc:37-114 | the address channel is always ready; a new operation starts when nothing is in flight, the one in flight advances only when the design is ready, and an idle channel is driven to zero; pending operations are served in order |
| AxiRtl.FindId | lib/simbricks/rtl/axi/axi.cc:174-177 | the scan finds an id iff some pending burst has it |
| AxiRtl.AxiWriter.constructor | lib/simbricks/rtl/axi/axi.hh:176-197 | a fresh writer has no bursts and no responses |
| AxiRtl.AxiWriter.WriteDone | lib/simbricks/rtl/axi/axi.cc:228-234 | a written burst's response joins the back of the completed queue |
| AxiRtl.AxiWriter.Respond | lib/simbricks/rtl/axi/axi.cc:134-155 | a response the design has taken is retired; then the oldest completed write's id goes out, so responses follow the order writes were reported done |
| AxiRtl.AxiWriter.AcceptAddr | lib/simbricks/rtl/axi/axi.cc:157-183 | a valid INCR burst whose id is not pending joins the back of the pending bursts; another burst type or a duplicate id aborts |
| AxiRtl.AxiWriter.AcceptData | lib/simbricks/rtl/axi/axi.cc:185-225 | a valid beat fills the oldest pending burst at its offset from the lanes of its address; past the length, or at the length without `last`, aborts; at the length with `last` the burst leaves for writing |
| AxiRtl.AxiWriter.Step | lib/simbricks/rtl/axi/axi.cc:131-226 | the response, address and data channels in that order, keeping distinct pending ids and ordered responses; a burst handed on is complete and ended with `last` |
| LpnEngine.Lpn.TriggerNext | sims/lpn/lpn_common/lpn_sim.hh:4-7 | one round of `LOOP_TS(trigger(t))` extends the triggered prefix of the list by one transition |
| LpnEngine.Lpn.SyncNext | sims/lpn/lpn_common/lpn_sim.cc:13-16 | one round of `CommitAtTime` extends the synced prefix of the list by one transition, in transitions and marking alike |
| LpnEngine.ConflictingIsShared | sims/lpn/lpn_common/place_transition.cc:161-182 | a transition that writes a listed place another listed transition writes appears in a writer list of two or more |
| LpnEngine.SharedIsConflicting | sims/lpn/lpn_common/place_transition.cc:161-182 | a transition in a writer list of two or more writes a listed place another listed transition writes |
| VtaNet.T13Conserves | sims/lpn/vta/lpn_def/transitions.hh:8-16 | t13 preserves the four unit counts |
| JpegNet.T0Conserves | sims/lpn/jpeg_decoder/lpn_def/transitions.hh:15-22 | t0 keeps `p7 + p8`, `p0 + p4` and `p20 + p21 + 4*p22`, and leaves `pdone` unchanged |
| JpegNet.T1Conserves | sims/lpn/jpeg_decoder/lpn_def/transitions.hh:6-13 | t1 keeps the same three sums and `pdone` |
| JpegNet.T2Conserves | sims/lpn/jpeg_decoder/lpn_def/transitions.hh:62-70 | t2 keeps the same three sums and `pdone` |
| JpegNet.T3Conserves | sims/lpn/jpeg_decoder/lpn_def/transitions.hh:52-60 | t3 keeps the same three sums and `pdone` |
| JpegNet.T4Conserves | sims/lpn/jpeg_decoder/lpn_def/transitions.hh:42-50 | t4 keeps the same three sums and `pdone` |
| JpegNet.T5Conserves | sims/lpn/jpeg_decoder/lpn_def/transitions.hh:24-31 | t5 keeps the same three sums and `pdone` |
| VtaSetup.LeadingDigits | sims/lpn/vta/lpn_def/setup.hpp:22 | the digits `atoi` reads are the longest all-digit prefix: the next character, if any, is not a digit |
| VtaSetup.SkipSpaces | sims/lpn/vta/lpn_def/setup.hpp:22 | the white space `atoi` skips is a prefix, and what is left starts with no white space |
| VtaSetup.SplitFrom | sims/lpn/vta/lpn_def/setup.hpp:48-53 | the field loop yields at least one field |
| VtaSetup.SplitsAtComma | sims/lpn/vta/lpn_def/setup.hpp:49-51 | at a comma both the loop's split and the plain split take the field before it and continue after it |
| VtaSetup.LastFieldTruncated | sims/lpn/vta/lpn_def/setup.hpp:53 | with no comma left the loop's final field is the plain final field cut to at most `last + 1` characters |
| VtaSetup.SplitStep | sims/lpn/vta/lpn_def/setup.hpp:49-52 | one round of the comma loop pushes the field before the comma and moves `last` past it |
| VtaSetup.CollectStep | sims/lpn/vta/lpn_def/setup.hpp:54-69 | a line that parses, with no earlier abort, appends exactly its token |
| VtaReqMap.ScanStarts | sims/lpn/vta/include/lpn_req_map.hh:110-151 | the scan invariant holds before the first request |
| VtaReqMap.ScanSkips | sims/lpn/vta/include/lpn_req_map.hh:122-147 | a request that is incomplete or misses the window is skipped and the invariant holds for the next index |
| VtaReqMap.ScanErases | sims/lpn/vta/include/lpn_req_map.hh:122-147 | copying from a complete request inside the window and erasing it keeps the invariant at the same index |
| VtaReqMap.ScanStops | sims/lpn/vta/include/lpn_req_map.hh:122-147 | a complete overlapping request outside the window ends the match as failed; one inside that completes the window ends it as successful with that request erased |
| VtaReqMap.ScanEnds | sims/lpn/vta/include/lpn_req_map.hh:110-151 | a scan that reaches the end of the list succeeds with the current window and list |
| VtaCompute.RunStep | sims/lpn/vta/src/func_sim.cc:572-597 | one micro-op replaces the accumulator as the one-step specification says |
| VtaCompute.RunNext | sims/lpn/vta/src/func_sim.cc:571-598 | a run that has made some steps, after one more, equals the specification applied to the longer step list |
| VtaCompute.RunUops | sims/lpn/vta/src/func_sim.cc:571-598 | the micro-op loop of iteration `(y, x)` applies its steps, `uop_bgn` up to `uop_end`, after those already made |
| VtaCompute.RunCols | sims/lpn/vta/src/func_sim.cc:570-599 | the `x` loop of outer iteration `y` applies every step of that row in loop order |
| VtaCompute.ApplySnoc | sims/lpn/vta/src/func_sim.cc:569-600 | applying one more step is one step on the result so far |
| VtaCompute.UopStepsMembers | sims/lpn/vta/src/func_sim.cc:571 | the micro-op loop visits exactly the steps of iteration `(y, x)` with `uop_bgn <= u < e` |
| VtaCompute.ColStepsMembers | sims/lpn/vta/src/func_sim.cc:570-571 | the `x` loop visits exactly the steps of row `y` with `x` below the bound and every micro-op index |
| VtaCompute.RowStepsMembers | sims/lpn/vta/src/func_sim.cc:569-571 | the three loops up to row `r` visit exactly the steps with `y < r` |
| VtaCompute.GemmLastUpdate | sims/lpn/vta/src/func_sim.cc:585-597 | with distinct destinations, the last micro-op's destination ends as one GEMM update of its original value |
| VtaCompute.AluLastUpdate | sims/lpn/vta/src/func_sim.cc:670-690 | with distinct destinations and fresh sources, the last micro-op's destination ends as one ALU update of its original values |
| VtaSram.StoreRow | sims/lpn/vta/src/func_sim.cc:260-267 | the `x` loop of row `y` leaves the buffer as the row's store specification says |
| VtaSram.StoreElement | sims/lpn/vta/src/func_sim.cc:263-266 | the lane loop of element `(y, x)` leaves the buffer as the element's store specification says |
| VtaSram.LanesGet | sims/lpn/vta/src/func_sim.cc:263-266 | once `n` lanes are stored, lane `i < n` holds the accumulator lane narrowed to the target width |
| VtaSram.LanesKeep | sims/lpn/vta/src/func_sim.cc:263-266 | storing an element's lanes leaves every earlier lane of the buffer unchanged |
| VtaSram.ColsGet | sims/lpn/vta/src/func_sim.cc:260-267 | once `n` elements of row `y` are stored, every lane of each of them holds its narrowed value |
| VtaSram.LaterColKeeps | sims/lpn/vta/src/func_sim.cc:260-267 | storing a later element of the row keeps the lanes of an earlier one |
| VtaSram.ColsKeep | sims/lpn/vta/src/func_sim.cc:260-267 | storing the elements of row `y` leaves everything before the row unchanged |
| VtaSram.RowsGet | sims/lpn/vta/src/func_sim.cc:259-268 | with `x_size <= x_stride`, once `n` rows are stored every lane of every element of those rows holds its narrowed value |
| VtaSram.LaterRowKeeps | sims/lpn/vta/src/func_sim.cc:259-268 | with `x_size <= x_stride`, storing a later row keeps every lane of an earlier one |
| VtaIoGen.StoreReqsOneId | sims/lpn/vta/src/io_generator.cc:271-279 | every write of a store carries the store's id |
| VtaIoGen.RunInsnsSnoc | sims/lpn/vta/src/io_generator.cc:418-457 | running one more instruction is one instruction step after the run so far |
| JpegDriver.Driver.ClearSizes | sims/lpn/jpeg_decoder/lpn_setup/driver.hpp:66-99 | the image size, the output lengths, the token count, the timestamp and `finished` are zero |
| JpegDriver.Driver.ClearParse | sims/lpn/jpeg_decoder/lpn_setup/driver.hpp:66-99 | the parser bytes, `decode_done`, the state and the MCU start are cleared, and, unlike the source, the MCU cursor too |
| JpegFuncSim.FuncSim.ClearSizes | sims/lpn/jpeg_decoder/src/func_sim.cc:62-96 | the image size, the consumed length, the token count, the timestamp and `finished` are zero |
| JpegFuncSim.FuncSim.ClearParse | sims/lpn/jpeg_decoder/src/func_sim.cc:62-96 | the parser bytes, `decode_done`, the state, the MCU start and the MCU cursor are cleared |
| ResultsJpeg.DumpOfLocated | results/jpeg_decoder.py:42-73 | once the dump window is found, the payload is its lines, each passed through `edit_line` |
| ResultsTvm.RenderFromStep | results/tvm_detect.py:55-57 | one host read forwards either adds its figure and goes on, or ends the loop with its error message |
| GcdSw.DividesDiff | sims/misc/gcd/gcd_sw_workload.cc:34-38 | a common divisor of two numbers divides their difference, and conversely with the smaller one |
| GcdSw.StepKeepsDivisors | sims/misc/gcd/gcd_sw_workload.cc:34-38 | one iteration (the larger operand loses the smaller) keeps exactly the same common divisors |
| GcdSw.StepDecreases | sims/misc/gcd/gcd_sw_workload.cc:33-39 | with both operands positive an iteration keeps them positive and strictly lowers their sum, so the loop ends |
| GcdSw.EqualOperands | sims/misc/gcd/gcd_sw_workload.cc:33-40 | when the loop stops at equal operands, the operand is the greatest common divisor of the inputs |
| GcdSw.SwGcd | sims/misc/gcd/gcd_sw_workload.cc:32-41 | the result is a 16-bit value; equal inputs come back at once; for positive inputs it is their greatest common divisor and no larger than either |
| GcdSw.GcdBounds | sims/misc/gcd/gcd_sw_workload.cc:32-41 | the gcd of two positive inputs is positive and at most either |
| GcdSw.DivisorBound | sims/misc/gcd/gcd_sw_workload.cc:32-41 | a divisor of a positive number is no larger than it |
| GcdSw.OneZeroNeverEnds | sims/misc/gcd/gcd_sw_workload.cc:33-38 | with exactly one operand 0, every number of iterations leaves both operands unchanged and unequal: the loop never ends |
| GcdVerilator.WithOutputs | sims/misc/gcd/gcd_verilator.cc:70-74 | the output fields are refreshed from the chip, `resp_msg` as a little-endian 16-bit field, and every other byte stays |
| GcdVerilator.ReadCopy | sims/misc/gcd/gcd_verilator.cc:190-197 | the copy as written takes the bytes from `offset` up to the absolute byte `min(13 - offset, len)`, never more than `len` |
| GcdVerilator.Copied | sims/misc/gcd/gcd_verilator.cc:224-231 | the write copies `min(13 - offset, len)` payload bytes when `offset` lies inside the state and none otherwise: never more than the payload or the state, all of an in-bounds payload |
| GcdVerilator.WriteCopy | sims/misc/gcd/gcd_verilator.cc:224-231 | the copy as written puts the first `Copied(offset, len)` payload bytes at the start of the state, whatever the offset, and keeps every byte after them |
| GcdVerilator.ReadPayload | sims/misc/gcd/gcd_verilator.cc:184-200 | the read completion carries `len` bytes: the bytes the copy as written puts at its front, then the ones it does not reach, 0 in the model |
| GcdVerilator.ReadCopyExactIff | sims/misc/gcd/gcd_verilator.cc:190-197 | within bounds, the read as written returns the addressed bytes iff it starts at byte 0 or is empty |
| GcdVerilator.WriteCopyExactIff | sims/misc/gcd/gcd_verilator.cc:224-231 | within bounds, a write aimed at byte 0 or empty stores what a write at its offset stores |
| GcdVerilator.WrappedAccessPasses | sims/misc/gcd/gcd_verilator.cc:174-202 | an 8-byte access at offset `2^64 - 4` passes the 64-bit check (the sum wraps to 4; the write's check at line 212 is the same) although it lies past the state: the read is answered with eight bytes the copy never reaches, and a write copies nothing |
| GcdVerilator.ReadMissesReqMsg | sims/misc/gcd/gcd_verilator.cc:190-197 | a read of the 32-bit `req_msg` input (bytes 4 to 7) returns none of it, while the intended read returns those four bytes |
| GcdVerilator.CtrlWriteLandsOnReqVal | sims/misc/gcd/gcd_verilator.cc:224-233 | a one-byte write of the tracing control byte sets `req_val` (byte 0) and leaves the control byte, while the intended write sets the control byte |
| GcdVerilator.GcdVerilatorSim.constructor | sims/misc/gcd/gcd_verilator.cc:60-68 | the zero-initialised state with tracing off and no file opened |
| GcdVerilator.GcdVerilatorSim.ApplyCtrlChanges | sims/misc/gcd/gcd_verilator.cc:150-165 | tracing follows the control byte, and the trace history stays well formed |
| GcdVerilator.GcdVerilatorSim.H2DRead | sims/misc/gcd/gcd_verilator.cc:167-203 | a read succeeds iff on BAR 0 and its end, `offset + len` taken modulo 2^64 as the uint64 sum is, lies within the 13-byte state; then the outputs are refreshed and one read completion carries the request's id and the `len` bytes of `ReadPayload`; otherwise nothing changes |
| GcdVerilator.GcdVerilatorSim.H2DWrite | sims/misc/gcd/gcd_verilator.cc:205-244 | a write succeeds iff on BAR 0 and its end, taken modulo 2^64 as the uint64 sum is, lies within the state (so a wrapped offset past the state succeeds too); then the payload is copied as written, tracing follows the control byte, and a non-posted write gets one completion with its id; otherwise nothing changes |
| GcdVerilator.GcdVerilatorSim.PollH2D | sims/misc/gcd/gcd_verilator.cc:246-285 | no message is success; a read or write succeeds exactly when its handler's 64-bit wrapping bounds check passes, and a failed one is left unconsumed; TERMINATE sets `exiting`; other types are consumed with no effect |
| JpegBm.TotalLen | sims/lpn/jpeg_decoder/jpeg_decoder_bm.cc:101-142 | the image length is the low 24 bits of `ctrl`: below 2^24 and equal to `ctrl` when `ctrl` fits |
| JpegBm.ChunksTile | sims/lpn/jpeg_decoder/jpeg_decoder_bm.cc:142-152 | the reads from any point up to the image length cover the rest exactly once, in chunks of 1 to 16 bytes, each starting where the last ended (with the length set up at lines 100-104) |
| JpegBm.TilesWithin | sims/lpn/jpeg_decoder/jpeg_decoder_bm.cc:142-152 | a plan that covers a range exactly stays inside it and carries its length in bytes |
| JpegBm.ChunkDma | sims/lpn/jpeg_decoder/jpeg_decoder_bm.cc:222-229 | a chunk becomes a DMA write at the base plus its offset (64-bit), of its length, carrying those bytes of the buffer, not marked last |
| JpegBm.WriteDmas | sims/lpn/jpeg_decoder/jpeg_decoder_bm.cc:221-231 | one DMA write per chunk |
| JpegBm.WriteDmasCons | sims/lpn/jpeg_decoder/jpeg_decoder_bm.cc:221-231 | the DMA writes follow the chunks in order |
| JpegBm.FitsCons | sims/lpn/jpeg_decoder/jpeg_decoder_bm.cc:229 | a plan stays inside a buffer iff its first chunk and the rest do |
| JpegBm.FreshImageHalfWritten | sims/lpn/jpeg_decoder/jpeg_decoder_bm.cc:206-223 | with nothing consumed yet, the write loop as written covers `[0, bytes_to_write)`, counting pixels as bytes |
| JpegBm.FreshImageWritesHalf | sims/lpn/jpeg_decoder/jpeg_decoder_bm.cc:206-231 | for a fresh image of `n` pixels the writes carry `n` bytes, fewer than the `2n` bytes of packed pixels |
| JpegBm.LastChunkOverruns | sims/lpn/jpeg_decoder/jpeg_decoder_bm.cc:221-229 | after 256 pixels consumed and 4 new, the one chunk written is 16 bytes, past the 8-byte buffer it copies from and past the new data |
| JpegBm.IntendedWriteDmas | sims/lpn/jpeg_decoder/jpeg_decoder_bm.cc:206-231 | the intended write-back: the packed bytes, twice the pixel count, covered exactly once in chunks inside the buffer, at `dst` plus twice the pixels consumed |
| JpegBm.Pack565 | sims/lpn/jpeg_decoder/jpeg_decoder_bm.cc:213-217 | a packed pixel is a 16-bit value with the top 5 bits of red in bits 0-4, the top 6 of green in bits 5-10 and the top 5 of blue in bits 11-15 |
| JpegBm.Packed | sims/lpn/jpeg_decoder/jpeg_decoder_bm.cc:211-218 | pixel `i` of the result packs pixel `from + i` of the three planes |
| JpegBm.PixelBytes | sims/lpn/jpeg_decoder/jpeg_decoder_bm.cc:227-228 | the byte view of the `uint16_t` array is twice as long |
| JpegBm.PixelBytesLayout | sims/lpn/jpeg_decoder/jpeg_decoder_bm.cc:227-228 | pixel `k` is stored low byte first at bytes `2k` and `2k + 1` |
| JpegBm.PackPixels | sims/lpn/jpeg_decoder/jpeg_decoder_bm.cc:207-218 | the packing loop fills a fresh array with exactly the packed pixels, each a 16-bit value |
| JpegBm.SplitWrites | sims/lpn/jpeg_decoder/jpeg_decoder_bm.cc:220-231 | the split loop issues one DMA per chunk of the loop as written, and succeeds iff every chunk stays inside the packed bytes |
| JpegBm.PackAndSplit | sims/lpn/jpeg_decoder/jpeg_decoder_bm.cc:206-231 | the new pixels are packed and split into at least one DMA, exactly the plan's writes when it fits in twice the new pixel count |
| JpegBm.MarkLast | sims/lpn/jpeg_decoder/jpeg_decoder_bm.cc:236-237 | only the last DMA changes, and it is marked as the last block |
| JpegBm.Settle | sims/lpn/jpeg_decoder/jpeg_decoder_bm.cc:111-113 | a write that does not start decoding leaves the start bit clear, `isBusy` as before, and `src` and `dst` as written |
| JpegBm.JpegDecoderBm.constructor | sims/lpn/jpeg_decoder/jpeg_decoder_bm.cc:24 | the static model starts with zeroed registers, nothing read and nothing issued |
| JpegBm.JpegDecoderBm.RegRead | sims/lpn/jpeg_decoder/jpeg_decoder_bm.cc:64-77 | a read answers iff on BAR 0 and within the 16 register bytes, with the bytes at `addr` |
| JpegBm.JpegDecoderBm.RegWrite | sims/lpn/jpeg_decoder/jpeg_decoder_bm.cc:79-114 | a write is accepted iff on BAR 0 and within the registers; it starts decoding iff the device was idle, the start bit was clear and the write sets it, and then sets `isBusy` and reads the first chunk of the image at `src`; any other write is settled |
| JpegBm.JpegDecoderBm.FetchNext | sims/lpn/jpeg_decoder/jpeg_decoder_bm.cc:141-154 | while fewer than the image length are requested, the next chunk of the plan is read at `src + BytesRead_` and the rest of the plan goes on from the new count |
| JpegBm.JpegDecoderBm.MaybeSchedule | sims/lpn/jpeg_decoder/jpeg_decoder_bm.cc:122-198 | the next commit time may not precede the current time, and an event is scheduled iff the net has one and nothing is scheduled at or before it |
| JpegBm.JpegDecoderBm.WriteComplete | sims/lpn/jpeg_decoder/jpeg_decoder_bm.cc:157-163 | the completion of the block marked last clears `isBusy`; any other changes nothing |
| JpegBm.JpegDecoderBm.WriteBack | sims/lpn/jpeg_decoder/jpeg_decoder_bm.cc:200-242 | new pixels are written iff there are some past the consumed offset; the chunks of the loop as written go out when they fit, the last marked when the image is finished, and the image size must then match |
| JpegBm.JpegDecoderBm.WriteNewPixels | sims/lpn/jpeg_decoder/jpeg_decoder_bm.cc:206-240 | the new pixels are packed and written from `base`; an overrunning chunk aborts with nothing issued |
| JpegVerilator.RegsRead | sims/misc/jpeg_decoder/jpeg_decoder_verilator.cc:183-189 | `len` bytes: the register bytes at `offset` when they lie inside the block, as `RegisterFile.Read` gives them; zeros for an access past it |
| JpegVerilator.RegsWrite | sims/misc/jpeg_decoder/jpeg_decoder_verilator.cc:225-226 | inside the block the payload lands at `offset` as `RegisterFile.Write` says; an access past it leaves the registers as they were |
| JpegVerilator.WrappedBarOnePasses | sims/misc/jpeg_decoder/jpeg_decoder_verilator.cc:177 | a two-byte BAR 1 access at offset `2^64 - 1` passes the 64-bit check (the sum wraps to 1; the write's check at line 219 is the same) although it lies wholly past the register byte |
| JpegVerilator.WriteValue | sims/misc/jpeg_decoder/jpeg_decoder_verilator.cc:210-211 | the value `h2d_write` hands on is below 2^64: the first `min(len, 8)` payload bytes, little-endian |
| JpegVerilator.LeNatLowWord | sims/misc/jpeg_decoder/jpeg_decoder_verilator.cc:210-211 | modulo 2^32, the little-endian value of four or more bytes is the 32-bit field of the first four |
| JpegVerilator.WriteValueIsFirstWord | sims/misc/jpeg_decoder/jpeg_decoder_verilator.cc:210-215 | a register write of at least four bytes queues the payload's first 32-bit little-endian word |
| JpegVerilator.MmioReadData | sims/misc/jpeg_decoder/jpeg_decoder_verilator.cc:478 | the read completion carries `min(len, 4)` bytes, and for `len >= 4` they read back as the 32-bit value |
| JpegVerilator.ReadcompFill | sims/misc/jpeg_decoder/jpeg_decoder_verilator.cc:249-251 | the completion's bytes become the first `len` bytes of the operation's buffer; address, length, id and buffer size stay |
| JpegVerilator.JpegVerilatorSim.constructor | sims/misc/jpeg_decoder/jpeg_decoder_verilator.cc:55-70 | registers zeroed, tracing off, nothing sent or consumed, empty MMIO, reader and writer queues |
| JpegVerilator.JpegVerilatorSim.ApplyCtrlChanges | sims/misc/jpeg_decoder/jpeg_decoder_verilator.cc:145-162 | tracing follows the register: a new numbered trace opens only on a rising edge and closes only on a falling one, and the trace log stays well formed |
| JpegVerilator.JpegVerilatorSim.H2DRead | sims/misc/jpeg_decoder/jpeg_decoder_verilator.cc:164-200 | succeeds exactly for BAR 0, or BAR 1 when `offset + len` taken modulo 2^64 lies within the register block; BAR 0 appends one MMIO read to the queue, BAR 1 sends one completion with the `RegsRead` bytes, a failure sends nothing |
| JpegVerilator.JpegVerilatorSim.H2DWrite | sims/misc/jpeg_decoder/jpeg_decoder_verilator.cc:202-245 | succeeds exactly for BAR 0, or BAR 1 when the end taken modulo 2^64 lies within the register block; BAR 0 queues an MMIO write of the payload's value, BAR 1 stores `RegsWrite` and retoggles tracing; only a successful non-posted write gets a completion |
| JpegVerilator.JpegVerilatorSim.H2DReadcomp | sims/misc/jpeg_decoder/jpeg_decoder_verilator.cc:247-254 | the filled operation is appended to the reader's completed reads |
| JpegVerilator.JpegVerilatorSim.DoRead | sims/misc/jpeg_decoder/jpeg_decoder_verilator.cc:406-432 | succeeds exactly when the completion fits a message; then one host read of the operation's address and length is sent, otherwise nothing |
| JpegVerilator.JpegVerilatorSim.DoWrite | sims/misc/jpeg_decoder/jpeg_decoder_verilator.cc:434-462 | succeeds exactly when the write fits a message; then one host write carrying the buffer is sent and the writer records the operation as done, otherwise neither |
| JpegVerilator.JpegVerilatorSim.MmioDone | sims/misc/jpeg_decoder/jpeg_decoder_verilator.cc:464-486 | a finished read sends one completion with its request id and value bytes; a finished write sends nothing |
| JpegVerilator.JpegVerilatorSim.MmioTick | sims/misc/jpeg_decoder/jpeg_decoder_verilator.cc:464-486 | at most one MMIO operation completes per step, and exactly a completed read adds one message |
| JpegVerilator.JpegVerilatorSim.PollH2D | sims/misc/jpeg_decoder/jpeg_decoder_verilator.cc:262-311 | no message succeeds and consumes nothing; reads and writes succeed exactly as their handlers' 64-bit wrapping checks say; completions, control, sync and unknown types succeed without sending; a message is consumed exactly when handling succeeds; TERMINATE sets `exiting` |
| JpegVerilator.JpegVerilatorSim.Handle | sims/misc/jpeg_decoder/jpeg_decoder_verilator.cc:271-307 | the per-type dispatch of `poll_h2d`: a read or write succeeds exactly for BAR 0 or a BAR 1 access passing the 64-bit wrapping check, a read completion fills its DMA read, every other type succeeds without sending |
| Mmio.LeNat | sims/misc/jpeg_decoder/mmio.cc:47-48 | the little-endian value of `n` bytes copied into the value is below 2^(8n) |
| Mmio.LaneBytes | sims/misc/jpeg_decoder/mmio.cc:48 | the copy at lane `off` takes between 1 and 4 bytes and stays inside the data port (and the write data at line 137) |
| Mmio.MmioInterface.constructor | sims/misc/jpeg_decoder/include/mmio.hh:85-90 | no operation active or waiting; the port widths are the bit widths rounded up to bytes |
| Mmio.MmioInterface.IssueRead | sims/misc/jpeg_decoder/include/mmio.hh:94-105 | one read at the back of the queue, keeping the FIFO and single-active invariant |
| Mmio.MmioInterface.IssueWrite | sims/misc/jpeg_decoder/include/mmio.hh:107-120 | one write at the back of the queue, its value truncated to 32 bits |
| Mmio.MmioInterface.ReadStep | sims/misc/jpeg_decoder/mmio.cc:30-62 | a read whose data handshake is done completes and is handed on; otherwise valid data requires the address handshake and fills the value from lane `addr % width`; then the address handshake completes when `arvalid` and `arready` or an earlier acknowledgement hold |
| Mmio.MmioInterface.ReadAddrHandshake | sims/misc/jpeg_decoder/mmio.cc:53-62 | the read address handshake completes, lowering `arvalid`, exactly when `arvalid` and `arready` or an earlier acknowledgement hold |
| Mmio.MmioInterface.WriteStep | sims/misc/jpeg_decoder/mmio.cc:63-106 | a write whose response handshake is done completes and is handed on; otherwise `bvalid` requires both earlier handshakes and acknowledges the response; then the data and address handshakes follow |
| Mmio.MmioInterface.WriteHandshakes | sims/misc/jpeg_decoder/mmio.cc:82-105 | the data handshake completes first, then the address handshake, which raises `wvalid` and takes the data as acknowledged iff `wready` is up |
| Mmio.MmioInterface.Issue | sims/misc/jpeg_decoder/mmio.cc:107-147 | with nothing active the front of the queue becomes the active read or write and its channel is driven; the other channel's signals are unchanged |
| Mmio.MmioInterface.Take | sims/misc/jpeg_decoder/mmio.cc:109-126 | the front of the queue is removed and becomes the one active operation of its kind |
| Mmio.MmioInterface.DriveRead | sims/misc/jpeg_decoder/mmio.cc:119-123 | a read drives its address truncated to the address port, raises `arvalid` and `rready`, takes `arready` as the address acknowledgement and clears the data acknowledgement |
| Mmio.MmioInterface.DriveWrite | sims/misc/jpeg_decoder/mmio.cc:128-145 | a write drives its address, puts up to 4 bytes of its value on lane `addr % width` leaving the other data bytes, sets strobe byte `off` to `0xF`, and fails iff that byte is past the strobe port |
| Mmio.MmioInterface.Step | sims/misc/jpeg_decoder/mmio.cc:27-148 | one clock step serves the active read, else the active write, else issues the front of the queue; at most one operation is active and completions are recorded in order |
| Mmio.QueueIsFifo | sims/misc/jpeg_decoder/include/mmio.hh:71-119 | the waiting operations are exactly those issued and not yet taken, and operations complete in the order they were issued |
| PcieBm.GreaterIrreflexive | lib/simbricks/pciebm/pciebm.hh:51-54 | no event is later than itself |
| PcieBm.GreaterAsymmetric | lib/simbricks/pciebm/pciebm.hh:51-54 | of two events at most one is later than the other |
| PcieBm.GreaterTransitive | lib/simbricks/pciebm/pciebm.hh:51-54 | the order on (time, priority) is transitive, so `std::greater<>` is a strict order |
| PcieBm.GreaterTotal | lib/simbricks/pciebm/pciebm.hh:51-54 | two events are distinct iff one of them is later than the other |
| PcieBm.Earliest | lib/simbricks/pciebm/pciebm.hh:125-128 | the top of the min-heap is one of its events, no event precedes it, and its time is the smallest |
| PcieBm.RemoveOne | lib/simbricks/pciebm/pciebm.cc:416 | popping the top removes exactly one occurrence of it from the multiset of events |
| PcieBm.ReadcompData | lib/simbricks/pciebm/pciebm.cc:306 | the read completion copies its first `len` bytes into the operation's buffer and changes nothing else |
| PcieBm.PcieBM.constructor | lib/simbricks/pciebm/pciebm.cc:423-442 | time 0, no events, no queued or pending DMA, nothing sent |
| PcieBm.PcieBM.DmaDo | lib/simbricks/pciebm/pciebm.cc:138-194 | once the peer has terminated nothing happens; otherwise one more operation is pending and a write (with its first `len` bytes) or read request is sent, or the call aborts when the message cannot hold it |
| PcieBm.PcieBM.IssueDma | lib/simbricks/pciebm/pciebm.cc:108-127 | below 64 pending operations the operation is started at once, otherwise appended to the queue; the 64-operation bound and "queued only while saturated" are preserved |
| PcieBm.PcieBM.DmaTrigger | lib/simbricks/pciebm/pciebm.cc:129-136 | with a free slot and a non-empty queue the front operation is started and removed, otherwise nothing changes |
| PcieBm.PcieBM.DmaRetire | lib/simbricks/pciebm/pciebm.cc:309-325 | retiring an operation in flight keeps the window bounded, frees a slot for the queue's front, and keeps a saturated window saturated |
| PcieBm.PcieBM.IssueInterrupt | lib/simbricks/pciebm/pciebm.cc:196-228 | nothing once the peer has terminated, otherwise exactly one interrupt message with the vector and kind |
| PcieBm.PcieBM.IntXIssue | lib/simbricks/pciebm/pciebm.cc:230-245 | a legacy interrupt on vector 0, high or low according to the level |
| PcieBm.PcieBM.H2DRead | lib/simbricks/pciebm/pciebm.cc:251-270 | a register read is answered by one read completion with the request's id and the device's bytes |
| PcieBm.PcieBM.H2DWrite | lib/simbricks/pciebm/pciebm.cc:272-295 | a non-posted write is answered by one write completion with its id; a posted one by nothing |
| PcieBm.PcieBM.EventSchedule | lib/simbricks/pciebm/pciebm.cc:247-249 | the event is added to the multiset of scheduled events |
| PcieBm.PcieBM.EventNext | lib/simbricks/pciebm/pciebm.cc:400-405 | empty iff nothing is scheduled; otherwise the time of a scheduled event that no event precedes |
| PcieBm.PcieBM.EventTrigger | lib/simbricks/pciebm/pciebm.cc:407-417 | only the earliest event is handled and removed, and only when it is due; otherwise the events are unchanged |
| PcieBm.PcieBM.DevctrlUpdate | lib/simbricks/pciebm/pciebm.cc:566-571 | each interrupt enable is its bit of the device-control flags |
| PcieBm.PcieBM.ParseArgs | lib/simbricks/pciebm/pciebm.cc:444-468 | fewer than 4 or more than 10 arguments are rejected with nothing set; otherwise the three paths and each optional argument present are set, latencies scaled to picoseconds as 64-bit products |
| RegisterFile.LeU32 | sims/lpn/vta/include/vta_regs.hh:9-19 | a `uint32_t` field of the packed register struct, read little-endian, is below 2^32 |
| RegisterFile.LeBytes | sims/lpn/vta/include/vta_regs.hh:9-19 | a 32-bit field occupies four bytes |
| RegisterFile.LeRoundTrip | sims/lpn/vta/include/vta_regs.hh:9-19 | storing a value in a field and reading the field back yields the value modulo 2^32 |
| RegisterFile.SetLeU32 | sims/lpn/vta/include/vta_regs.hh:9-19 | setting a field keeps the struct's size, the field reads back the truncated value, and every byte outside it is unchanged |
| RegisterFile.Read | sims/lpn/vta/vta_bm.cc:70-83 | a read answers iff it is on BAR 0 and ends within the struct; then it returns exactly the `len` bytes at `addr` |
| RegisterFile.Write | sims/lpn/vta/vta_bm.cc:86-102 | a write happens iff it is on BAR 0 and ends within the struct; then the bytes land at `addr`, the size is kept and every other byte is unchanged |
| RegisterFile.WriteThenRead | sims/lpn/vta/vta_bm.cc:70-102 | reading back the bytes just written returns them |
| RegisterFile.WrappedOffsetPasses | sims/lpn/vta/vta_bm.cc:76 | an offset just below 2^64 passes the unsigned check `addr + len > sizeof(Registers_)` although the access lies far past the end (the same check guards writes at line 92) |
| RegisterFile.ChecksAgree | sims/lpn/jpeg_decoder/jpeg_decoder_bm.cc:70 | whenever `addr + len` does not wrap, the check as written and the model's check agree (the same check guards writes at line 85) |
| PyText.DropCR | results/jpeg_decoder.py:70 | a line ending in a carriage return loses exactly that one character; any other line is unchanged |
| PyText.Slice | results/jpeg_decoder.py:73 | Python's `xs[a:b]` for non-negative bounds: the plain slice when in range, empty when `b <= a`, and its length is `max(0, min(b, len) - a)` |
| PyText.ConcatAppend | results/tvm_detect.py:29 | `''.join` of two runs of lines is the join of each, concatenated |
| PyText.FirstIndex | results/jpeg_decoder.py:43-61 | the index found is at or after `from`, starts with the prefix, and no line between `from` and it does; `None` means no line from `from` on does |
| PyText.FirstIndexAt | results/jpeg_decoder.py:43-50 | a prefixed line with none before it from `from` on is the one found |
| PyText.FindBlock | results/jpeg_decoder.py:43-61 | in lines laid out as opening line, two skipped lines, data, one more line and the closing line, the two searches find the opening line and the closing line and the window between them is the data |
| PyText.FirstFrom | results/jpeg_decoder.py:43-61 | the `for ... break` search loop returns exactly `FirstIndex` |
| PyText.Split | results/jpeg_decoder.py:45 | `split(' ')` yields at least one piece |
| PyText.SplitJoin | results/jpeg_decoder.py:45 | the pieces joined with single spaces give back the string, and no piece holds a space |
| PyText.SplitNoSpace | results/jpeg_decoder.py:45 | a string without a space is a single piece |
| PyText.SplitAppend | results/jpeg_decoder.py:45 | splitting `a + " " + b` gives the pieces of `a` followed by those of `b` |
| PyText.SplitThree | results/jpeg_decoder.py:45 | two words without spaces after the text add exactly those two pieces |
| PyText.Strip | results/jpeg_decoder.py:46-47 | the white space `int()` ignores is removed at both ends: no longer than the input, and a non-empty result starts and ends with a non-space |
| PyText.PyInt | results/jpeg_decoder.py:46-47 | `int()` on ASCII text: surrounding white space, an optional sign, then one or more digits; a result is only given for text that is not blank after stripping |
| PyText.PyIntDecimal | results/jpeg_decoder.py:46-47 | `int()` reads back a decimal number, with or without a trailing carriage return |
| PyText.PyIntNoDigitsFails | results/jpeg_decoder.py:46-47 | a token without a digit raises `ValueError` |
| PyText.StripIsInfix | results/jpeg_decoder.py:46-47 | stripping keeps only characters of the input |
| ResultsJpeg.Header | results/jpeg_decoder.py:45-47 | a size is read only from a begin line of at least five space-separated tokens |
| ResultsJpeg.SpacesFrom | results/jpeg_decoder.py:67 | ` *` is greedy: the run ends at the first non-space |
| ResultsJpeg.DigitsFrom | results/jpeg_decoder.py:67 | `\d+` is greedy: the run ends at the first non-digit |
| ResultsJpeg.StampEnd | results/jpeg_decoder.py:67 | a timestamp match starts with `[` and ends within the text |
| ResultsJpeg.MatchLen | results/jpeg_decoder.py:67 | a match of the notice pattern starts with `[` and is not empty |
| ResultsJpeg.RemoveNotices | results/jpeg_decoder.py:71 | `re.sub(eliminate, '', line)` never lengthens the line |
| ResultsJpeg.EditLine | results/jpeg_decoder.py:69-71 | `edit_line` never lengthens the line |
| ResultsJpeg.SpacesFromOf | results/jpeg_decoder.py:67 | a run of spaces up to a non-space ends there |
| ResultsJpeg.DigitsFromOf | results/jpeg_decoder.py:67 | a run of digits up to a non-digit ends there |
| ResultsJpeg.StampEndOf | results/jpeg_decoder.py:67 | a bracketed timestamp with padding, seconds and an optional fraction ends where the closing bracket starts |
| ResultsJpeg.NoticeMatches | results/jpeg_decoder.py:67 | a kernel notice `[ secs.frac] random: crng init done` matches in full, whatever follows it |
| ResultsJpeg.PlainCharKept | results/jpeg_decoder.py:71 | a first character other than `[` starts no match and is kept |
| ResultsJpeg.NoBracketKept | results/jpeg_decoder.py:71 | text without `[` before the rest is kept as it is |
| ResultsJpeg.EditLineCutsNotice | results/jpeg_decoder.py:67-71 | a data line with a kernel notice spliced into it and a carriage return at its end gets back exactly its data |
| ResultsJpeg.EditLineKeepsData | results/jpeg_decoder.py:69-71 | a line without `[` (base64 text has none) loses only its carriage return |
| ResultsJpeg.EditAll | results/jpeg_decoder.py:73 | `map(edit_line, ...)` gives one line per line |
| ResultsJpeg.Locate | results/jpeg_decoder.py:42-65 | the begin error happens iff no line starts with `image dump begin`; when the dump is found, `start_idx <= end_idx + 1 <= len(stdout)` |
| ResultsJpeg.LocateDump | results/jpeg_decoder.py:42-65 | the two search loops and the header parse return exactly `Locate` |
| ResultsJpeg.ExtractDump | results/jpeg_decoder.py:42-73 | the search and the editing return exactly `DumpOf`: the size and the cleaned window, or the reason the script stops |
| ResultsJpeg.DecimalNoSpace | results/jpeg_decoder.py:45 | a printed number holds no space |
| ResultsJpeg.MarkerWords | results/jpeg_decoder.py:44-46 | `image dump begin` is three tokens, so width and height are tokens 3 and 4 |
| ResultsJpeg.HeaderOfBeginLine | results/jpeg_decoder.py:44-47 | the begin line `image dump begin <w> <h>` reads back its width and height |
| ResultsJpeg.BeginLineStarts | results/jpeg_decoder.py:44 | the begin line starts with the begin marker |
| ResultsJpeg.LocateWorkloadOutput | results/jpeg_decoder.py:42-65 | in output laid out as the workload prints it, the size is the printed one and the window is exactly the data lines |
| ResultsJpeg.Pairs | results/jpeg_decoder.py:77 | half as many values as bytes, each a 16-bit value |
| ResultsJpeg.Pixels | results/jpeg_decoder.py:77 | `np.frombuffer(..., uint16)` succeeds iff the byte count is even, and yields half as many pixels |
| ResultsJpeg.PixelsOfPixelBytes | results/jpeg_decoder.py:77 | reading back the bytes the behavioural model writes gives its pixels |
| ResultsJpeg.Unpack | results/jpeg_decoder.py:81-90 | each channel fits in a byte, with its low 3, 2 and 3 bits clear |
| ResultsJpeg.UnpackOfPack | results/jpeg_decoder.py:86-90 | unpacking the model's RGB565 packing gives blue, green and red in channels 0, 1 and 2, each cut to its high bits |
| ResultsJpeg.CellInGrid | results/jpeg_decoder.py:83-85 | `y * width + x` lies inside a `width * height` picture |
| ResultsJpeg.PixelAtInGrid | results/jpeg_decoder.py:78-85 | with exactly `width * height` pixels every cell has its pixel |
| ResultsJpeg.UnpackImage | results/jpeg_decoder.py:77-90 | the assertion passes iff there are `width * height` pixels (and the sizes are not negative); then the picture is `height` by `width` and cell `(y, x)` holds the channels of pixel `y * width + x` |
| ResultsTvm.MarkersExclusive | results/tvm_detect.py:17-19 | no line starts with both markers, so the `elif` never hides an END line behind a START line |
| ResultsTvm.LastBelow | results/tvm_detect.py:16-18 | the index found is below `k`, starts with the prefix and is the last such line below `k`; `None` means no line below `k` starts with it |
| ResultsTvm.LastBelowAt | results/tvm_detect.py:16-18 | a prefixed line with none after it below `k` is the one found |
| ResultsTvm.ScanFrom | results/tvm_detect.py:16-21 | when both bounds are set, `end` is not negative and `start` is at most two past it, so the slice arguments are valid |
| ResultsTvm.Bounds | results/tvm_detect.py:14-21 | the same bound on the pair the loop leaves |
| ResultsTvm.ScanFromMarked | results/tvm_detect.py:16-21 | a scan resumed before the first END line, with `start` set from the last START line so far, ends with the bounds stated by position |
| ResultsTvm.BoundsMeaning | results/tvm_detect.py:16-21 | the loop's bounds are `end` = first END line less one, `start` = two past the last START line before it |
| ResultsTvm.BoundsAre | results/tvm_detect.py:16-21 | line by line: `end + 1` is the first END line; `start - 2` is a START line at or before it with no START line after it up to `end`; unset bounds mean no such line |
| ResultsTvm.ScanToStart | results/tvm_detect.py:16-18 | the scan reaches a START line with no END line before it and restarts from it |
| ResultsTvm.ScanSkip | results/tvm_detect.py:16-21 | lines carrying neither marker leave the scan's state unchanged |
| ResultsTvm.FindBounds | results/tvm_detect.py:14-21 | the `for` loop with its `break` leaves exactly the bounds `Bounds` specifies |
| ResultsTvm.DropCRs | results/tvm_detect.py:28 | one line out per line in, each with one trailing carriage return removed |
| ResultsTvm.WithCRs | results/tvm_detect.py:28 | one line per chunk, each the chunk followed by a carriage return |
| ResultsTvm.DropCRsOfLines | results/tvm_detect.py:28 | removing the carriage returns gives back the chunks, and lines without one are unchanged |
| ResultsTvm.ExtractInferenceResult | results/tvm_detect.py:13-29 | the method returns exactly `Extract`: the missing-start error, the missing-end error, or the joined, cleaned slice `stdout[start:end]` |
| ResultsTvm.NoStartIff | results/tvm_detect.py:22-23 | the start error is raised iff there is no START line or the first END line comes before the first START line |
| ResultsTvm.NoEndIff | results/tvm_detect.py:24-25 | the end error is raised iff there is a START line and no END line at all |
| ResultsTvm.ExtractLayout | results/tvm_detect.py:16-29 | for a dump laid out as the workload prints it (START at `b`, END at `e`, no marker between), the payload is the lines from `b + 2` to `e - 2`, cleaned and joined |
| ResultsTvm.TvmClients | results/tvm_detect.py:51-53 | at most as many hosts as simulations, and a simulation is kept iff its name starts with `host.tvm_client.` |
| ResultsTvm.TvmClientsAppend | results/tvm_detect.py:51-53 | the selection keeps the order of the keys: selecting from two runs of keys is selecting from each |
| ResultsTvm.Rendered | results/tvm_detect.py:55-57 | at most one figure per host, and one per host when no extraction failed |
| ResultsTvm.RenderedFigure | results/tvm_detect.py:35-57 | figure `k` belongs to host `k`: that host's extraction succeeded, the figure is numbered `fig0 + k`, titled with the host and shows its payload |
| ResultsTvm.RenderedError | results/tvm_detect.py:22-57 | an error belongs to the first host not drawn: its extraction failed and the message names it and the missing marker |
| ResultsTvm.RenderedStep | results/tvm_detect.py:55-57 | one more host adds its figure, or its error ends the loop and the hosts after it change nothing |
| ResultsTvm.RenderedAfterError | results/tvm_detect.py:55-57 | once a host has failed, later hosts change nothing |
| ResultsTvm.RenderFrom | results/tvm_detect.py:55-57 | read forwards from host `i`, the loop keeps the figures already drawn and adds at most one per remaining host |
| ResultsTvm.RenderFromRendered | results/tvm_detect.py:55-57 | the forward reading from any error-free point ends as the backward definition `Rendered` says |
| ResultsTvm.Plotter.constructor | results/tvm_detect.py:10 | the figure counter starts at 1 with no figure drawn |
| ResultsTvm.Plotter.RenderResult | results/tvm_detect.py:35-40 | one figure numbered with the counter, titled `Inferred Image on Host <host>`, showing the image is added, and the counter moves on by one |
| ResultsTvm.ShowHost | results/tvm_detect.py:56-57 | the host's extraction result, and its figure drawn exactly when the extraction succeeded; nothing changes otherwise |
| ResultsTvm.RenderNext | results/tvm_detect.py:55-57 | one pass of the host loop: on success the figures drawn so far grow by this host's figure and the loop's remaining result is unchanged; on failure nothing is drawn and the loop's result is this host's message |
| ResultsTvm.RenderHosts | results/tvm_detect.py:55-57 | the plotter ends with the figures `Rendered` lists appended, the counter moved by their number, and the error of the first failing host |
| ResultsTvm.ShowResults | results/tvm_detect.py:51-57 | the same for the client hosts selected from the experiment's simulations |
| VerilatorGlue.ToggleTrace | sims/misc/gcd/gcd_verilator.cc:150-165 | tracing follows the request: turning on opens file `nr` and counts it, turning off closes the file, and no change does nothing |
| VerilatorGlue.ToggleKeepsLog | sims/misc/gcd/gcd_verilator.cc:150-165 | every toggle keeps the trace history well formed: files numbered 0, 1, 2, … opened and closed in strict alternation |
| VerilatorGlue.OpenedOnce | sims/misc/gcd/gcd_verilator.cc:156-160 | no trace file number is opened twice: each is below the counter and below every later one |
| VtaBm.NextChunk | sims/lpn/vta/vta_bm.cc:119-121 | the next DMA of a request is at most 2048 bytes, the bytes it still lacks, at the address past what it has acquired (64-bit), tagged with its id and in its direction |
| VtaBm.Marked | sims/lpn/vta/vta_bm.cc:176-189 | after the scan a queue's front no longer waits: an eligible front is marked in flight and nothing else changes |
| VtaBm.PendingTo | sims/lpn/vta/vta_bm.cc:174-191 | one scan of the first `k` queues issues at most `k` DMAs |
| VtaBm.PendingCount | sims/lpn/vta/vta_bm.cc:174-191 | the scan issues exactly one DMA per queue whose front is neither in flight nor complete |
| VtaBm.VtaBm.constructor | sims/lpn/vta/vta_bm.cc:32 | the static model starts with zeroed registers and empty request queues |
| VtaBm.VtaBm.InsnAddr | sims/lpn/vta/vta_bm.cc:106-107 | the instruction address made of the two 32-bit halves is a 64-bit value |
| VtaBm.VtaBm.RegRead | sims/lpn/vta/vta_bm.cc:70-83 | a read answers iff it is on BAR 0 and ends within `VTARegs`, with the register bytes at `addr` |
| VtaBm.VtaBm.RegWrite | sims/lpn/vta/vta_bm.cc:86-112 | a write is accepted iff on BAR 0 and within `VTARegs`; then the bytes are copied in, and the device runs 142 instructions at the instruction address exactly when bit 0 of `status` is set |
| VtaBm.VtaBm.FetchInsn | sims/lpn/vta/vta_bm.cc:114-124 | after a register write, the front instruction-fetch request, if it is a read, gets a DMA for its next chunk |
| VtaBm.VtaBm.AcceptDma | sims/lpn/vta/vta_bm.cc:127-158 | a completion clears the in-flight mark of the front request of its queue and adds its length (32-bit) to it and to the matching LPN request; a completion for an empty queue changes nothing |
| VtaBm.VtaBm.RunDone | sims/lpn/vta/vta_bm.cc:163-168 | a device run returning 0 sets `status` to 4 and changes no other register |
| VtaBm.VtaBm.IssuePending | sims/lpn/vta/vta_bm.cc:173-192 | the scan issues, in key order, exactly the DMAs `PendingTo` lists, marks each eligible front in flight, and leaves no queue waiting |
| VtaBm.VtaBm.MaybeSchedule | sims/lpn/vta/vta_bm.cc:195-212 | the next commit time may not precede the current time, and an event at it is scheduled iff the net has one and nothing is scheduled at or before it |
| VtaBm.VtaBm.IdleCheck | sims/lpn/vta/vta_bm.cc:213-215 | with the simulation done, no LPN event and none scheduled, `status` becomes 2; otherwise the registers are unchanged |
| VtaBm.VtaBm.EventStop | sims/lpn/vta/vta_bm.cc:226-231 | the event handler stops iff nothing is left to commit and the simulation is done, and then sets `status` to 2 |
| VtaBm.ChunkBounds | sims/lpn/vta/vta_bm.cc:119-178 | a chunk of an incomplete request is non-empty, at most 2048 bytes, and never beyond the request's length |
| VtaBm.ChunkProgress | sims/lpn/vta/vta_bm.cc:137-178 | after the chunk completes, the 32-bit counter does not wrap and the request lacks exactly the chunk's length fewer bytes |

## Left out

- Threads, condition variables and mutexes: `getData`'s blocking wait, the `blocked`/`finished`/`exited` handshakes and the simulator threads are not modelled; `getDataNB` and the matchers are modelled as single-threaded steps.
- Input and output: `std::cerr`/`std::cout` logging, file reading in `collect_insns` (the lines are a parameter), and the SimBricks shared-memory transport.
- Token aliasing: the C++ passes token pointers between places; tokens here are values.
- Popping an empty `deque` is undefined behaviour in C++; the model's pop leaves an empty place empty.
- A place read at a negative index (`tsAt(threshold - 1)` with a needed count of 0, index -1, see Findings, or with a negative threshold such as -2, index -3) is undefined behaviour; the model reads the needed timestamp as 0 in every such case.
- LpnEngine.Trigger: `pi_guard` is never consulted by the source engine, so the model has no guards.
- C `int` overflow of picosecond times and of delay products is not modelled; times are unbounded integers.
- VtaNet: the delay of `tload_done` comes from `delay_load`, which spins forever on a missing request (`while (1)`); the model takes it as a parameter.
- VtaDevice.Device.Run: the source reads `insn_count` instructions from the read buffer without a bounds check; the model requires the buffer to hold them.
- VtaSram.Load: the `CHECK_LE(sram_end, kMaxNumElem)` abort is a precondition, and DRAM is a sequence indexed by element rather than a raw pointer.
- `Load_int8` of the functional simulator is not part of this model; in the IO generator it asserts and the model ends the run there.
- The `ALL_ENUM` numeric values and `hw_spec.h` constants are parameters (`HwSpec`, `Shape`), not fixed numbers.
- Source `assert`s and `CHECK`s that end the process are modelled as an abort flag or a failure result.
- RollbackBuf.Rollback.CheckNotEnoughBuf: a tail longer than the 8192-byte global buffer overruns it in the source; the model requires the tail to fit. `RollbackBufReset`, which the JPEG front end calls, is not defined in `rollback_buf.hh` and is not part of this model.
- RollbackBuf.Rollback.AugmentBufWithLast: the source writes past the global buffer when `last_buf_size + len > 8192`; the model requires the sum to fit.
- JpegBitBuffer.BitBuffer.Push: a store at or past `m_max_size` is the failing `assert`, reported as `aborted`; a store at offset `-1` (a marker taken back from an empty buffer) passes the `assert` and writes before the buffer, undefined behaviour that the model reports as `aborted` too.
- JpegBitBuffer.BitBuffer.ReadWord: the source reads the five bytes without a bounds check; the model requires them to lie inside the buffer.
- JpegBitBuffer.BitBuffer.Advance: `int` overflow of the read offset is excluded by a precondition.
- JpegBitBuffer.BitBuffer.Reset: the saved read offset is a `size_t` copied into an `int`; the model requires it to fit.
- JpegBitBuffer: `dprintf`/`printf` logging and the `TEST_HOOKS_BITBUFFER` hooks are left out.
- The entropy decoder, the quantisation tables and the inverse DCT (`jpeg_mcu_block::decode`, `jpeg_dqt`, `jpeg_dht`, `jpeg_idct`) are not part of this model: what they yield for each MCU (six coefficient counts, the bits read and the samples, or a failure) is the `McuOutcome` sequence `avail`, and a run's successive `DecodeImage` calls take theirs from `scans`.
- The floating-point colour conversion of `ConvertYUV2RGB` is the `ColourFn` parameter.
- `m_dqt.reset()`, `m_dht.reset()`, `m_idct.reset()` and `m_mcu_dec.reset()` in `Reset` belong to the decoder and are left out; `RollbackBufReset`, called by the driver's `Reset`, is not defined in the repository's files and is not part of this model, so the rollback buffer keeps its state.
- JpegFuncSim.FuncSim.DecodeImage and JpegDriver.Driver.DecodeImage: the 4:2:0 branch of the dispatcher states the MCU count, the result, the cursor and the counters; the contents of the planes and queues after the loop are stated on `Decode420` of each class.
- JpegDriver.Driver.Loop420: the `while (!eof())` loop is modelled as recursion on the MCU index, one `Iteration` per MCU; it ends because `avail` is finite, and asking for an MCU past `avail` is the `Unscheduled` outcome.
- JpegFuncSim.FuncSim.DecodeFuncSim and JpegDriver.Driver.ParseLoop: the byte loops are bounded by a `fuel` count of passes (`OutOfSteps`/`OutOfFuel`), because a scan that meets a marker at its first byte steps back over the SOS marker and the loop need not terminate; their contracts state the frame and stop conditions, not the whole sequence of segments.
- JpegFuncSim.FuncSim.DecodeFuncSim: the finishing handshake (waiting on and setting the `blocked`/`finished` flags) and the copy of the planes to `dst_addr` are left out; the input length and all offsets are required to stay below `INT_MAX`.
- JpegFuncSim.FuncSim.ScanChunk: the bytes pushed into the bit buffer are not stated, only where the chunk ends.
- JpegDriver.Driver.UpdateLpnState: batches are limited to `0x7FFF_0000` bytes (`MaxBatch`) so that the `int` indices cannot overflow.
- JpegDriver.Driver.ScanBytes: `global_buf` is modelled as the value of the batch when the bit buffer is pointed at it, refreshed after `copy_out`; aliasing between the batch and the bit buffer's view is not modelled.
- JpegDriver: `m_width`, `m_height` and `rgb_cur_len` are `uint16_t`; the frame size is read from a 16-bit word and fits, but `rgb_cur_len` is kept unbounded in the model (see Findings).
- JpegDriver.Driver.Need: `CHECK_ENOUGH_BUF(i)` at the top of the outside-scan parse loop always passes, as `i < len` there, and is not modelled.
- JpegDriver.Driver.DecodeOther: outside 4:2:0 the loop hands the net six zero-count tokens per iteration for ever; the model reports `Spins` and does not state those tokens.
- `dprintf`, `ddprintf` and `printf` logging in the front end is left out.
- Verilator models (`top.eval()`), the simulators' `main` loops, signal handling, argument parsing and the shared-memory setup are not modelled; each device handler is a method, and the design's outputs are inputs of the adapters' `Step` methods.
- VCD trace files are a ghost log of open and close events (`TraceEvent`), not files.
- `d2h_alloc` busy-waits until a message slot is free; the model takes the slot as always available, and a message sent is appended to `sent`.
- A request id that the source forms from a pointer (`(uintptr_t)axi_op`) is a parameter `reqId`; the read completion names the operation it answers directly.
- Values the source leaves indeterminate (a fresh AXI buffer, an MMIO operation's value before its read completes, a `readcomp` byte the copy does not reach) are 0 in the model.
- GcdVerilator.ReadCopy: a copy range whose end lies before its start is undefined behaviour for `std::copy`; the model copies nothing there (see Findings).
- JpegVerilator.RegsRead / RegsWrite: a BAR 1 access whose 64-bit `offset + len` wraps around passes the bounds check at jpeg_decoder_verilator.cc:177 and :219 and then copies from or to memory outside the register block, which is undefined behaviour; the model answers such a read with zeros and leaves the registers unchanged on such a write (the request still succeeds, as in the source).
- JpegBm.SplitWrites: at the first chunk that runs past the packed bytes the model abandons the whole write-back (`WriteNewPixels` issues no DMA), whereas the source has already issued the earlier in-range chunks and then copies past its buffer, which is undefined behaviour (see Findings).
- JpegVerilator.MmioReadData: a read completion of more than four bytes copies past the 32-bit value in the source; the model answers with the four bytes the value has.
- JpegVerilator.JpegVerilatorSim.PollH2D: a read completion is required to answer an operation the reader issued (one short of its end by whole beats), which the source takes for granted when it casts the request id back to the operation.
- GcdVerilator.WriteCopyExactIff: states one direction only; for an offset other than 0 the written bytes still agree with the intended write when they happen to equal what they overwrite.
- GcdSw.SwGcd: the input with exactly one zero operand is excluded, because the source loops forever on it (`OneZeroNeverEnds` proves the loop condition stays true).
- AxiRtl.AxiWriter.Step: the contract states the step's time, its validity and that a burst handed on is complete; the effect of each channel is stated on `Respond`, `AcceptAddr` and `AcceptData`.
- JpegScan.Scan420: the three planes are fetched once before the MCU loop rather than lazily inside it; once allocated, the source's getter returns the same arrays, so the planes painted are the same.
- The result scripts: JSON loading, `sys.argv`, base64 decoding, NumPy and Matplotlib are library calls and are left out; ResultsTvm starts from each simulation's name and `stdout` lines (`sims` as a sequence), and a `RuntimeError` is a returned message.
- PyText.PyInt and ResultsJpeg: `int()` and the regular expression's `\d` are modelled on ASCII digits only; Python also accepts other Unicode digits.
- PyText.PyInt: does not accept `_` digit separators (`int("1_000")` is 1000 in Python) nor the white space `int()` strips beyond the C `isspace` set (`\x1c` to `\x1f`, `\x85`, `\xa0` and the other Unicode spaces); such tokens are refused. The dump headers the script parses are plain decimal numbers, which `PyIntDecimal` covers.

## Findings

| source | as written | input that shows it | evidently intended | confidence | as-written member | corrected member |
|---|---|---|---|---|---|---|
| sims/lpn/vta/src/func_sim.cc:72-74 | the packed `GetUnsigned` shifts by `index % kNumPackElem` bits | 4-bit elements, element 1 set to 15: the word is `0xF0` and `(0xF0 >> 1) & 0xF` is 8 | shift by `(index % kNumPackElem) * bits`, as `GetSigned` and `SetUnsigned` do | high, not executed | VtaBitPacker.GetUnsignedAsWrittenMisreads | VtaBitPacker.UnsignedRoundTrip |
| sims/lpn/lpn_common/place_transition.cc:33 | `tsAt(threshold - 1)` is read even when the threshold is 0 | an input whose weight is 0 on an empty place passes the check and reads index -1 | a needed count of 0 contributes no timestamp | medium, not executed | LpnEngine.ZeroCountReadsBeforeFront | LpnEngine.MaxTsIsMax |
| sims/lpn/lpn_common/lpn_sim.cc:5-10 | both branches return 0, discarding `min_time_g` | one transition scheduled at 5: the minimum event time is 5, the function returns 0 | return the minimum event time | medium, not executed | LpnEngine.NextCommitTimeLosesMinimum | LpnEngine.Lpn.NextCommitTimeFixed |
| sims/lpn/jpeg_decoder/lpn_setup/driver.hpp:258-259 | `block_num` and `loop` are statics of `DecodeImage` that `Reset()` (lines 66-99) does not clear | a 32 by 32 picture of four 4:2:0 MCUs, `Reset()`, then a second 32 by 32 picture: its first MCU is drawn at block 16, pixel row 32, outside the picture, so nothing of it is painted | `Reset()` clears the cursor, as the functional simulator's `Reset()` does (func_sim.cc:76-77) | high, not executed | JpegDriver.StaleCursorOffImage | JpegDriver.Driver.Reset |
| sims/lpn/jpeg_decoder/lpn_setup/driver.hpp:39 | `rgb_cur_len` is a `uint16_t` that `ConvertYUV2RGB` sets to `offset + 1` (lines 197, 221) | a 256 by 256 picture: after its last MCU `rgb_cur_len` is 65536, stored as 0, so the picture is reported as having no pixels ready | `rgb_cur_len` holds the pixel count after the last MCU | high, not executed | JpegDriver.RgbCurLenWraps | JpegDriver.LastMcuEnd |
| sims/lpn/jpeg_decoder/src/func_sim.cc:254 | `DecodeImage` declares a local `int loop = 0` that hides the static `loop` of line 45, so each call restarts the MCU column count while `block_num` carries on | a 32-pixel-wide 4:2:0 picture decoded one MCU per call: the third MCU is drawn over block 4, which the first MCU drew, instead of at block 8 | the static `loop` persists across calls with `block_num`, as in the driver | high, not executed | JpegScan.ShadowedLoopOverdraws | JpegFuncSim.FuncSim.Decode420 |
| sims/misc/gcd/gcd_verilator.cc:192-196 | the read copies up to the absolute byte `min(sizeof(state) - offset, len)` instead of `offset + ...` | a 4-byte read of `req_msg` at offset 4: the copy runs from byte 4 to byte 4 and the host gets none of the value | the `len` bytes from `offset` | high, not executed | GcdVerilator.ReadMissesReqMsg | RegisterFile.Read |
| sims/misc/gcd/gcd_verilator.cc:226-230 | the write copies the payload to the start of the state, ignoring `offset` | a one-byte write of 1 to the tracing control byte at offset 12: byte 0 (`req_val`) becomes 1 and tracing stays off | the payload lands at `offset` | high, not executed | GcdVerilator.CtrlWriteLandsOnReqVal | RegisterFile.Write |
| sims/lpn/vta/vta_bm.cc:76 | the bounds check adds `addr + len` in 64-bit unsigned arithmetic, which wraps (reads here, writes at line 92 alike) | `addr = 2^64 - 4`, `len = 8` on the 36-byte VTA register file: the sum wraps to 4 and the access is let through | refuse any access that ends past the register file | low, not executed | RegisterFile.WrappedOffsetPasses | RegisterFile.ChecksAgree |
| sims/lpn/jpeg_decoder/jpeg_decoder_bm.cc:206-229 | the write-back sends `bytes_to_write` bytes, one per pixel, of a buffer holding two bytes per pixel, and sizes each chunk by `rgb_cur_len - i` instead of the bytes left | a fresh image of `n` pixels writes only the first `n` of its `2n` packed bytes; with 256 pixels consumed and 260 ready, one 16-byte chunk is copied from an 8-byte buffer | every packed byte written once, at `dst` plus twice the pixels consumed, in chunks inside the buffer | high, not executed | JpegBm.LastChunkOverruns | JpegBm.IntendedWriteDmas |
| lib/simbricks/rtl/axi/axi.cc:94-99 | the first beat of a burst that starts off a beat boundary carries fewer bytes, yet `last` waits for the offset to reach the operation's length, which it then never does | 4-byte port, 4-byte beats, address 2: the offsets are 2, 6, 10, ... and `last` never rises | `last` on beat `AxLEN + 1` whatever the start address | medium, not executed | Axi.UnalignedBurstMissesLast | Axi.IntendedBurstLast |
| lib/simbricks/rtl/axi/axi.cc:96 | every read beat is copied onto the data bus from lane 0 | an 8-byte port with 4-byte beats from address 0: the second beat's bytes, destined for lanes 4-7, travel on lanes 0-3 | a byte at address `x` travels on lane `x % data_bytes` (section A3.4.3 of the AMBA AXI protocol specification) | medium, not executed | Axi.NarrowSecondBeatOnLaneZero | Axi.IntendedLaneOfByte |
