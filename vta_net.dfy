// The VTA performance net: its places, the token-count and output closures
// of `lpn.hh`, the closed-form delays, the transition table of
// `transitions.hh` and the initial marking of `lpn_def.hh`, all fed into
// the engine of module LpnEngine.
module VtaNet {
  import opened Arith
  import opened LpnEngine
  import opened VtaIsa
  import opened VtaTokens

  type M = Marking<VtaTok>
  type Tok = Token<VtaTok>

  // --- places, in declaration order ------------------------------------

  const PcontrolPrime: nat := 0
  const Pcontrol: nat := 1
  const PsReadCmd: nat := 2
  const PnumInsn: nat := 3
  const PsDrain: nat := 4
  const Plaunch: nat := 5
  const PloadCap: nat := 6
  const PloadInstQ: nat := 7
  const PcomputeCap: nat := 8
  const PcomputeInstQ: nat := 9
  const PstoreCap: nat := 10
  const PstoreInstQ: nat := 11
  const Pstore2compute: nat := 12
  const Pload2compute: nat := 13
  const PcomputeProcess: nat := 14
  const Pcompute2store: nat := 15
  const PstoreProcess: nat := 16
  const Pcompute2load: nat := 17
  const PloadProcess: nat := 18
  const PcomputeDone: nat := 19
  const PstoreDone: nat := 20
  const PloadDone: nat := 21
  const NPlaces: nat := 22

  // --- reading the front token -------------------------------------------

  /** `place.tokens[0]`, or an empty token when the place has none. */
  function FrontAt(m: M, p: nat): VtaTok {
    if p < |m| && |m[p]| > 0 then m[p][0].data else EmptyTok
  }

  function FieldsOf(t: VtaTok): InsnFields {
    if t.InsnTok? then t.f else Blank
  }

  function InsnCountOf(t: VtaTok): int {
    if t.InsnCountTok? then t.insnCount else 0
  }

  function TotalInsnOf(t: VtaTok): int {
    if t.TotalInsnTok? then t.totalInsn else 0
  }

  // --- delays ------------------------------------------------------------

  /** `CYCLEPERIOD`: picoseconds per cycle of the 150 MHz clock. */
  const CyclePeriod: nat := 1_000_000 / 150

  /** A delay in cycles as the `int` the transition record holds: the
      unsigned 64-bit product `CYCLEPERIOD * e` converted to `int`. */
  function CycleDelay(e: int): (r: int)
    ensures 0 <= CyclePeriod * e < 0x8000_0000 ==> r == 6666 * e
    ensures -0x8000_0000 <= r < 0x8000_0000
  {
    ToI32(ToU64(CyclePeriod * e))
  }

  /** `delay_gemm`, in cycles. */
  function GemmCycles(f: InsnFields): int {
    6 + (f.uopEnd - f.uopBegin) * f.lp1 * f.lp0
  }

  /** `delay_alu`, in cycles: twice the GEMM work unless an immediate is used. */
  function AluCycles(f: InsnFields): int {
    6 + (f.uopEnd - f.uopBegin) * f.lp1 * f.lp0 * (2 - f.useAluImm)
  }

  /** `delay_loadUop`, in cycles, with C's truncating `/` and `%`. */
  function LoadUopCycles(f: InsnFields): int {
    22 + CDiv(f.xsize * ((f.ysize + 2) - CMod(f.ysize, 2)), 2)
  }

  /** `delay_loadAcc`, in cycles. */
  function LoadAccCycles(f: InsnFields): int {
    22 + f.xsize * 8 * f.ysize
  }

  /** `delay_store`, in cycles. */
  function StoreCycles(f: InsnFields): int {
    27 * CDiv(f.xsize, 8) * f.ysize
  }

  /** `delay_t9`, in cycles. */
  function T9Cycles(insnCount: int): int {
    21 + 2 * insnCount
  }

  /** `delay_compute`, in cycles: dispatch on the compute step. */
  function ComputeCycles(f: InsnFields): (r: int)
    ensures f.subopcode == Sync ==> r == 2
    ensures f.subopcode == Alu ==> r == AluCycles(f)
    ensures f.subopcode == Gemm ==> r == GemmCycles(f)
    ensures f.subopcode == LoadAcc ==> r == LoadAccCycles(f)
    ensures f.subopcode == LoadUop ==> r == LoadUopCycles(f)
    ensures f.subopcode !in {Sync, Alu, Gemm, LoadAcc, LoadUop} ==> r == 0
  {
    match f.subopcode
    case Sync => 2
    case Alu => AluCycles(f)
    case Gemm => GemmCycles(f)
    case LoadAcc => LoadAccCycles(f)
    case LoadUop => LoadUopCycles(f)
    case _ => 0
  }

  function ConDelay(c: int): M -> int {
    _ => CycleDelay(c)
  }

  function DelayT9(m: M): int {
    CycleDelay(T9Cycles(InsnCountOf(FrontAt(m, PsReadCmd))))
  }

  function DelayStore(m: M): int {
    CycleDelay(StoreCycles(FieldsOf(FrontAt(m, PstoreProcess))))
  }

  function DelayCompute(m: M): int {
    CycleDelay(ComputeCycles(FieldsOf(FrontAt(m, PcomputeProcess))))
  }

  // --- token counts --------------------------------------------------------

  /** `take_1_token` */
  function One(m: M): int { 1 }

  /** The front token's `pop_next` (`next`) or `pop_prev` flag. */
  function PopFlag(m: M, p: nat, next: bool): int {
    var f := FieldsOf(FrontAt(m, p));
    if next then f.popNext else f.popPrev
  }

  /** The front token's `push_next` (`next`) or `push_prev` flag. */
  function PushFlag(m: M, p: nat, next: bool): int {
    var f := FieldsOf(FrontAt(m, p));
    if next then f.pushNext else f.pushPrev
  }

  /** `take_dep_pop_next(p)` / `take_dep_pop_prev(p)`: one token iff the flag is 1. */
  function PopOf(p: nat, next: bool): M -> int {
    m => if PopFlag(m, p, next) == 1 then 1 else 0
  }

  /** `take_readLen(psReadCmd)` */
  function ReadLen(m: M): int {
    InsnCountOf(FrontAt(m, PsReadCmd))
  }

  // --- outputs -------------------------------------------------------------

  /** The first `n` tokens of a place (all of them if it holds fewer). */
  function Take(s: seq<Tok>, n: int): (r: seq<Tok>)
    ensures |r| == Min(Max(n, 0), |s|) && r == s[..|r|]
  {
    s[..Min(Max(n, 0), |s|)]
  }

  /** The read commands `output_insn_read_cmd` makes for `total` instructions:
      full groups of 8, then the remainder if it is positive. */
  function ReadCmds(total: int): (r: seq<Tok>)
    ensures forall i :: 0 <= i < |r| ==> r[i].data.InsnCountTok?
  {
    var ites := CDiv(total, 8);
    var remain := CMod(total, 8);
    Repeat(Token(0, InsnCountTok(8)), Max(ites, 0)) +
    (if remain > 0 then [Token(0, InsnCountTok(remain))] else [])
  }

  function ReadCmdOut(m: M): seq<Tok> {
    ReadCmds(TotalInsnOf(FrontAt(m, Plaunch)))
  }

  /** `pass_var_token_readLen(pnumInsn)`: as many instruction tokens as the read command counts. */
  function PassReadLen(m: M): seq<Tok> {
    if PnumInsn < |m| then Take(m[PnumInsn], ReadLen(m)) else []
  }

  /** `pass_token(p, 1)` */
  function PassOne(p: nat): M -> seq<Tok> {
    m => if p < |m| then Take(m[p], 1) else []
  }

  const EmptyOut: seq<Tok> := [Token(0, EmptyTok)]

  /** `pass_empty_token` */
  function PassEmpty(m: M): seq<Tok> {
    EmptyOut
  }

  /** `output_dep_push_next(p)` / `output_dep_push_prev(p)`: one empty token iff the flag is 1. */
  function PushOf(p: nat, next: bool): M -> seq<Tok> {
    m => if PushFlag(m, p, next) == 1 then EmptyOut else []
  }

  // --- the transition table ----------------------------------------------

  /** `t13`: a launch token becomes the read commands. */
  const T13: TransDef<VtaTok> :=
    TransDef([Plaunch], [One], [0], [PsReadCmd], [ReadCmdOut], ConDelay(1))

  /** `t9`: one read command drains its instructions and takes the control token. */
  const T9: TransDef<VtaTok> :=
    TransDef([PsReadCmd, Pcontrol, PnumInsn], [One, One, ReadLen], [0, 0, 0],
             [PsDrain, PcontrolPrime], [PassReadLen, PassEmpty], DelayT9)

  /** `t12`: the control token returns. */
  const T12: TransDef<VtaTok> :=
    TransDef([PcontrolPrime], [One], [0], [Pcontrol], [PassEmpty], ConDelay(1))

  /** `t14`, `t15`, `t16`: one drained instruction and one capacity token
      become an entry of a unit's instruction queue. The opcode guards are
      never consulted by the engine. */
  function Dispatch(cap: nat, queue: nat): TransDef<VtaTok> {
    TransDef([PsDrain, cap], [One, One], [0, 0], [queue], [PassOne(PsDrain)], ConDelay(1))
  }

  /** `tload_launch` / `tstore_launch`: the queue head starts once its dependency token is there. */
  function Launch(queue: nat, dep: nat, next: bool, process: nat): TransDef<VtaTok> {
    TransDef([queue, dep], [One, PopOf(queue, next)], [0, 0], [process], [PassOne(queue)], ConDelay(0))
  }

  /** `tcompute_launch` */
  const TcomputeLaunch: TransDef<VtaTok> :=
    TransDef([PcomputeInstQ, Pstore2compute, Pload2compute],
             [One, PopOf(PcomputeInstQ, true), PopOf(PcomputeInstQ, false)], [0, 0, 0],
             [PcomputeProcess], [PassOne(PcomputeInstQ)], ConDelay(0))

  /** `tload_done` / `tstore_done`: the unit finishes, signals its neighbour and frees its capacity. */
  function Finish(process: nat, done: nat, dep: nat, next: bool, cap: nat, delay: M -> int): TransDef<VtaTok> {
    TransDef([process], [One], [0], [done, dep, cap], [PassEmpty, PushOf(process, next), PassEmpty], delay)
  }

  /** `tcompute_done` */
  const TcomputeDone: TransDef<VtaTok> :=
    TransDef([PcomputeProcess], [One], [0], [PcomputeDone, Pcompute2load, Pcompute2store, PcomputeCap],
             [PassEmpty, PushOf(PcomputeProcess, false), PushOf(PcomputeProcess, true), PassEmpty], DelayCompute)

  /** `t_list`, in its order. `delay_load` never returns, so the delay of
      `tload_done` is a parameter. */
  function Defs(loadDelay: M -> int): (r: seq<TransDef<VtaTok>>)
    ensures |r| == 12 && forall t :: 0 <= t < 12 ==> r[t] == Def(loadDelay, t)
  {
    seq(12, t requires 0 <= t < 12 => Def(loadDelay, t))
  }

  /** Entry `t` of `t_list`. */
  function Def(loadDelay: M -> int, t: nat): TransDef<VtaTok>
    requires t < 12
  {
    if t == 0 then T13
    else if t == 1 then T9
    else if t == 2 then T12
    else if t == 3 then Dispatch(PloadCap, PloadInstQ)
    else if t == 4 then Dispatch(PcomputeCap, PcomputeInstQ)
    else if t == 5 then Dispatch(PstoreCap, PstoreInstQ)
    else if t == 6 then Launch(PloadInstQ, Pcompute2load, true, PloadProcess)
    else if t == 7 then Finish(PloadProcess, PloadDone, Pload2compute, true, PloadCap, loadDelay)
    else if t == 8 then Launch(PstoreInstQ, Pcompute2store, false, PstoreProcess)
    else if t == 9 then Finish(PstoreProcess, PstoreDone, Pstore2compute, false, PstoreCap, DelayStore)
    else if t == 10 then TcomputeLaunch
    else TcomputeDone
  }

  // --- effects of single transitions -------------------------------------

  /** A transition committed on the marking it was enabled on, with the
      counts its weights give there. */
  ghost predicate FiresNow(d: TransDef<VtaTok>, s: TState, m: M) {
    Fits(d, m) && CanFire(d, m) && s.consumeTokens == Counts(d, m)
  }

  function EmptyAt(at: int): seq<Tok> {
    [Token(at, EmptyTok)]
  }

  lemma DispatchEffect(cap: nat, queue: nat, s: TState, m: M)
    requires |m| == NPlaces && cap < NPlaces && queue < NPlaces && cap != PsDrain && queue !in {PsDrain, cap}
    requires FiresNow(Dispatch(cap, queue), s, m)
    ensures |m[PsDrain]| >= 1 && |m[cap]| >= 1
    ensures Commit(Dispatch(cap, queue), s, m) ==
      m[queue := m[queue] + [Token(s.delayEvent, m[PsDrain][0].data)]]
       [PsDrain := m[PsDrain][1..]][cap := m[cap][1..]]
  {
    var d := Dispatch(cap, queue);
    assert Ready(d, m, 0) && Ready(d, m, 1);
    var at := s.delayEvent;
    assert Stamp(EmptyOut, at) == EmptyAt(at);
    assert Accept(d, at, m, 0) == m;
    var a := Accept(d, at, m, 1);
    assert d.produce[0](m) == Take(m[PsDrain], 1);
    assert Stamp(Take(m[PsDrain], 1), at) == [Token(at, m[PsDrain][0].data)];
    assert a == m[queue := m[queue] + [Token(at, m[PsDrain][0].data)]];
    assert s.consumeTokens == [1, 1];
    assert Fire(d, s.consumeTokens, a, 0) == a;
    var f1 := Fire(d, s.consumeTokens, a, 1);
    assert f1 == a[PsDrain := Drop(a[PsDrain], 1)];
    assert Commit(d, s, m) == f1[cap := Drop(f1[cap], 1)];
  }

  lemma LaunchEffect(queue: nat, dep: nat, next: bool, process: nat, s: TState, m: M)
    requires |m| == NPlaces && queue < NPlaces && dep < NPlaces && process < NPlaces
    requires queue != dep && process !in {queue, dep}
    requires FiresNow(Launch(queue, dep, next, process), s, m)
    ensures var k := if PopFlag(m, queue, next) == 1 then 1 else 0;
      && |m[queue]| >= 1 && |m[dep]| >= k
      && Commit(Launch(queue, dep, next, process), s, m) ==
         m[process := m[process] + [Token(s.delayEvent, m[queue][0].data)]]
          [queue := m[queue][1..]][dep := Drop(m[dep], k)]
  {
    var d := Launch(queue, dep, next, process);
    var k := if PopFlag(m, queue, next) == 1 then 1 else 0;
    assert Ready(d, m, 0) && Ready(d, m, 1);
    var at := s.delayEvent;
    assert Stamp(EmptyOut, at) == EmptyAt(at);
    assert Accept(d, at, m, 0) == m;
    var a := Accept(d, at, m, 1);
    assert d.produce[0](m) == Take(m[queue], 1);
    assert Stamp(Take(m[queue], 1), at) == [Token(at, m[queue][0].data)];
    assert a == m[process := m[process] + [Token(at, m[queue][0].data)]];
    assert s.consumeTokens == [1, k];
    assert Fire(d, s.consumeTokens, a, 0) == a;
    var f1 := Fire(d, s.consumeTokens, a, 1);
    assert f1 == a[queue := Drop(a[queue], 1)];
    assert Commit(d, s, m) == f1[dep := Drop(f1[dep], k)];
  }

  lemma FinishEffect(process: nat, done: nat, dep: nat, next: bool, cap: nat, delay: M -> int, s: TState, m: M)
    requires |m| == NPlaces && process < NPlaces && done < NPlaces && dep < NPlaces && cap < NPlaces
    requires done != dep && cap !in {done, dep} && process !in {done, dep, cap}
    requires FiresNow(Finish(process, done, dep, next, cap, delay), s, m)
    ensures |m[process]| >= 1
    ensures var at := s.delayEvent;
      Commit(Finish(process, done, dep, next, cap, delay), s, m) ==
        m[done := m[done] + EmptyAt(at)]
         [dep := m[dep] + (if PushFlag(m, process, next) == 1 then EmptyAt(at) else [])]
         [cap := m[cap] + EmptyAt(at)]
         [process := m[process][1..]]
  {
    var d := Finish(process, done, dep, next, cap, delay);
    assert Ready(d, m, 0);
    var at := s.delayEvent;
    assert Stamp(EmptyOut, at) == EmptyAt(at);
    var pushed := if PushFlag(m, process, next) == 1 then EmptyAt(at) else [];
    assert Accept(d, at, m, 0) == m;
    var a1 := Accept(d, at, m, 1);
    assert a1 == m[done := m[done] + EmptyAt(at)];
    var a2 := Accept(d, at, m, 2);
    assert FrontAt(a1, process) == FrontAt(m, process);
    assert Stamp(d.produce[1](a1), at) == pushed;
    assert a2 == a1[dep := a1[dep] + pushed];
    var a3 := Accept(d, at, m, 3);
    assert a3 == a2[cap := a2[cap] + EmptyAt(at)];
    assert s.consumeTokens == [1];
    assert Fire(d, s.consumeTokens, a3, 0) == a3;
    assert Commit(d, s, m) == a3[process := Drop(a3[process], 1)];
  }

  lemma ComputeLaunchEffect(s: TState, m: M)
    requires |m| == NPlaces && FiresNow(TcomputeLaunch, s, m)
    ensures var kn := if PopFlag(m, PcomputeInstQ, true) == 1 then 1 else 0;
      var kp := if PopFlag(m, PcomputeInstQ, false) == 1 then 1 else 0;
      && |m[PcomputeInstQ]| >= 1 && |m[Pstore2compute]| >= kn && |m[Pload2compute]| >= kp
      && Commit(TcomputeLaunch, s, m) ==
         m[PcomputeProcess := m[PcomputeProcess] + [Token(s.delayEvent, m[PcomputeInstQ][0].data)]]
          [PcomputeInstQ := m[PcomputeInstQ][1..]]
          [Pstore2compute := Drop(m[Pstore2compute], kn)]
          [Pload2compute := Drop(m[Pload2compute], kp)]
  {
    var d := TcomputeLaunch;
    var kn := if PopFlag(m, PcomputeInstQ, true) == 1 then 1 else 0;
    var kp := if PopFlag(m, PcomputeInstQ, false) == 1 then 1 else 0;
    assert Ready(d, m, 0) && Ready(d, m, 1) && Ready(d, m, 2);
    var at := s.delayEvent;
    assert Stamp(EmptyOut, at) == EmptyAt(at);
    assert Accept(d, at, m, 0) == m;
    var a := Accept(d, at, m, 1);
    assert d.produce[0](m) == Take(m[PcomputeInstQ], 1);
    assert Stamp(Take(m[PcomputeInstQ], 1), at) == [Token(at, m[PcomputeInstQ][0].data)];
    assert a == m[PcomputeProcess := m[PcomputeProcess] + [Token(at, m[PcomputeInstQ][0].data)]];
    assert s.consumeTokens == [1, kn, kp];
    assert Fire(d, s.consumeTokens, a, 0) == a;
    var f1 := Fire(d, s.consumeTokens, a, 1);
    assert f1 == a[PcomputeInstQ := Drop(a[PcomputeInstQ], 1)];
    var f2 := Fire(d, s.consumeTokens, a, 2);
    assert f2 == f1[Pstore2compute := Drop(f1[Pstore2compute], kn)];
    assert Commit(d, s, m) == f2[Pload2compute := Drop(f2[Pload2compute], kp)];
  }

  lemma ComputeDoneEffect(s: TState, m: M)
    requires |m| == NPlaces && FiresNow(TcomputeDone, s, m)
    ensures |m[PcomputeProcess]| >= 1
    ensures var at := s.delayEvent;
      Commit(TcomputeDone, s, m) ==
        m[PcomputeDone := m[PcomputeDone] + EmptyAt(at)]
         [Pcompute2load := m[Pcompute2load] + (if PushFlag(m, PcomputeProcess, false) == 1 then EmptyAt(at) else [])]
         [Pcompute2store := m[Pcompute2store] + (if PushFlag(m, PcomputeProcess, true) == 1 then EmptyAt(at) else [])]
         [PcomputeCap := m[PcomputeCap] + EmptyAt(at)]
         [PcomputeProcess := m[PcomputeProcess][1..]]
  {
    var d := TcomputeDone;
    assert Ready(d, m, 0);
    var at := s.delayEvent;
    assert Stamp(EmptyOut, at) == EmptyAt(at);
    var toLoad := if PushFlag(m, PcomputeProcess, false) == 1 then EmptyAt(at) else [];
    var toStore := if PushFlag(m, PcomputeProcess, true) == 1 then EmptyAt(at) else [];
    assert Accept(d, at, m, 0) == m;
    var a1 := Accept(d, at, m, 1);
    assert a1 == m[PcomputeDone := m[PcomputeDone] + EmptyAt(at)];
    var a2 := Accept(d, at, m, 2);
    assert FrontAt(a1, PcomputeProcess) == FrontAt(m, PcomputeProcess);
    assert Stamp(d.produce[1](a1), at) == toLoad;
    assert a2 == a1[Pcompute2load := a1[Pcompute2load] + toLoad];
    var a3 := Accept(d, at, m, 3);
    assert FrontAt(a2, PcomputeProcess) == FrontAt(m, PcomputeProcess);
    assert Stamp(d.produce[2](a2), at) == toStore;
    assert a3 == a2[Pcompute2store := a2[Pcompute2store] + toStore];
    var a4 := Accept(d, at, m, 4);
    assert a4 == a3[PcomputeCap := a3[PcomputeCap] + EmptyAt(at)];
    assert s.consumeTokens == [1];
    assert Fire(d, s.consumeTokens, a4, 0) == a4;
    assert Commit(d, s, m) == a4[PcomputeProcess := Drop(a4[PcomputeProcess], 1)];
  }

  lemma T13Effect(s: TState, m: M)
    requires |m| == NPlaces && FiresNow(T13, s, m)
    ensures |m[Plaunch]| >= 1
    ensures Commit(T13, s, m) ==
      m[PsReadCmd := m[PsReadCmd] + Stamp(ReadCmds(TotalInsnOf(m[Plaunch][0].data)), s.delayEvent)]
       [Plaunch := m[Plaunch][1..]]
  {
    var d := T13;
    assert Ready(d, m, 0);
    var at := s.delayEvent;
    assert Stamp(EmptyOut, at) == EmptyAt(at);
    assert Accept(d, at, m, 0) == m;
    var a := Accept(d, at, m, 1);
    assert a == m[PsReadCmd := m[PsReadCmd] + Stamp(ReadCmds(TotalInsnOf(m[Plaunch][0].data)), at)];
    assert s.consumeTokens == [1];
    assert Fire(d, s.consumeTokens, a, 0) == a;
    assert Commit(d, s, m) == a[Plaunch := Drop(a[Plaunch], 1)];
  }

  /** `t9` moves exactly the instructions it removes from `pnumInsn`, in order. */
  lemma T9Effect(s: TState, m: M)
    requires |m| == NPlaces && FiresNow(T9, s, m)
    ensures |m[PsReadCmd]| >= 1 && |m[Pcontrol]| >= 1
    ensures var n := ReadLen(m);
      var at := s.delayEvent;
    assert Stamp(EmptyOut, at) == EmptyAt(at);
      && Take(m[PnumInsn], n) + Drop(m[PnumInsn], n) == m[PnumInsn]
      && Commit(T9, s, m) ==
         m[PsDrain := m[PsDrain] + Stamp(Take(m[PnumInsn], n), at)]
          [PcontrolPrime := m[PcontrolPrime] + EmptyAt(at)]
          [PsReadCmd := m[PsReadCmd][1..]]
          [Pcontrol := m[Pcontrol][1..]]
          [PnumInsn := Drop(m[PnumInsn], n)]
  {
    var d := T9;
    var n := ReadLen(m);
    assert Ready(d, m, 0) && Ready(d, m, 1) && Ready(d, m, 2);
    var at := s.delayEvent;
    assert Stamp(EmptyOut, at) == EmptyAt(at);
    assert Accept(d, at, m, 0) == m;
    var a1 := Accept(d, at, m, 1);
    assert a1 == m[PsDrain := m[PsDrain] + Stamp(Take(m[PnumInsn], n), at)];
    var a2 := Accept(d, at, m, 2);
    assert a2 == a1[PcontrolPrime := a1[PcontrolPrime] + EmptyAt(at)];
    assert s.consumeTokens == [1, 1, n];
    assert Fire(d, s.consumeTokens, a2, 0) == a2;
    var f1 := Fire(d, s.consumeTokens, a2, 1);
    assert f1 == a2[PsReadCmd := Drop(a2[PsReadCmd], 1)];
    var f2 := Fire(d, s.consumeTokens, a2, 2);
    assert f2 == f1[Pcontrol := Drop(f1[Pcontrol], 1)];
    assert Commit(d, s, m) == f2[PnumInsn := Drop(f2[PnumInsn], n)];
    var q := m[PnumInsn];
    if 0 <= n {
      assert Take(q, n) + Drop(q, n) == q[..n] + q[n..];
    } else {
      assert Take(q, n) == [];
    }
  }

  lemma T12Effect(s: TState, m: M)
    requires |m| == NPlaces && FiresNow(T12, s, m)
    ensures |m[PcontrolPrime]| >= 1
    ensures Commit(T12, s, m) ==
      m[Pcontrol := m[Pcontrol] + EmptyAt(s.delayEvent)][PcontrolPrime := m[PcontrolPrime][1..]]
  {
    var d := T12;
    assert Ready(d, m, 0);
    var at := s.delayEvent;
    assert Stamp(EmptyOut, at) == EmptyAt(at);
    assert Accept(d, at, m, 0) == m;
    var a := Accept(d, at, m, 1);
    assert a == m[Pcontrol := m[Pcontrol] + EmptyAt(at)];
    assert s.consumeTokens == [1];
    assert Fire(d, s.consumeTokens, a, 0) == a;
    assert Commit(d, s, m) == a[PcontrolPrime := Drop(a[PcontrolPrime], 1)];
  }

  // --- conservation ------------------------------------------------------

  /** Tokens of one unit: free capacity, queued and in process. */
  function UnitCount(m: M, cap: nat, queue: nat, process: nat): nat
    requires |m| == NPlaces && cap < NPlaces && queue < NPlaces && process < NPlaces
  {
    |m[cap]| + |m[queue]| + |m[process]|
  }

  function LoadCount(m: M): nat requires |m| == NPlaces {
    UnitCount(m, PloadCap, PloadInstQ, PloadProcess)
  }

  function ComputeCount(m: M): nat requires |m| == NPlaces {
    UnitCount(m, PcomputeCap, PcomputeInstQ, PcomputeProcess)
  }

  function StoreCount(m: M): nat requires |m| == NPlaces {
    UnitCount(m, PstoreCap, PstoreInstQ, PstoreProcess)
  }

  function ControlCount(m: M): nat requires |m| == NPlaces {
    |m[Pcontrol]| + |m[PcontrolPrime]|
  }

  ghost predicate Conserved(m: M, m': M)
    requires |m| == NPlaces && |m'| == NPlaces
  {
    && LoadCount(m') == LoadCount(m)
    && ComputeCount(m') == ComputeCount(m)
    && StoreCount(m') == StoreCount(m)
    && ControlCount(m') == ControlCount(m)
  }

  lemma T13Conserves(s: TState, m: M)
    requires |m| == NPlaces && FiresNow(T13, s, m)
    ensures Conserved(m, Commit(T13, s, m))
  {
    T13Effect(s, m);
  }

  lemma T9Conserves(s: TState, m: M)
    requires |m| == NPlaces && FiresNow(T9, s, m)
    ensures Conserved(m, Commit(T9, s, m))
  {
    T9Effect(s, m);
    var m' := Commit(T9, s, m);
    assert |m'[Pcontrol]| + 1 == |m[Pcontrol]|;
    assert |m'[PcontrolPrime]| == |m[PcontrolPrime]| + 1;
    assert forall p :: PloadCap <= p <= PloadProcess ==> m'[p] == m[p];
  }

  lemma T12Conserves(s: TState, m: M)
    requires |m| == NPlaces && FiresNow(T12, s, m)
    ensures Conserved(m, Commit(T12, s, m))
  {
    T12Effect(s, m);
  }

  lemma DispatchConserves(cap: nat, queue: nat, s: TState, m: M)
    requires (cap, queue) in {(PloadCap, PloadInstQ), (PcomputeCap, PcomputeInstQ), (PstoreCap, PstoreInstQ)}
    requires |m| == NPlaces && FiresNow(Dispatch(cap, queue), s, m)
    ensures Conserved(m, Commit(Dispatch(cap, queue), s, m))
  {
    DispatchEffect(cap, queue, s, m);
  }

  lemma LaunchConserves(queue: nat, dep: nat, next: bool, process: nat, s: TState, m: M)
    requires (queue, dep, process) in {(PloadInstQ, Pcompute2load, PloadProcess), (PstoreInstQ, Pcompute2store, PstoreProcess)}
    requires |m| == NPlaces && FiresNow(Launch(queue, dep, next, process), s, m)
    ensures Conserved(m, Commit(Launch(queue, dep, next, process), s, m))
  {
    LaunchEffect(queue, dep, next, process, s, m);
  }

  lemma FinishConserves(process: nat, done: nat, dep: nat, next: bool, cap: nat, delay: M -> int, s: TState, m: M)
    requires (process, done, dep, cap) in {(PloadProcess, PloadDone, Pload2compute, PloadCap), (PstoreProcess, PstoreDone, Pstore2compute, PstoreCap)}
    requires |m| == NPlaces && FiresNow(Finish(process, done, dep, next, cap, delay), s, m)
    ensures Conserved(m, Commit(Finish(process, done, dep, next, cap, delay), s, m))
  {
    FinishEffect(process, done, dep, next, cap, delay, s, m);
  }

  lemma ComputeLaunchConserves(s: TState, m: M)
    requires |m| == NPlaces && FiresNow(TcomputeLaunch, s, m)
    ensures Conserved(m, Commit(TcomputeLaunch, s, m))
  {
    ComputeLaunchEffect(s, m);
  }

  lemma ComputeDoneConserves(s: TState, m: M)
    requires |m| == NPlaces && FiresNow(TcomputeDone, s, m)
    ensures Conserved(m, Commit(TcomputeDone, s, m))
  {
    ComputeDoneEffect(s, m);
  }

  /** Every transition of the net, committed on the marking that enabled it,
      keeps the token count of each unit (capacity, queue, process) and of
      the control loop. */
  lemma CapacityKept(loadDelay: M -> int, t: nat, s: TState, m: M)
    requires |m| == NPlaces && t < 12 && FiresNow(Defs(loadDelay)[t], s, m)
    ensures Conserved(m, Commit(Defs(loadDelay)[t], s, m))
  {
    if t == 0 {
      T13Conserves(s, m);
    } else if t == 1 {
      T9Conserves(s, m);
    } else if t == 2 {
      T12Conserves(s, m);
    } else if t == 3 {
      DispatchConserves(PloadCap, PloadInstQ, s, m);
    } else if t == 4 {
      DispatchConserves(PcomputeCap, PcomputeInstQ, s, m);
    } else if t == 5 {
      DispatchConserves(PstoreCap, PstoreInstQ, s, m);
    } else if t == 6 {
      LaunchConserves(PloadInstQ, Pcompute2load, true, PloadProcess, s, m);
    } else if t == 7 {
      FinishConserves(PloadProcess, PloadDone, Pload2compute, true, PloadCap, loadDelay, s, m);
    } else if t == 8 {
      LaunchConserves(PstoreInstQ, Pcompute2store, false, PstoreProcess, s, m);
    } else if t == 9 {
      FinishConserves(PstoreProcess, PstoreDone, Pstore2compute, false, PstoreCap, DelayStore, s, m);
    } else if t == 10 {
      ComputeLaunchConserves(s, m);
    } else {
      ComputeDoneConserves(s, m);
    }
  }

  // --- the table and the initial marking ---------------------------------

  /** Every transition names only the net's places and has one closure per arc. */
  lemma DefsWellFormed(loadDelay: M -> int)
    ensures forall t :: 0 <= t < 12 ==> WellFormed(Defs(loadDelay)[t], NPlaces)
  {
    forall t | 0 <= t < 12
      ensures WellFormed(Def(loadDelay, t), NPlaces)
    {
      if t < 4 {
        FrontDefsWellFormed(loadDelay, t);
      } else if t < 8 {
        MiddleDefsWellFormed(loadDelay, t);
      } else {
        BackDefsWellFormed(loadDelay, t);
      }
    }
  }

  /** `t13`, `t9`, `t12` and the load dispatch. */
  lemma FrontDefsWellFormed(loadDelay: M -> int, t: nat)
    requires t < 4
    ensures WellFormed(Def(loadDelay, t), NPlaces)
  {
    if t == 0 { assert WellFormed(T13, NPlaces); }
    else if t == 1 { assert WellFormed(T9, NPlaces); }
    else if t == 2 { assert WellFormed(T12, NPlaces); }
    else { assert WellFormed(Dispatch(PloadCap, PloadInstQ), NPlaces); }
  }

  /** The compute and store dispatch and the load unit. */
  lemma MiddleDefsWellFormed(loadDelay: M -> int, t: nat)
    requires 4 <= t < 8
    ensures WellFormed(Def(loadDelay, t), NPlaces)
  {
    if t == 4 { assert WellFormed(Dispatch(PcomputeCap, PcomputeInstQ), NPlaces); }
    else if t == 5 { assert WellFormed(Dispatch(PstoreCap, PstoreInstQ), NPlaces); }
    else if t == 6 { LaunchWellFormed(PloadInstQ, Pcompute2load, true, PloadProcess); }
    else { FinishWellFormed(PloadProcess, PloadDone, Pload2compute, true, PloadCap, loadDelay); }
  }

  /** The store and compute units. */
  lemma BackDefsWellFormed(loadDelay: M -> int, t: nat)
    requires 8 <= t < 12
    ensures WellFormed(Def(loadDelay, t), NPlaces)
  {
    if t == 8 { LaunchWellFormed(PstoreInstQ, Pcompute2store, false, PstoreProcess); }
    else if t == 9 { FinishWellFormed(PstoreProcess, PstoreDone, Pstore2compute, false, PstoreCap, DelayStore); }
    else { ComputeWellFormed(); }
  }

  lemma LaunchWellFormed(queue: nat, dep: nat, next: bool, process: nat)
    requires queue < NPlaces && dep < NPlaces && process < NPlaces
    ensures WellFormed(Launch(queue, dep, next, process), NPlaces)
  {
    var d := Launch(queue, dep, next, process);
    assert d.inputs == [queue, dep] && d.outputs == [process];
  }

  lemma FinishWellFormed(process: nat, done: nat, dep: nat, next: bool, cap: nat, delay: M -> int)
    requires process < NPlaces && done < NPlaces && dep < NPlaces && cap < NPlaces
    ensures WellFormed(Finish(process, done, dep, next, cap, delay), NPlaces)
  {
    var d := Finish(process, done, dep, next, cap, delay);
    assert d.inputs == [process] && d.outputs == [done, dep, cap];
  }

  lemma ComputeWellFormed()
    ensures WellFormed(TcomputeLaunch, NPlaces) && WellFormed(TcomputeDone, NPlaces)
  {
    assert TcomputeLaunch.inputs == [PcomputeInstQ, Pstore2compute, Pload2compute];
    assert TcomputeDone.outputs == [PcomputeDone, Pcompute2load, Pcompute2store, PcomputeCap];
  }

  /** The capacity of each unit's instruction window. */
  const UnitCapacity: nat := 512

  /** The marking `lpn_init` leaves: 512 free slots per unit and one control token. */
  function Initialized(m: M): (r: M)
    requires |m| == NPlaces
    ensures |r| == NPlaces
  {
    var e := Token(0, EmptyTok);
    m[PcomputeCap := m[PcomputeCap] + Repeat(e, UnitCapacity)]
     [PloadCap := m[PloadCap] + Repeat(e, UnitCapacity)]
     [PstoreCap := m[PstoreCap] + Repeat(e, UnitCapacity)]
     [Pcontrol := m[Pcontrol] + Repeat(e, 1)]
  }

  /** From the empty net, the initial marking gives every unit 512 tokens and
      the control loop 1, and leaves every other place empty. */
  lemma InitialCounts(m: M)
    requires |m| == NPlaces && forall p :: 0 <= p < NPlaces ==> m[p] == []
    ensures var r := Initialized(m);
      && |r[PcomputeCap]| == 512 && |r[PloadCap]| == 512 && |r[PstoreCap]| == 512 && |r[Pcontrol]| == 1
      && LoadCount(r) == 512 && ComputeCount(r) == 512 && StoreCount(r) == 512 && ControlCount(r) == 1
      && forall p :: 0 <= p < NPlaces && p !in {PcomputeCap, PloadCap, PstoreCap, Pcontrol} ==> r[p] == []
  {
  }

  /** `lpn_init`, with its static `init_done` flag passed in and out. A
      second call reaches `assert(0)`, reported as `aborted`, and changes nothing. */
  method LpnInit(net: Lpn<VtaTok>, initDone: bool) returns (done: bool, aborted: bool)
    requires net.Valid() && net.nPlaces == NPlaces
    modifies net`tokens
    ensures net.Valid()
    ensures done && aborted == initDone
    ensures net.tokens == if initDone then old(net.tokens) else Initialized(old(net.tokens))
  {
    if initDone {
      return true, true;
    }
    net.CreateEmptyQueue(PcomputeCap, 512, EmptyTok);
    net.CreateEmptyQueue(PloadCap, 512, EmptyTok);
    net.CreateEmptyQueue(PstoreCap, 512, EmptyTok);
    net.CreateEmptyQueue(Pcontrol, 1, EmptyTok);
    return true, false;
  }

  // --- read commands -----------------------------------------------------

  /** The instructions a sequence of read commands asks for. */
  function SumCounts(s: seq<Tok>): int {
    if s == [] then 0 else SumCounts(s[..|s| - 1]) + InsnCountOf(s[|s| - 1].data)
  }

  lemma {:induction false} SumCountsAppend(a: seq<Tok>, b: seq<Tok>)
    ensures SumCounts(a + b) == SumCounts(a) + SumCounts(b)
    decreases |b|
  {
    if b == [] {
      assert a + b == a;
    } else {
      var b' := b[..|b| - 1];
      assert (a + b)[..|a + b| - 1] == a + b';
      SumCountsAppend(a, b');
    }
  }

  lemma {:induction false} SumCountsRepeat(c: int, n: nat)
    ensures SumCounts(Repeat(Token(0, InsnCountTok(c)), n)) == c * n
  {
    if n > 0 {
      var r := Repeat(Token(0, InsnCountTok(c)), n);
      assert r[..n - 1] == Repeat(Token(0, InsnCountTok(c)), n - 1);
      SumCountsRepeat(c, n - 1);
    }
  }

  /** `output_insn_read_cmd` splits `total` instructions into ceil(total/8)
      commands of 8, the last one holding the remainder, that together ask
      for exactly `total` instructions; a non-positive total asks for none. */
  lemma ReadCmdsCover(total: int)
    ensures total <= 0 ==> ReadCmds(total) == []
    ensures total >= 0 ==> SumCounts(ReadCmds(total)) == total
    ensures total >= 0 ==> |ReadCmds(total)| == CeilDiv(total, 8)
    ensures forall i :: 0 <= i < |ReadCmds(total)| ==>
      1 <= ReadCmds(total)[i].data.insnCount <= 8 &&
      (i < |ReadCmds(total)| - 1 ==> ReadCmds(total)[i].data.insnCount == 8)
  {
    if total >= 0 {
      CDivNonNeg(total, 8);
      var full := Repeat(Token(0, InsnCountTok(8)), total / 8);
      var rest: seq<Tok> := if total % 8 > 0 then [Token(0, InsnCountTok(total % 8))] else [];
      assert ReadCmds(total) == full + rest;
      SumCountsAppend(full, rest);
      SumCountsRepeat(8, total / 8);
      if rest != [] {
        assert rest[..0] == [];
      }
    }
  }

  /** One launch token becomes one read command for one instruction. */
  lemma LaunchYieldsOneReadCmd()
    ensures ReadCmds(TotalInsnOf(MakeLaunchToken())) == [Token(0, InsnCountTok(1))]
  {
    CDivNonNeg(1, 8);
  }

  // --- delays of classified instructions ---------------------------------

  /** A GEMM instruction costs 6 cycles plus one per micro-op per iteration. */
  lemma GemmDelay(insns: seq<Insn>, loaded: nat)
    requires loaded < |insns| && insns[loaded].mem.opcode == OpGemm
    ensures var g := insns[loaded].gemm;
      ComputeCycles(MakeNumInsnToken(insns, loaded)) == 6 + (g.uopEnd - g.uopBgn) * g.iterOut * g.iterIn
  {
  }

  /** An ALU instruction costs twice the GEMM work per micro-op, or the same with an immediate. */
  lemma AluDelay(insns: seq<Insn>, loaded: nat)
    requires loaded < |insns| && insns[loaded].mem.opcode == OpAlu
    ensures var a := insns[loaded].alu;
      ComputeCycles(MakeNumInsnToken(insns, loaded)) ==
        6 + (a.uopEnd - a.uopBgn) * a.iterOut * a.iterIn * (if a.useImm then 1 else 2)
  {
  }

  /** An empty load of accumulator or micro-op memory is a 2-cycle compute synchronisation. */
  lemma NopComputeDelay(insns: seq<Insn>, loaded: nat)
    requires loaded < |insns|
    requires var mi := insns[loaded].mem;
      mi.opcode == OpLoad && mi.xSize == 0 && mi.memoryType in {MemAcc, MemAcc8Bit, MemUop}
    ensures MakeNumInsnToken(insns, loaded).opcode == Compute
    ensures ComputeCycles(MakeNumInsnToken(insns, loaded)) == 2
  {
  }

  /** For non-negative sizes, the micro-op load costs 22 cycles plus
      `xsize` per pair of rows, an odd last row counting as a pair. */
  lemma LoadUopCyclesClosed(f: InsnFields)
    requires f.xsize >= 0 && f.ysize >= 0
    ensures LoadUopCycles(f) == 22 + f.xsize * (f.ysize / 2 + 1)
  {
    CDivNonNeg(f.ysize, 2);
    var rows := (f.ysize + 2) - f.ysize % 2;
    assert rows == 2 * (f.ysize / 2 + 1);
    var prod := f.xsize * rows;
    assert prod == 2 * (f.xsize * (f.ysize / 2 + 1));
    CDivNonNeg(prod, 2);
  }

  /** For non-negative sizes, a store costs 27 cycles per full 8-element group per row. */
  lemma StoreCyclesClosed(f: InsnFields)
    requires f.xsize >= 0
    ensures StoreCycles(f) == 27 * (f.xsize / 8) * f.ysize
  {
    CDivNonNeg(f.xsize, 8);
  }
}
