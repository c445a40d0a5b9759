// The JPEG decoder performance net: its places, the constant token counts
// and empty-token producers of `funcs.hh`, the delays, the transition
// table of `transitions.hh` and the initial marking of `lpn_def.hh`, fed
// into the engine of module LpnEngine.
//
// The net is a pipeline over MCUs: `t1` admits a task, `t0` spends the
// MCU's decode latency, `t2`, `t3` and `t4` stand for the three colour
// phases of an MCU, `t5` retires a block and `tfinal` gathers four
// retired blocks into a finished one.
module JpegNet {
  import opened Arith
  import opened LpnEngine

  /** `EmptyToken`, or an `mcu_token` with its decode latency in cycles. */
  datatype JpegTok = EmptyTok | McuTok(delay: int)

  type M = Marking<JpegTok>
  type Tok = Token<JpegTok>

  // --- places, in declaration order ------------------------------------

  const Ptasks: nat := 0
  const P0: nat := 1
  const P1: nat := 2
  const P2: nat := 3
  const P3: nat := 4
  const P4: nat := 5
  const P5: nat := 6
  const P6: nat := 7
  const P7: nat := 8
  const P8: nat := 9
  const P10: nat := 10
  const P11: nat := 11
  const P20: nat := 12
  const P21: nat := 13
  const P22: nat := 14
  const Pdone: nat := 15
  const PbeforeDone: nat := 16
  const Pvarlatency: nat := 17
  const NPlaces: nat := 18

  // --- delays ------------------------------------------------------------

  /** `lpnjpeg::CYCLEPERIOD`: picoseconds per cycle of the 150 MHz clock. */
  const CyclePeriod: nat := 1_000_000 / 150

  /** `c` cycles as the transition's `int` delay: the unsigned 64-bit
      product with `CYCLEPERIOD`, narrowed to `int`. */
  function Picos(c: int): (r: int)
    ensures 0 <= c * CyclePeriod < 0x8000_0000 ==> r == c * 6666
    ensures -0x8000_0000 <= r < 0x8000_0000
  {
    ToI32(ToU64(c * CyclePeriod))
  }

  /** `conDelay(c)` */
  function ConDelay(c: int): M -> int {
    _ => Picos(c)
  }

  /** The decode latency the front `pvarlatency` token carries (0 if none). */
  function FrontLatency(m: M): int {
    if Pvarlatency < |m| && |m[Pvarlatency]| > 0 && m[Pvarlatency][0].data.McuTok?
    then m[Pvarlatency][0].data.delay else 0
  }

  /** `mcuDelay` */
  function McuDelay(m: M): int {
    Picos(FrontLatency(m))
  }

  // --- token counts and producers ----------------------------------------

  /** `takeSomeToken(c)`; `take0Token`, `take1Token` and `take4Token` are `Take(0)`, `Take(1)` and `Take(4)`. */
  function Take(c: int): M -> int {
    _ => c
  }

  /** `NEW_TOKEN(EmptyToken, ...)`: a fresh empty token. */
  const Blank: Tok := Token(0, EmptyTok)

  /** `passEmptyToken()` */
  function PassEmpty(m: M): seq<Tok> {
    Repeat(Blank, 1)
  }

  /** `pass4EmptyToken()` */
  function Pass4Empty(m: M): seq<Tok> {
    Repeat(Blank, 4)
  }

  // --- the transition table ----------------------------------------------

  /** `t1`: a task and the admission token become one MCU in flight. */
  const T1: TransDef<JpegTok> :=
    TransDef([Ptasks, P8], [Take(1), Take(1)], [0, 0], [P7], [PassEmpty], ConDelay(0))

  /** `t0`: the MCU spends its decode latency and frees admission. */
  const T0: TransDef<JpegTok> :=
    TransDef([P7, P4, Pvarlatency], [Take(1), Take(1), Take(1)], [0, 0, 0],
             [P0, P8], [PassEmpty, PassEmpty], McuDelay)

  /** `t5`: one token from each phase retires a block. */
  const T5: TransDef<JpegTok> :=
    TransDef([P1, P2, P3], [Take(1), Take(1), Take(1)], [0, 0, 0],
             [PbeforeDone, P6], [PassEmpty, PassEmpty], ConDelay(65))

  /** `tfinal`: four retired blocks make one finished block. */
  const Tfinal: TransDef<JpegTok> :=
    TransDef([PbeforeDone], [Take(4)], [0], [Pdone], [PassEmpty], ConDelay(0))

  /** `t4`: needs two `p6` tokens but takes four. */
  const T4: TransDef<JpegTok> :=
    TransDef([P0, P22, P6], [Take(1), Take(1), Take(4)], [0, 0, 2],
             [P3, P20, P4], [Pass4Empty, Pass4Empty, PassEmpty], ConDelay(66))

  /** `t3`: needs two `p6` tokens and takes none of them. */
  const T3: TransDef<JpegTok> :=
    TransDef([P0, P21, P6], [Take(1), Take(4), Take(0)], [0, 0, 2],
             [P2, P22, P4], [Pass4Empty, PassEmpty, PassEmpty], ConDelay(66))

  /** `t2`: needs two `p6` tokens and takes none of them. */
  const T2: TransDef<JpegTok> :=
    TransDef([P0, P20, P6], [Take(1), Take(1), Take(0)], [0, 0, 2],
             [P1, P21, P4], [PassEmpty, PassEmpty, PassEmpty], ConDelay(66))

  /** `t_list`: `T_SIZE` (6) transitions in the order t0 .. t5; `tfinal` is not listed. */
  const Defs: seq<TransDef<JpegTok>> := [T0, T1, T2, T3, T4, T5]

  const TSize: nat := 6

  // --- enabling ----------------------------------------------------------

  /** Every transition names only the net's places, with one closure per arc. */
  lemma DefsWellFormed()
    ensures |Defs| == TSize
    ensures forall t :: 0 <= t < TSize ==> WellFormed(Defs[t], NPlaces)
    ensures WellFormed(Tfinal, NPlaces)
  {
    assert WellFormed(T0, NPlaces) && WellFormed(T1, NPlaces) && WellFormed(T2, NPlaces);
    assert WellFormed(T3, NPlaces) && WellFormed(T4, NPlaces) && WellFormed(T5, NPlaces);
  }

  /** `t2` and `t3` wait for two `p6` tokens although they take none, and
      `t4` waits for two although it takes four. */
  lemma PhaseEnabling(m: M)
    requires |m| == NPlaces
    ensures CanFire(T2, m) <==> |m[P0]| >= 1 && |m[P20]| >= 1 && |m[P6]| >= 2
    ensures CanFire(T3, m) <==> |m[P0]| >= 1 && |m[P21]| >= 4 && |m[P6]| >= 2
    ensures CanFire(T4, m) <==> |m[P0]| >= 1 && |m[P22]| >= 1 && |m[P6]| >= 2
  {
    DefsWellFormed();
    ThreeInputs(T2, m);
    ThreeInputs(T3, m);
    ThreeInputs(T4, m);
  }

  lemma ThreeInputs(d: TransDef<JpegTok>, m: M)
    requires Fits(d, m) && |d.inputs| == 3
    ensures CanFire(d, m) <==> Ready(d, m, 0) && Ready(d, m, 1) && Ready(d, m, 2)
  {
  }

  // --- effects of single transitions -------------------------------------

  /** A transition committed on the marking it was enabled on, with the
      counts its weights give there. */
  ghost predicate FiresNow(d: TransDef<JpegTok>, s: TState, m: M) {
    Fits(d, m) && CanFire(d, m) && s.consumeTokens == Counts(d, m)
  }

  /** `n` empty tokens stamped with the event time `at`. */
  function Empties(n: nat, at: int): (r: seq<Tok>)
    ensures |r| == n
  {
    Repeat(Token(at, EmptyTok), n)
  }

  lemma StampEmpties(n: nat, at: int)
    ensures Stamp(Repeat(Blank, n), at) == Empties(n, at)
  {
  }

  lemma T1Effect(s: TState, m: M)
    requires |m| == NPlaces && FiresNow(T1, s, m)
    ensures |m[Ptasks]| >= 1 && |m[P8]| >= 1
    ensures Commit(T1, s, m) ==
      m[P7 := m[P7] + Empties(1, s.delayEvent)][Ptasks := m[Ptasks][1..]][P8 := m[P8][1..]]
  {
    var d := T1;
    assert Ready(d, m, 0) && Ready(d, m, 1);
    var at := s.delayEvent;
    StampEmpties(1, at);
    assert Accept(d, at, m, 0) == m;
    var a := Accept(d, at, m, 1);
    assert a == m[P7 := m[P7] + Empties(1, at)];
    assert s.consumeTokens == [1, 1];
    assert Fire(d, s.consumeTokens, a, 0) == a;
    var f1 := Fire(d, s.consumeTokens, a, 1);
    assert f1 == a[Ptasks := Drop(a[Ptasks], 1)];
    assert Commit(d, s, m) == f1[P8 := Drop(f1[P8], 1)];
  }

  lemma T0Effect(s: TState, m: M)
    requires |m| == NPlaces && FiresNow(T0, s, m)
    ensures |m[P7]| >= 1 && |m[P4]| >= 1 && |m[Pvarlatency]| >= 1
    ensures Commit(T0, s, m) ==
      m[P0 := m[P0] + Empties(1, s.delayEvent)][P8 := m[P8] + Empties(1, s.delayEvent)]
       [P7 := m[P7][1..]][P4 := m[P4][1..]][Pvarlatency := m[Pvarlatency][1..]]
  {
    var d := T0;
    assert Ready(d, m, 0) && Ready(d, m, 1) && Ready(d, m, 2);
    var at := s.delayEvent;
    StampEmpties(1, at);
    assert Accept(d, at, m, 0) == m;
    var a1 := Accept(d, at, m, 1);
    assert a1 == m[P0 := m[P0] + Empties(1, at)];
    var a2 := Accept(d, at, m, 2);
    assert a2 == a1[P8 := a1[P8] + Empties(1, at)];
    assert s.consumeTokens == [1, 1, 1];
    assert Fire(d, s.consumeTokens, a2, 0) == a2;
    var f1 := Fire(d, s.consumeTokens, a2, 1);
    assert f1 == a2[P7 := Drop(a2[P7], 1)];
    var f2 := Fire(d, s.consumeTokens, a2, 2);
    assert f2 == f1[P4 := Drop(f1[P4], 1)];
    assert Commit(d, s, m) == f2[Pvarlatency := Drop(f2[Pvarlatency], 1)];
  }

  lemma T2Effect(s: TState, m: M)
    requires |m| == NPlaces && FiresNow(T2, s, m)
    ensures |m[P0]| >= 1 && |m[P20]| >= 1 && |m[P6]| >= 2
    ensures Commit(T2, s, m) ==
      m[P1 := m[P1] + Empties(1, s.delayEvent)][P21 := m[P21] + Empties(1, s.delayEvent)]
       [P4 := m[P4] + Empties(1, s.delayEvent)][P0 := m[P0][1..]][P20 := m[P20][1..]]
  {
    var d := T2;
    assert Ready(d, m, 0) && Ready(d, m, 1) && Ready(d, m, 2);
    var at := s.delayEvent;
    StampEmpties(1, at);
    var a1 := Accept(d, at, m, 1);
    assert a1 == m[P1 := m[P1] + Empties(1, at)];
    var a2 := Accept(d, at, m, 2);
    assert a2 == a1[P21 := a1[P21] + Empties(1, at)];
    var a3 := Accept(d, at, m, 3);
    assert a3 == a2[P4 := a2[P4] + Empties(1, at)];
    assert s.consumeTokens == [1, 1, 0];
    var f1 := Fire(d, s.consumeTokens, a3, 1);
    assert f1 == a3[P0 := Drop(a3[P0], 1)];
    var f2 := Fire(d, s.consumeTokens, a3, 2);
    assert f2 == f1[P20 := Drop(f1[P20], 1)];
    assert Commit(d, s, m) == f2[P6 := Drop(f2[P6], 0)];
  }

  lemma T3Effect(s: TState, m: M)
    requires |m| == NPlaces && FiresNow(T3, s, m)
    ensures |m[P0]| >= 1 && |m[P21]| >= 4 && |m[P6]| >= 2
    ensures Commit(T3, s, m) ==
      m[P2 := m[P2] + Empties(4, s.delayEvent)][P22 := m[P22] + Empties(1, s.delayEvent)]
       [P4 := m[P4] + Empties(1, s.delayEvent)][P0 := m[P0][1..]][P21 := m[P21][4..]]
  {
    var d := T3;
    assert Ready(d, m, 0) && Ready(d, m, 1) && Ready(d, m, 2);
    var at := s.delayEvent;
    StampEmpties(1, at);
    StampEmpties(4, at);
    var a1 := Accept(d, at, m, 1);
    assert a1 == m[P2 := m[P2] + Empties(4, at)];
    var a2 := Accept(d, at, m, 2);
    assert a2 == a1[P22 := a1[P22] + Empties(1, at)];
    var a3 := Accept(d, at, m, 3);
    assert a3 == a2[P4 := a2[P4] + Empties(1, at)];
    assert s.consumeTokens == [1, 4, 0];
    var f1 := Fire(d, s.consumeTokens, a3, 1);
    assert f1 == a3[P0 := Drop(a3[P0], 1)];
    var f2 := Fire(d, s.consumeTokens, a3, 2);
    assert f2 == f1[P21 := Drop(f1[P21], 4)];
    assert Commit(d, s, m) == f2[P6 := Drop(f2[P6], 0)];
  }

  /** With only two or three `p6` tokens present, `t4` removes them all. */
  lemma T4Effect(s: TState, m: M)
    requires |m| == NPlaces && FiresNow(T4, s, m)
    ensures |m[P0]| >= 1 && |m[P22]| >= 1 && |m[P6]| >= 2
    ensures Commit(T4, s, m) ==
      m[P3 := m[P3] + Empties(4, s.delayEvent)][P20 := m[P20] + Empties(4, s.delayEvent)]
       [P4 := m[P4] + Empties(1, s.delayEvent)][P0 := m[P0][1..]][P22 := m[P22][1..]]
       [P6 := Drop(m[P6], 4)]
    ensures |m[P6]| < 4 ==> Commit(T4, s, m)[P6] == []
  {
    var d := T4;
    assert Ready(d, m, 0) && Ready(d, m, 1) && Ready(d, m, 2);
    var at := s.delayEvent;
    StampEmpties(1, at);
    StampEmpties(4, at);
    var a1 := Accept(d, at, m, 1);
    assert a1 == m[P3 := m[P3] + Empties(4, at)];
    var a2 := Accept(d, at, m, 2);
    assert a2 == a1[P20 := a1[P20] + Empties(4, at)];
    var a3 := Accept(d, at, m, 3);
    assert a3 == a2[P4 := a2[P4] + Empties(1, at)];
    assert s.consumeTokens == [1, 1, 4];
    var f1 := Fire(d, s.consumeTokens, a3, 1);
    assert f1 == a3[P0 := Drop(a3[P0], 1)];
    var f2 := Fire(d, s.consumeTokens, a3, 2);
    assert f2 == f1[P22 := Drop(f1[P22], 1)];
    assert Commit(d, s, m) == f2[P6 := Drop(f2[P6], 4)];
  }

  lemma T5Effect(s: TState, m: M)
    requires |m| == NPlaces && FiresNow(T5, s, m)
    ensures |m[P1]| >= 1 && |m[P2]| >= 1 && |m[P3]| >= 1
    ensures Commit(T5, s, m) ==
      m[PbeforeDone := m[PbeforeDone] + Empties(1, s.delayEvent)][P6 := m[P6] + Empties(1, s.delayEvent)]
       [P1 := m[P1][1..]][P2 := m[P2][1..]][P3 := m[P3][1..]]
  {
    var d := T5;
    assert Ready(d, m, 0) && Ready(d, m, 1) && Ready(d, m, 2);
    var at := s.delayEvent;
    StampEmpties(1, at);
    var a1 := Accept(d, at, m, 1);
    assert a1 == m[PbeforeDone := m[PbeforeDone] + Empties(1, at)];
    var a2 := Accept(d, at, m, 2);
    assert a2 == a1[P6 := a1[P6] + Empties(1, at)];
    assert s.consumeTokens == [1, 1, 1];
    var f1 := Fire(d, s.consumeTokens, a2, 1);
    assert f1 == a2[P1 := Drop(a2[P1], 1)];
    var f2 := Fire(d, s.consumeTokens, a2, 2);
    assert f2 == f1[P2 := Drop(f1[P2], 1)];
    assert Commit(d, s, m) == f2[P3 := Drop(f2[P3], 1)];
  }

  lemma TfinalEffect(s: TState, m: M)
    requires |m| == NPlaces && FiresNow(Tfinal, s, m)
    ensures |m[PbeforeDone]| >= 4
    ensures Commit(Tfinal, s, m) ==
      m[Pdone := m[Pdone] + Empties(1, s.delayEvent)][PbeforeDone := m[PbeforeDone][4..]]
  {
    var d := Tfinal;
    assert Ready(d, m, 0);
    var at := s.delayEvent;
    StampEmpties(1, at);
    var a1 := Accept(d, at, m, 1);
    assert a1 == m[Pdone := m[Pdone] + Empties(1, at)];
    assert s.consumeTokens == [4];
    assert Commit(d, s, m) == a1[PbeforeDone := Drop(a1[PbeforeDone], 4)];
  }

  // --- conserved quantities ----------------------------------------------

  /** MCUs admitted but not yet through `t0`, plus free admission tokens. */
  function AdmitCount(m: M): nat requires |m| == NPlaces {
    |m[P7]| + |m[P8]|
  }

  /** MCUs between `t0` and their colour phase, plus free `p4` slots. */
  function McuSlotCount(m: M): nat requires |m| == NPlaces {
    |m[P0]| + |m[P4]|
  }

  /** The phase ring `p20 -> p21 -> p22 -> p20`, a `p22` token worth four. */
  function PhaseCount(m: M): nat requires |m| == NPlaces {
    |m[P20]| + |m[P21]| + 4 * |m[P22]|
  }

  ghost predicate Conserved(m: M, m': M)
    requires |m| == NPlaces && |m'| == NPlaces
  {
    && AdmitCount(m') == AdmitCount(m)
    && McuSlotCount(m') == McuSlotCount(m)
    && PhaseCount(m') == PhaseCount(m)
    && m'[Pdone] == m[Pdone]
  }

  // Each transition of `t_list` on its own keeps the counts.

  lemma T0Conserves(s: TState, m: M)
    requires |m| == NPlaces && FiresNow(T0, s, m)
    ensures Conserved(m, Commit(T0, s, m))
  {
    T0Effect(s, m);
  }

  lemma T1Conserves(s: TState, m: M)
    requires |m| == NPlaces && FiresNow(T1, s, m)
    ensures Conserved(m, Commit(T1, s, m))
  {
    T1Effect(s, m);
  }

  lemma T2Conserves(s: TState, m: M)
    requires |m| == NPlaces && FiresNow(T2, s, m)
    ensures Conserved(m, Commit(T2, s, m))
  {
    T2Effect(s, m);
  }

  lemma T3Conserves(s: TState, m: M)
    requires |m| == NPlaces && FiresNow(T3, s, m)
    ensures Conserved(m, Commit(T3, s, m))
  {
    T3Effect(s, m);
  }

  lemma T4Conserves(s: TState, m: M)
    requires |m| == NPlaces && FiresNow(T4, s, m)
    ensures Conserved(m, Commit(T4, s, m))
  {
    T4Effect(s, m);
  }

  lemma T5Conserves(s: TState, m: M)
    requires |m| == NPlaces && FiresNow(T5, s, m)
    ensures Conserved(m, Commit(T5, s, m))
  {
    T5Effect(s, m);
  }

  /** Each transition of `t_list`, committed on the marking that enabled it,
      keeps the admission, MCU-slot and phase counts, and none of them
      touches `pdone`. */
  lemma ListedConserve(t: nat, s: TState, m: M)
    requires |m| == NPlaces && t < TSize && FiresNow(Defs[t], s, m)
    ensures Conserved(m, Commit(Defs[t], s, m))
  {
    if t == 0 {
      T0Conserves(s, m);
    } else if t == 1 {
      T1Conserves(s, m);
    } else if t == 2 {
      T2Conserves(s, m);
    } else if t == 3 {
      T3Conserves(s, m);
    } else if t == 4 {
      T4Conserves(s, m);
    } else {
      T5Conserves(s, m);
    }
  }

  /** `t1` followed by `t0` returns the admission token: `|p7| + |p8|` is
      unchanged, one task and one latency token are used up, and one MCU
      reaches `p0`. */
  lemma AdmitRoundTrip(s1: TState, s0: TState, m: M)
    requires |m| == NPlaces && FiresNow(T1, s1, m)
    requires FiresNow(T0, s0, Commit(T1, s1, m))
    ensures var m' := Commit(T0, s0, Commit(T1, s1, m));
      && |m'| == NPlaces
      && |m'[P7]| == |m[P7]| && |m'[P8]| == |m[P8]|
      && |m'[Ptasks]| == |m[Ptasks]| - 1
      && |m'[Pvarlatency]| == |m[Pvarlatency]| - 1
      && |m'[P0]| == |m[P0]| + 1
  {
    T1Effect(s1, m);
    T0Effect(s0, Commit(T1, s1, m));
  }

  /** `tfinal` keeps the three counts too; it is the only transition that fills `pdone`. */
  lemma FinalConserves(s: TState, m: M)
    requires |m| == NPlaces && FiresNow(Tfinal, s, m)
    ensures var m' := Commit(Tfinal, s, m);
      && AdmitCount(m') == AdmitCount(m) && McuSlotCount(m') == McuSlotCount(m)
      && PhaseCount(m') == PhaseCount(m)
      && |m'[Pdone]| == |m[Pdone]| + 1 && |m'[PbeforeDone]| == |m[PbeforeDone]| - 4
  {
    TfinalEffect(s, m);
  }

  // --- the initial marking -----------------------------------------------

  /** The marking `lpn_init` leaves. */
  function Initialized(m: M): (r: M)
    requires |m| == NPlaces
    ensures |r| == NPlaces
  {
    m[P4 := m[P4] + Repeat(Blank, 4)]
     [P5 := m[P5] + Repeat(Blank, 7)]
     [P6 := m[P6] + Repeat(Blank, 4)]
     [P8 := m[P8] + Repeat(Blank, 1)]
     [P11 := m[P11] + Repeat(Blank, 4)]
     [P20 := m[P20] + Repeat(Blank, 4)]
  }

  /** From the empty net: `p4 = 4`, `p5 = 7`, `p6 = 4`, `p8 = 1`,
      `p11 = 4`, `p20 = 4`, every other place empty; so one admission
      token, four MCU slots and a phase count of four. */
  lemma InitialCounts(m: M)
    requires |m| == NPlaces && forall p :: 0 <= p < NPlaces ==> m[p] == []
    ensures var r := Initialized(m);
      && |r[P4]| == 4 && |r[P5]| == 7 && |r[P6]| == 4 && |r[P8]| == 1 && |r[P11]| == 4 && |r[P20]| == 4
      && AdmitCount(r) == 1 && McuSlotCount(r) == 4 && PhaseCount(r) == 4
      && forall p :: 0 <= p < NPlaces && p !in {P4, P5, P6, P8, P11, P20} ==> r[p] == []
  {
  }

  /** `lpn_init`, with its static `init_done` flag passed in and out: the
      first call fills six places, later calls change nothing. */
  method LpnInit(net: Lpn<JpegTok>, initDone: bool) returns (done: bool)
    requires net.Valid() && net.nPlaces == NPlaces
    modifies net`tokens
    ensures net.Valid() && done
    ensures net.tokens == if initDone then old(net.tokens) else Initialized(old(net.tokens))
  {
    if initDone {
      return true;
    }
    net.CreateEmptyQueue(P4, 4, EmptyTok);
    net.CreateEmptyQueue(P5, 7, EmptyTok);
    net.CreateEmptyQueue(P6, 4, EmptyTok);
    net.CreateEmptyQueue(P8, 1, EmptyTok);
    net.CreateEmptyQueue(P11, 4, EmptyTok);
    net.CreateEmptyQueue(P20, 4, EmptyTok);
    done := true;
  }
}
