// The labelled, timed Petri-net engine shared by the VTA and JPEG models:
// FIFO token places, transitions enabled by token-count thresholds,
// scheduled at max(enable, pipeline) + delay, and committed by producing
// output tokens before consuming input tokens.
//
// A C++ place object becomes an index into the marking `tokens`; the
// closures a transition holds (input weights, output producers, delay)
// become total functions of the marking they read.
module LpnEngine {
  import opened Arith

  /** `LARGE` (`1<<30`): the time reported for "no event". */
  const LARGE: int := 0x4000_0000

  datatype Token<D> = Token(ts: int, data: D)

  /** Place id -> FIFO of tokens, front first. */
  type Marking<D> = seq<seq<Token<D>>>

  /** The constant part of a transition record. */
  datatype TransDef<!D> = TransDef(
    inputs: seq<nat>,
    weights: seq<Marking<D> -> int>,
    thresholds: seq<int>,
    outputs: seq<nat>,
    produce: seq<Marking<D> -> seq<Token<D>>>,
    delay: Marking<D> -> int)

  /** The fields of a transition record the engine updates. */
  datatype TState = TState(
    delayEvent: int,
    disable: bool,
    pip: int,
    pipTs: int,
    count: int,
    time: int,
    consumeTokens: seq<int>)

  /** The member defaults of a transition record. */
  const Fresh: TState := TState(-1, false, -1, 0, 0, 0, [])

  ghost predicate WellFormed<D>(d: TransDef<D>, n: nat) {
    && |d.weights| == |d.inputs|
    && |d.thresholds| == |d.inputs|
    && |d.produce| == |d.outputs|
    && (forall i :: 0 <= i < |d.inputs| ==> d.inputs[i] < n)
    && (forall i :: 0 <= i < |d.outputs| ==> d.outputs[i] < n)
  }

  ghost predicate Fits<D>(d: TransDef<D>, m: Marking<D>) {
    WellFormed(d, |m|)
  }

  // ---------------------------------------------------------------------
  // Specification of the engine functions on values

  /** `check_token_requirement`: `-2` asks for an empty place. */
  predicate CheckTokenRequirement(len: nat, num: int) {
    if num == -2 then len == 0 else len >= num
  }

  /** Removing `n` tokens from the front; popping an empty place is a no-op. */
  function Drop<T>(s: seq<T>, n: int): (r: seq<T>)
    ensures n <= 0 ==> r == s
    ensures 0 <= n <= |s| ==> r == s[n..]
    ensures n >= |s| ==> r == []
  {
    if n <= 0 then s else if n >= |s| then [] else s[n..]
  }

  /** Real token counts of every input, evaluated on the marking. */
  function Counts<D>(d: TransDef<D>, m: Marking<D>): (r: seq<int>)
    requires |d.weights| == |d.inputs|
    ensures |r| == |d.inputs|
    ensures forall i :: 0 <= i < |r| ==> r[i] == d.weights[i](m)
  {
    seq(|d.inputs|, i requires 0 <= i < |d.inputs| => d.weights[i](m))
  }

  /** The count checked for input `i`: a non-zero threshold replaces the real count. */
  function Threshold<D>(d: TransDef<D>, m: Marking<D>, i: nat): int
    requires Fits(d, m) && i < |d.inputs|
  {
    if d.thresholds[i] == 0 then d.weights[i](m) else d.thresholds[i]
  }

  predicate Ready<D>(d: TransDef<D>, m: Marking<D>, i: nat)
    requires Fits(d, m) && i < |d.inputs|
  {
    CheckTokenRequirement(|m[d.inputs[i]]|, Threshold(d, m, i))
  }

  predicate CanFire<D>(d: TransDef<D>, m: Marking<D>)
    requires Fits(d, m)
  {
    forall i :: 0 <= i < |d.inputs| ==> Ready(d, m, i)
  }

  /** The timestamp of the last token input `i` needs; 0 when it needs none. */
  function NeededTs<D>(d: TransDef<D>, m: Marking<D>, i: nat): int
    requires Fits(d, m) && i < |d.inputs|
  {
    var th := Threshold(d, m, i);
    var s := m[d.inputs[i]];
    if 1 <= th <= |s| then s[th - 1].ts else 0
  }

  /** Maximum of 0 and the needed timestamps of inputs `[0, k)`. */
  function MaxTs<D>(d: TransDef<D>, m: Marking<D>, k: nat): (r: int)
    requires Fits(d, m) && k <= |d.inputs|
    ensures r >= 0
  {
    if k == 0 then 0 else Max(MaxTs(d, m, k - 1), NeededTs(d, m, k - 1))
  }

  function EnabledTs<D>(d: TransDef<D>, m: Marking<D>): int
    requires Fits(d, m)
  {
    MaxTs(d, m, |d.inputs|)
  }

  /** `MaxTs` is the maximum: an upper bound that is attained (or 0). */
  lemma {:induction false} MaxTsIsMax<D>(d: TransDef<D>, m: Marking<D>, k: nat)
    requires Fits(d, m) && k <= |d.inputs|
    ensures forall i :: 0 <= i < k ==> NeededTs(d, m, i) <= MaxTs(d, m, k)
    ensures MaxTs(d, m, k) == 0 || exists i :: 0 <= i < k && MaxTs(d, m, k) == NeededTs(d, m, i)
  {
    if k > 0 {
      MaxTsIsMax(d, m, k - 1);
    }
  }

  /** `trigger` on one transition record: the new record and the result. */
  function TriggerSpec<D>(s: TState, d: TransDef<D>, m: Marking<D>): (TState, bool)
    requires Fits(d, m)
  {
    if s.delayEvent != -1 then (s, true)
    else if s.disable then (s, false)
    else if !CanFire(d, m) then (s.(consumeTokens := []), false)
    else
      var enable := Max(EnabledTs(d, m), s.pipTs);
      var mature := enable + d.delay(m);
      (s.(consumeTokens := s.consumeTokens + Counts(d, m),
          pipTs := if s.pip != -1 then enable + s.pip else mature,
          delayEvent := mature), true)
  }

  /** Output tokens get the timestamp of the event that made them. */
  function Stamp<D>(ts: seq<Token<D>>, at: int): (r: seq<Token<D>>)
    ensures |r| == |ts|
    ensures forall i :: 0 <= i < |r| ==> r[i] == Token(at, ts[i].data)
  {
    seq(|ts|, i requires 0 <= i < |ts| => Token(at, ts[i].data))
  }

  /** `accept_t` on the outputs `[0, k)`, in order. */
  function Accept<D>(d: TransDef<D>, at: int, m: Marking<D>, k: nat): (r: Marking<D>)
    requires Fits(d, m) && k <= |d.outputs|
    ensures |r| == |m|
    decreases k
  {
    if k == 0 then m
    else
      var m' := Accept(d, at, m, k - 1);
      var p := d.outputs[k - 1];
      m'[p := m'[p] + Stamp(d.produce[k - 1](m'), at)]
  }

  /** `fire_t` on the inputs `[0, k)`, using the recorded counts. */
  function Fire<D>(d: TransDef<D>, counts: seq<int>, m: Marking<D>, k: nat): (r: Marking<D>)
    requires Fits(d, m) && k <= |d.inputs| && k <= |counts|
    ensures |r| == |m|
    decreases k
  {
    if k == 0 then m
    else
      var m' := Fire(d, counts, m, k - 1);
      var p := d.inputs[k - 1];
      m'[p := Drop(m'[p], counts[k - 1])]
  }

  /** Committing a transition: outputs first, then inputs. */
  function Commit<D>(d: TransDef<D>, s: TState, m: Marking<D>): (r: Marking<D>)
    requires Fits(d, m) && |s.consumeTokens| >= |d.inputs|
    ensures |r| == |m|
  {
    var m' := Accept(d, s.delayEvent, m, |d.outputs|);
    Fire(d, s.consumeTokens, m', |d.inputs|)
  }

  /** `sync(t, time)`: the new record, the new marking and the result. */
  function SyncSpec<D>(s: TState, d: TransDef<D>, m: Marking<D>, time: int): (TState, Marking<D>, bool)
    requires Fits(d, m)
    requires s.delayEvent != -1 ==> |s.consumeTokens| >= |d.inputs|
  {
    if s.delayEvent == -1 then (s, m, true)
    else if time >= s.delayEvent then
      (s.(delayEvent := -1, consumeTokens := []), Commit(d, s, m), false)
    else (s, m, false)
  }

  /** `n` copies of `x`. */
  function Repeat<T>(x: T, n: nat): (r: seq<T>)
    ensures |r| == n && forall i :: 0 <= i < n ==> r[i] == x
  {
    if n == 0 then [] else Repeat(x, n - 1) + [x]
  }

  /** `min_time` */
  function MinTime(s: TState): int {
    if s.delayEvent != -1 then s.delayEvent else LARGE
  }

  /** The value `min_time_g` computes: LARGE capped by every listed `min_time`. */
  function MinTimeOf(trans: seq<TState>, tl: seq<nat>): int
    requires InRange(tl, |trans|)
  {
    if tl == [] then LARGE
    else Min(MinTimeOf(trans, tl[..|tl| - 1]), MinTime(trans[tl[|tl| - 1]]))
  }

  /** `MinTimeOf` is the smallest listed event time, or LARGE if none is smaller. */
  lemma {:induction false} MinTimeOfIsMin(trans: seq<TState>, tl: seq<nat>)
    requires InRange(tl, |trans|)
    ensures MinTimeOf(trans, tl) <= LARGE
    ensures forall k :: 0 <= k < |tl| ==> MinTimeOf(trans, tl) <= MinTime(trans[tl[k]])
    ensures MinTimeOf(trans, tl) == LARGE ||
      exists k :: 0 <= k < |tl| && trans[tl[k]].delayEvent != -1 && MinTimeOf(trans, tl) == trans[tl[k]].delayEvent
  {
    if tl != [] {
      var init := tl[..|tl| - 1];
      MinTimeOfIsMin(trans, init);
      forall k | 0 <= k < |tl|
        ensures MinTimeOf(trans, tl) <= MinTime(trans[tl[k]])
      {
        if k < |init| { assert tl[k] == init[k]; }
      }
      if MinTimeOf(trans, tl) != LARGE && MinTimeOf(trans, tl) == MinTimeOf(trans, init) {
        var k :| 0 <= k < |init| && trans[init[k]].delayEvent != -1 && MinTimeOf(trans, init) == trans[init[k]].delayEvent;
        assert tl[k] == init[k];
      }
    }
  }

  // ---------------------------------------------------------------------
  // Properties of the specification

  /** The enabling time is no earlier than any token an input needs, and the
      maturity time no earlier than the enabling and pipeline times. */
  lemma {:induction false} TriggerSchedules<D>(s: TState, d: TransDef<D>, m: Marking<D>)
    requires Fits(d, m) && s.delayEvent == -1 && !s.disable && CanFire(d, m)
    ensures var (s', r) := TriggerSpec(s, d, m);
      && r
      && s'.delayEvent - d.delay(m) >= s.pipTs
      && (forall i :: 0 <= i < |d.inputs| && Threshold(d, m, i) >= 1 ==>
            Threshold(d, m, i) <= |m[d.inputs[i]]| &&
            m[d.inputs[i]][Threshold(d, m, i) - 1].ts <= s'.delayEvent - d.delay(m))
      && s'.consumeTokens == s.consumeTokens + Counts(d, m)
      && (s.pip == -1 ==> s'.pipTs == s'.delayEvent)
  {
    forall i | 0 <= i < |d.inputs| && Threshold(d, m, i) >= 1
      ensures Threshold(d, m, i) <= |m[d.inputs[i]]| &&
        m[d.inputs[i]][Threshold(d, m, i) - 1].ts <= EnabledTs(d, m)
    {
      assert Ready(d, m, i);
      MaxTsIsMax(d, m, |d.inputs|);
      assert NeededTs(d, m, i) <= EnabledTs(d, m);
    }
  }

  /** A transition that does not schedule keeps its event time. */
  lemma TriggerOutcome<D>(s: TState, d: TransDef<D>, m: Marking<D>)
    requires Fits(d, m)
    ensures var (s', r) := TriggerSpec(s, d, m);
      && (r <==> (s.delayEvent != -1 || (!s.disable && CanFire(d, m))))
      && (!r ==> s'.delayEvent == s.delayEvent && s'.pipTs == s.pipTs)
      && s'.disable == s.disable && s'.pip == s.pip && s'.count == s.count
  {
  }

  /** A record is consistent when an unscheduled transition holds no counts. */
  predicate Consistent<D>(s: TState, d: TransDef<D>) {
    (s.delayEvent == -1 ==> s.consumeTokens == []) &&
    (s.delayEvent != -1 ==> |s.consumeTokens| >= |d.inputs|)
  }

  /** Triggering twice on the same marking is triggering once, unless the
      schedule lands exactly on the "no event" value -1. */
  lemma {:induction false} TriggerIdempotent<D>(s: TState, d: TransDef<D>, m: Marking<D>)
    requires Fits(d, m) && Consistent(s, d)
    requires TriggerSpec(s, d, m).0.delayEvent != -1 || !TriggerSpec(s, d, m).1
    ensures Consistent(TriggerSpec(s, d, m).0, d)
    ensures TriggerSpec(TriggerSpec(s, d, m).0, d, m) == (TriggerSpec(s, d, m).0, TriggerSpec(s, d, m).1)
  {
    var (s', r) := TriggerSpec(s, d, m);
    if s.delayEvent == -1 && !s.disable && CanFire(d, m) {
      assert s.consumeTokens == [];
      assert |s'.consumeTokens| == |d.inputs|;
    }
  }

  /** After a commit-time sync the transition is unscheduled or due later. */
  lemma SyncClears<D>(s: TState, d: TransDef<D>, m: Marking<D>, time: int)
    requires Fits(d, m) && (s.delayEvent != -1 ==> |s.consumeTokens| >= |d.inputs|)
    ensures var (s', m', r) := SyncSpec(s, d, m, time);
      && (s'.delayEvent == -1 || s'.delayEvent > time)
      && (r <==> s.delayEvent == -1)
      && (m' != m ==> s.delayEvent != -1 && time >= s.delayEvent)
      && (Consistent(s, d) ==> Consistent(s', d))
  {
  }

  /** Accept only appends tokens stamped with the event time, per output. */
  lemma {:induction false} AcceptAppends<D>(d: TransDef<D>, at: int, m: Marking<D>, k: nat, p: nat)
    requires Fits(d, m) && k <= |d.outputs| && p < |m|
    ensures |Accept(d, at, m, k)[p]| >= |m[p]|
    ensures Accept(d, at, m, k)[p][..|m[p]|] == m[p]
    ensures forall j :: |m[p]| <= j < |Accept(d, at, m, k)[p]| ==> Accept(d, at, m, k)[p][j].ts == at
    ensures (forall i :: 0 <= i < k ==> d.outputs[i] != p) ==> Accept(d, at, m, k)[p] == m[p]
  {
    if k > 0 {
      AcceptAppends(d, at, m, k - 1, p);
      var m' := Accept(d, at, m, k - 1);
      if d.outputs[k - 1] == p {
        var added := Stamp(d.produce[k - 1](m'), at);
        assert Accept(d, at, m, k)[p] == m'[p] + added;
        assert (m'[p] + added)[..|m[p]|] == m'[p][..|m[p]|];
      }
    }
  }

  /** `a` is what remains of `b` after removing some tokens from its front. */
  ghost predicate IsSuffix<T>(a: seq<T>, b: seq<T>) {
    |a| <= |b| && a == b[|b| - |a|..]
  }

  lemma SuffixTrans<T>(a: seq<T>, b: seq<T>, c: seq<T>)
    requires IsSuffix(a, b) && IsSuffix(b, c)
    ensures IsSuffix(a, c)
  {
    assert c[|c| - |b|..][|b| - |a|..] == c[|c| - |a|..];
  }

  lemma DropIsSuffix<T>(s: seq<T>, n: int)
    ensures IsSuffix(Drop(s, n), s)
  {
  }

  /** Fire only removes tokens from the front of each input place. */
  lemma {:induction false} FireDrops<D>(d: TransDef<D>, counts: seq<int>, m: Marking<D>, k: nat, p: nat)
    requires Fits(d, m) && k <= |d.inputs| && k <= |counts| && p < |m|
    ensures IsSuffix(Fire(d, counts, m, k)[p], m[p])
  {
    if k > 0 {
      FireDrops(d, counts, m, k - 1, p);
      var m' := Fire(d, counts, m, k - 1);
      var q := d.inputs[k - 1];
      assert Fire(d, counts, m, k) == m'[q := Drop(m'[q], counts[k - 1])];
      if q == p {
        var s := m'[p];
        var r := Drop(s, counts[k - 1]);
        DropIsSuffix(s, counts[k - 1]);
        assert IsSuffix(s, m[p]);
        SuffixTrans(r, s, m[p]);
        assert Fire(d, counts, m, k)[p] == r;
      } else {
        assert Fire(d, counts, m, k)[p] == m'[p];
      }
    }
  }

  /** A place that is no input of the transition keeps its tokens. */
  lemma {:induction false} FireUntouched<D>(d: TransDef<D>, counts: seq<int>, m: Marking<D>, k: nat, p: nat)
    requires Fits(d, m) && k <= |d.inputs| && k <= |counts| && p < |m|
    requires forall i :: 0 <= i < k ==> d.inputs[i] != p
    ensures Fire(d, counts, m, k)[p] == m[p]
  {
    if k > 0 {
      FireUntouched(d, counts, m, k - 1, p);
    }
  }

  // ---------------------------------------------------------------------
  // Folds of the engine over a transition list (`LOOP_TS`)

  ghost predicate NetShape<D>(defs: seq<TransDef<D>>, trans: seq<TState>, m: Marking<D>) {
    && |trans| == |defs|
    && (forall t :: 0 <= t < |defs| ==> Fits(defs[t], m))
    && (forall t :: 0 <= t < |defs| ==>
          trans[t].delayEvent != -1 ==> |trans[t].consumeTokens| >= |defs[t].inputs|)
  }

  ghost predicate InRange(tl: seq<nat>, n: nat) {
    forall k :: 0 <= k < |tl| ==> tl[k] < n
  }

  /** The transition records after triggering `tl[0..k)` in order. */
  function TriggerAll<D>(defs: seq<TransDef<D>>, trans: seq<TState>, m: Marking<D>, tl: seq<nat>, k: nat): (r: seq<TState>)
    requires NetShape(defs, trans, m) && InRange(tl, |defs|) && k <= |tl|
    ensures NetShape(defs, r, m)
    decreases k
  {
    if k == 0 then trans
    else
      var prev := TriggerAll(defs, trans, m, tl, k - 1);
      var t := tl[k - 1];
      prev[t := TriggerSpec(prev[t], defs[t], m).0]
  }

  /** The records and marking after syncing `tl[0..k)` in order. */
  function SyncAll<D>(defs: seq<TransDef<D>>, trans: seq<TState>, m: Marking<D>, tl: seq<nat>, time: int, k: nat): (r: (seq<TState>, Marking<D>))
    requires NetShape(defs, trans, m) && InRange(tl, |defs|) && k <= |tl|
    ensures NetShape(defs, r.0, r.1) && |r.1| == |m|
    decreases k
  {
    if k == 0 then (trans, m)
    else
      var (prev, pm) := SyncAll(defs, trans, m, tl, time, k - 1);
      var t := tl[k - 1];
      var (s', m', _) := SyncSpec(prev[t], defs[t], pm, time);
      (prev[t := s'], m')
  }

  /** After `CommitAtTime(time)` no listed transition remains scheduled at or
      before `time`. */
  lemma {:induction false} SyncAllDue<D>(defs: seq<TransDef<D>>, trans: seq<TState>, m: Marking<D>, tl: seq<nat>, time: int, k: nat)
    requires NetShape(defs, trans, m) && InRange(tl, |defs|) && k <= |tl|
    ensures forall j :: 0 <= j < k ==>
      SyncAll(defs, trans, m, tl, time, k).0[tl[j]].delayEvent == -1 ||
      SyncAll(defs, trans, m, tl, time, k).0[tl[j]].delayEvent > time
  {
    if k > 0 {
      SyncAllDue(defs, trans, m, tl, time, k - 1);
      var prev := SyncAll(defs, trans, m, tl, time, k - 1).0;
      var pm := SyncAll(defs, trans, m, tl, time, k - 1).1;
      var t := tl[k - 1];
      SyncClears(prev[t], defs[t], pm, time);
      var r := SyncAll(defs, trans, m, tl, time, k).0;
      assert r == prev[t := SyncSpec(prev[t], defs[t], pm, time).0];
      forall j | 0 <= j < k
        ensures r[tl[j]].delayEvent == -1 || r[tl[j]].delayEvent > time
      {
        if tl[j] != t {
          assert r[tl[j]] == prev[tl[j]];
        }
      }
    }
  }

  /** Transitions not in the list keep their records under `CommitAtTime`. */
  lemma {:induction false} SyncAllUnlisted<D>(defs: seq<TransDef<D>>, trans: seq<TState>, m: Marking<D>, tl: seq<nat>, time: int, k: nat, t: nat)
    requires NetShape(defs, trans, m) && InRange(tl, |defs|) && k <= |tl| && t < |defs|
    requires forall j :: 0 <= j < k ==> tl[j] != t
    ensures SyncAll(defs, trans, m, tl, time, k).0[t] == trans[t]
  {
    if k > 0 {
      SyncAllUnlisted(defs, trans, m, tl, time, k - 1, t);
    }
  }

  /** Triggering never changes a transition that is already scheduled. */
  lemma {:induction false} TriggerAllKeepsScheduled<D>(defs: seq<TransDef<D>>, trans: seq<TState>, m: Marking<D>, tl: seq<nat>, k: nat, t: nat)
    requires NetShape(defs, trans, m) && InRange(tl, |defs|) && k <= |tl| && t < |defs|
    requires trans[t].delayEvent != -1
    ensures TriggerAll(defs, trans, m, tl, k)[t] == trans[t]
  {
    if k > 0 {
      TriggerAllKeepsScheduled(defs, trans, m, tl, k - 1, t);
    }
  }

  /** Transitions not in the list keep their records under triggering. */
  lemma {:induction false} TriggerAllUnlisted<D>(defs: seq<TransDef<D>>, trans: seq<TState>, m: Marking<D>, tl: seq<nat>, k: nat, t: nat)
    requires NetShape(defs, trans, m) && InRange(tl, |defs|) && k <= |tl| && t < |defs|
    requires forall j :: 0 <= j < k ==> tl[j] != t
    ensures TriggerAll(defs, trans, m, tl, k)[t] == trans[t]
  {
    if k > 0 {
      TriggerAllUnlisted(defs, trans, m, tl, k - 1, t);
    }
  }

  /** With non-negative delays, every listed transition ends scheduled,
      disabled, or unable to fire. */
  lemma {:induction false} TriggerAllSettles<D>(defs: seq<TransDef<D>>, trans: seq<TState>, m: Marking<D>, tl: seq<nat>, k: nat)
    requires NetShape(defs, trans, m) && InRange(tl, |defs|) && k <= |tl|
    requires forall t :: 0 <= t < |defs| ==> defs[t].delay(m) >= 0
    ensures forall j :: 0 <= j < k ==>
      var s := TriggerAll(defs, trans, m, tl, k)[tl[j]];
      s.delayEvent != -1 || s.disable || !CanFire(defs[tl[j]], m)
  {
    if k > 0 {
      TriggerAllSettles(defs, trans, m, tl, k - 1);
      var prev := TriggerAll(defs, trans, m, tl, k - 1);
      var t := tl[k - 1];
      var r := TriggerAll(defs, trans, m, tl, k);
      assert r == prev[t := TriggerSpec(prev[t], defs[t], m).0];
      forall j | 0 <= j < k
        ensures r[tl[j]].delayEvent != -1 || r[tl[j]].disable || !CanFire(defs[tl[j]], m)
      {
        if tl[j] != t {
          assert r[tl[j]] == prev[tl[j]];
        } else {
          TriggerOutcome(prev[t], defs[t], m);
        }
      }
    }
  }

  // ---------------------------------------------------------------------
  // The engine state and its operations

  class Lpn<D> {
    const defs: seq<TransDef<D>>
    const nPlaces: nat
    var tokens: Marking<D>
    var tokensInit: Marking<D>
    var trans: seq<TState>

    ghost predicate Valid()
      reads this
    {
      && |tokens| == nPlaces
      && |tokensInit| == nPlaces
      && NetShape(defs, trans, tokens)
    }

    /** Every place starts empty and every transition with the record defaults. */
    constructor (defs: seq<TransDef<D>>, nPlaces: nat)
      requires forall t :: 0 <= t < |defs| ==> WellFormed(defs[t], nPlaces)
      ensures Valid() && this.defs == defs && this.nPlaces == nPlaces
      ensures forall p :: 0 <= p < nPlaces ==> tokens[p] == [] && tokensInit[p] == []
      ensures forall t :: 0 <= t < |defs| ==> trans[t] == Fresh
      ensures |tokens| == nPlaces && |trans| == |defs|
    {
      this.defs := defs;
      this.nPlaces := nPlaces;
      tokens := seq(nPlaces, _ => []);
      tokensInit := seq(nPlaces, _ => []);
      trans := seq(|defs|, _ => Fresh);
    }

    // --- place<T> -------------------------------------------------------

    function TokensLen(p: nat): (r: nat)
      requires Valid() && p < nPlaces
      reads this
      ensures r == |tokens[p]|
    {
      |tokens[p]|
    }

    function TsAt(p: nat, idx: nat): (r: int)
      requires Valid() && p < nPlaces && idx < |tokens[p]|
      reads this
      ensures r == tokens[p][idx].ts
    {
      tokens[p][idx].ts
    }

    function HasInit(p: nat): (r: bool)
      requires Valid() && p < nPlaces
      reads this
      ensures r <==> tokensInit[p] != []
    {
      |tokensInit[p]| > 0
    }

    function InitSize(p: nat): (r: nat)
      requires Valid() && p < nPlaces
      reads this
      ensures r == |tokensInit[p]|
    {
      |tokensInit[p]|
    }

    method PushToken(p: nat, tok: Token<D>)
      requires Valid() && p < nPlaces
      modifies this`tokens
      ensures Valid()
      ensures tokens == old(tokens)[p := old(tokens[p]) + [tok]]
    {
      tokens := tokens[p := tokens[p] + [tok]];
    }

    method PopToken(p: nat)
      requires Valid() && p < nPlaces
      modifies this`tokens
      ensures Valid()
      ensures tokens == old(tokens)[p := Drop(old(tokens[p]), 1)]
    {
      if |tokens[p]| > 0 {
        tokens := tokens[p := tokens[p][1..]];
      }
    }

    method Reset(p: nat)
      requires Valid() && p < nPlaces
      modifies this`tokens
      ensures Valid()
      ensures tokens == old(tokens)[p := []]
      ensures tokensInit == old(tokensInit)
    {
      tokens := tokens[p := []];
    }

    method CopyToInit(p: nat)
      requires Valid() && p < nPlaces
      modifies this`tokensInit
      ensures Valid()
      ensures tokensInit == old(tokensInit)[p := old(tokensInit[p]) + tokens[p]]
      ensures HasInit(p) <==> (old(tokensInit[p]) != [] || tokens[p] != [])
    {
      var i := 0;
      while i < |tokens[p]|
        invariant 0 <= i <= |tokens[p]|
        invariant |tokensInit| == nPlaces
        invariant tokensInit[p] == old(tokensInit[p]) + tokens[p][..i]
        invariant forall q :: 0 <= q < nPlaces && q != p ==> tokensInit[q] == old(tokensInit[q])
      {
        tokensInit := tokensInit[p := tokensInit[p] + [tokens[p][i]]];
        i := i + 1;
        assert tokens[p][..i] == tokens[p][..i - 1] + [tokens[p][i - 1]];
      }
      assert tokens[p][..i] == tokens[p];
    }

    method SetTokenTs(p: nat, idx: nat, ts: int)
      requires Valid() && p < nPlaces && idx < |tokens[p]|
      modifies this`tokens
      ensures Valid()
      ensures tokens == old(tokens)[p := old(tokens[p])[idx := old(tokens[p][idx]).(ts := ts)]]
    {
      tokens := tokens[p := tokens[p][idx := tokens[p][idx].(ts := ts)]];
    }

    /** `create_empty_queue`: appends `n` fresh tokens (timestamp 0). */
    method CreateEmptyQueue(p: nat, n: int, empty: D)
      requires Valid() && p < nPlaces
      modifies this`tokens
      ensures Valid()
      ensures tokens == old(tokens)[p := old(tokens[p]) + Repeat(Token(0, empty), Max(n, 0))]
    {
      var i := 0;
      while i < n
        invariant 0 <= i <= Max(n, 0)
        invariant Valid()
        invariant tokens[p] == old(tokens[p]) + Repeat(Token(0, empty), i)
        invariant forall q :: 0 <= q < nPlaces && q != p ==> tokens[q] == old(tokens[q])
      {
        PushToken(p, Token(0, empty));
        i := i + 1;
      }
      assert forall q :: 0 <= q < nPlaces ==>
        tokens[q] == old(tokens)[p := old(tokens[p]) + Repeat(Token(0, empty), Max(n, 0))][q];
    }

    // --- transition engine ---------------------------------------------

    /** `fire(p, n)`: pops `n` tokens from the front of place `p`. */
    method FirePlace(p: nat, n: int)
      requires Valid() && p < nPlaces
      modifies this`tokens
      ensures Valid()
      ensures tokens == old(tokens)[p := Drop(old(tokens[p]), n)]
    {
      var i := 0;
      while i < n
        invariant 0 <= i <= Max(n, 0)
        invariant Valid()
        invariant tokens[p] == Drop(old(tokens[p]), i)
        invariant forall q :: 0 <= q < nPlaces && q != p ==> tokens[q] == old(tokens[q])
      {
        PopToken(p);
        i := i + 1;
      }
      assert forall q :: 0 <= q < nPlaces ==> tokens[q] == old(tokens)[p := Drop(old(tokens[p]), n)][q];
    }

    /** `able_to_fire_t`. The counts pushed onto `consume_tokens` are
        collected in a local and stored once: nothing reads them meanwhile. */
    method AbleToFire(t: nat) returns (ok: bool, enabledTs: int)
      requires Valid() && t < |defs|
      modifies this`trans
      ensures ok == CanFire(defs[t], tokens)
      ensures ok ==> enabledTs == EnabledTs(defs[t], tokens)
      ensures trans == old(trans)[t := old(trans[t]).(consumeTokens :=
        if ok then old(trans[t].consumeTokens) + Counts(defs[t], tokens) else [])]
    {
      var d := defs[t];
      var consumed := trans[t].consumeTokens;
      var maxTs := 0;
      for i := 0 to |d.inputs|
        invariant forall j :: 0 <= j < i ==> Ready(d, tokens, j)
        invariant maxTs == MaxTs(d, tokens, i)
        invariant consumed == old(trans[t].consumeTokens) + Counts(d, tokens)[..i]
      {
        var p := d.inputs[i];
        var realCount := d.weights[i](tokens);
        var threshold := if d.thresholds[i] == 0 then realCount else d.thresholds[i];
        consumed := consumed + [realCount];
        assert Counts(d, tokens)[..i + 1] == Counts(d, tokens)[..i] + [realCount];
        if !CheckTokenRequirement(|tokens[p]|, threshold) {
          assert !Ready(d, tokens, i);
          trans := trans[t := trans[t].(consumeTokens := [])];
          return false, 0;
        }
        if threshold >= 1 {
          maxTs := Max(maxTs, tokens[p][threshold - 1].ts);
        }
      }
      assert Counts(d, tokens)[..|d.inputs|] == Counts(d, tokens);
      trans := trans[t := trans[t].(consumeTokens := consumed)];
      return true, maxTs;
    }

    /** `fire_t`: consumes the recorded counts from the inputs, in order. */
    method FireT(t: nat)
      requires Valid() && t < |defs| && |trans[t].consumeTokens| >= |defs[t].inputs|
      modifies this`tokens, this`trans
      ensures tokens == Fire(defs[t], old(trans[t].consumeTokens), old(tokens), |defs[t].inputs|)
      ensures trans == old(trans)[t := old(trans[t]).(consumeTokens := [])]
      ensures Valid() || old(trans[t].delayEvent) != -1
    {
      var d := defs[t];
      ghost var counts := trans[t].consumeTokens;
      for i := 0 to |d.inputs|
        invariant |tokens| == nPlaces
        invariant tokens == Fire(d, counts, old(tokens), i)
        invariant trans == old(trans)[t := old(trans[t]).(consumeTokens := counts[i..])]
      {
        var p := d.inputs[i];
        var n := trans[t].consumeTokens[0];
        trans := trans[t := trans[t].(consumeTokens := trans[t].consumeTokens[1..])];
        assert counts[i..][1..] == counts[i + 1..];
        tokens := tokens[p := Drop(tokens[p], n)];
      }
      trans := trans[t := trans[t].(consumeTokens := [])];
    }

    /** `accept_t`: runs each output producer, then stamps what it added. */
    method AcceptT(t: nat)
      requires Valid() && t < |defs|
      modifies this`tokens
      ensures Valid()
      ensures tokens == Accept(defs[t], trans[t].delayEvent, old(tokens), |defs[t].outputs|)
    {
      var d := defs[t];
      var at := trans[t].delayEvent;
      var i := 0;
      while i < |d.outputs|
        invariant 0 <= i <= |d.outputs|
        invariant Valid()
        invariant tokens == Accept(d, at, old(tokens), i)
      {
        var p := d.outputs[i];
        var ori := |tokens[p]|;
        ghost var before := tokens;
        var made := d.produce[i](tokens);
        tokens := tokens[p := tokens[p] + made];
        StampFrom(p, ori, at);
        assert tokens[p] == before[p] + Stamp(made, at) by {
          assert (before[p] + made)[..ori] == before[p] && (before[p] + made)[ori..] == made;
        }
        i := i + 1;
      }
    }

    /** The inner loop of `accept_t`: stamps the tokens of `p` from index `ori` on. */
    method StampFrom(p: nat, ori: nat, at: int)
      requires |tokens| == nPlaces && p < nPlaces && ori <= |tokens[p]|
      modifies this`tokens
      ensures tokens == old(tokens)[p := old(tokens[p][..ori]) + Stamp(old(tokens[p][ori..]), at)]
    {
      ghost var made := tokens[p][ori..];
      var newSize := |tokens[p]|;
      var k := ori;
      while k < newSize
        invariant ori <= k <= newSize
        invariant |tokens| == nPlaces && |tokens[p]| == newSize
        invariant forall q :: 0 <= q < nPlaces && q != p ==> tokens[q] == old(tokens[q])
        invariant tokens[p][..ori] == old(tokens[p][..ori])
        invariant forall j :: ori <= j < k ==> tokens[p][j] == Token(at, made[j - ori].data)
        invariant forall j :: k <= j < newSize ==> tokens[p][j] == made[j - ori]
      {
        tokens := tokens[p := tokens[p][k := tokens[p][k].(ts := at)]];
        k := k + 1;
      }
      assert tokens[p] == old(tokens[p][..ori]) + Stamp(made, at);
      assert forall q :: 0 <= q < nPlaces ==> tokens[q] == old(tokens)[p := old(tokens[p][..ori]) + Stamp(made, at)][q];
    }

    /** `trigger` */
    method Trigger(t: nat) returns (r: bool)
      requires Valid() && t < |defs|
      modifies this`trans
      ensures Valid()
      ensures trans == old(trans)[t := TriggerSpec(old(trans[t]), defs[t], tokens).0]
      ensures r == TriggerSpec(old(trans[t]), defs[t], tokens).1
    {
      if trans[t].delayEvent != -1 {
        return true;
      }
      if trans[t].disable {
        return false;
      }
      var canFire, enabled := AbleToFire(t);
      if canFire {
        var delayTime := defs[t].delay(tokens);
        var enableTime := Max(enabled, trans[t].pipTs);
        var matureTime := enableTime + delayTime;
        if trans[t].pip != -1 {
          trans := trans[t := trans[t].(pipTs := enableTime + trans[t].pip)];
        } else {
          trans := trans[t := trans[t].(pipTs := matureTime)];
        }
        trans := trans[t := trans[t].(delayEvent := matureTime)];
      }
      r := canFire;
    }

    /** `trigger_for_path`: the same as `trigger`. */
    method TriggerForPath(t: nat) returns (r: bool)
      requires Valid() && t < |defs|
      modifies this`trans
      ensures Valid()
      ensures trans == old(trans)[t := TriggerSpec(old(trans[t]), defs[t], tokens).0]
      ensures r == TriggerSpec(old(trans[t]), defs[t], tokens).1
    {
      r := Trigger(t);
    }

    /** `sync(t, time)` */
    method Sync(t: nat, time: int) returns (r: bool)
      requires Valid() && t < |defs|
      modifies this`tokens, this`trans
      ensures Valid()
      ensures (trans[t], tokens, r) == SyncSpec(old(trans[t]), defs[t], old(tokens), time)
      ensures forall k :: 0 <= k < |trans| && k != t ==> trans[k] == old(trans[k])
    {
      if trans[t].delayEvent == -1 {
        return true;
      }
      if time >= trans[t].delayEvent {
        AcceptT(t);
        FireT(t);
        trans := trans[t := trans[t].(delayEvent := -1)];
      }
      return false;
    }

    /** `sync_for_path`: counts the firing and commits unconditionally. */
    method SyncForPath(t: nat) returns (r: int)
      requires Valid() && t < |defs| && |trans[t].consumeTokens| >= |defs[t].inputs|
      modifies this`tokens, this`trans
      ensures Valid() && r == 0
      ensures tokens == Commit(defs[t], old(trans[t]), old(tokens))
      ensures trans == old(trans)[t := old(trans[t]).(count := old(trans[t].count) + 1,
        delayEvent := -1, consumeTokens := [])]
    {
      trans := trans[t := trans[t].(count := trans[t].count + 1)];
      AcceptT(t);
      FireT(t);
      trans := trans[t := trans[t].(delayEvent := -1)];
      r := 0;
    }

    /** `min_time_g`: the smallest event time over the list, capped by LARGE. */
    method MinTimeG(tl: seq<nat>) returns (min: int)
      requires Valid() && InRange(tl, |defs|)
      ensures min == MinTimeOf(trans, tl)
    {
      min := LARGE;
      var i := 0;
      while i < |tl|
        invariant 0 <= i <= |tl|
        invariant min == MinTimeOf(trans, tl[..i])
      {
        var tm := MinTime(trans[tl[i]]);
        if min > tm {
          min := tm;
        }
        assert tl[..i + 1][..i] == tl[..i];
        i := i + 1;
      }
      assert tl[..i] == tl;
    }

    /** `min_time_t`: the listed transitions whose event time is `minT`, in list order. */
    method MinTimeT(tl: seq<nat>, minT: int) returns (r: seq<nat>)
      requires Valid() && InRange(tl, |defs|)
      ensures r == WithTime(trans, tl, minT)
      ensures forall x :: x in r <==> exists k :: 0 <= k < |tl| && tl[k] == x && MinTime(trans[x]) == minT
    {
      r := [];
      var i := 0;
      while i < |tl|
        invariant 0 <= i <= |tl|
        invariant r == WithTime(trans, tl[..i], minT)
      {
        if minT == MinTime(trans[tl[i]]) {
          r := r + [tl[i]];
        }
        assert tl[..i + 1] == tl[..i] + [tl[i]];
        i := i + 1;
      }
      assert tl[..i] == tl;
      WithTimeMembers(trans, tl, minT);
    }

    /** `LOOP_TS(trigger)`: the common loop of `NextCommitTime`, triggering every listed transition in order. */
    method TriggerList(tl: seq<nat>)
      requires Valid() && InRange(tl, |defs|)
      modifies this`trans
      ensures Valid()
      ensures trans == TriggerAll(defs, old(trans), tokens, tl, |tl|)
    {
      for i := 0 to |tl|
        invariant trans == TriggerAll(defs, old(trans), tokens, tl, i)
      {
        TriggerNext(tl, i, old(trans));
      }
    }

    /** One round of `TriggerList`. */
    method TriggerNext(tl: seq<nat>, i: nat, ghost trans0: seq<TState>)
      requires Valid() && InRange(tl, |defs|) && i < |tl| && NetShape(defs, trans0, tokens)
      requires trans == TriggerAll(defs, trans0, tokens, tl, i)
      modifies this`trans
      ensures Valid()
      ensures trans == TriggerAll(defs, trans0, tokens, tl, i + 1)
    {
      var _ := Trigger(tl[i]);
    }

    /** `NextCommitTime`: triggers every listed transition in order. As
        written it returns 0 whatever the minimum event time is. */
    method NextCommitTime(tl: seq<nat>) returns (r: int)
      requires Valid() && InRange(tl, |defs|)
      modifies this`trans
      ensures Valid() && r == 0
      ensures trans == TriggerAll(defs, old(trans), tokens, tl, |tl|)
    {
      TriggerList(tl);
      var time := MinTimeG(tl);
      if time == LARGE {
        return 0;
      }
      return 0;
    }

    /** The evidently intended `NextCommitTime`: the minimum event time. */
    method NextCommitTimeFixed(tl: seq<nat>) returns (r: int)
      requires Valid() && InRange(tl, |defs|)
      modifies this`trans
      ensures Valid()
      ensures trans == TriggerAll(defs, old(trans), tokens, tl, |tl|)
      ensures r == MinTimeOf(trans, tl)
    {
      TriggerList(tl);
      r := MinTimeG(tl);
    }

    /** `CommitAtTime`: syncs every listed transition in order. */
    method CommitAtTime(tl: seq<nat>, time: int) returns (r: int)
      requires Valid() && InRange(tl, |defs|)
      modifies this`tokens, this`trans
      ensures Valid() && r == 0
      ensures (trans, tokens) == SyncAll(defs, old(trans), old(tokens), tl, time, |tl|)
      ensures forall k :: 0 <= k < |tl| ==> trans[tl[k]].delayEvent == -1 || trans[tl[k]].delayEvent > time
    {
      var i := 0;
      while i < |tl|
        invariant 0 <= i <= |tl|
        invariant Valid()
        invariant (trans, tokens) == SyncAll(defs, old(trans), old(tokens), tl, time, i)
      {
        SyncNext(tl, time, i, old(trans), old(tokens));
        i := i + 1;
      }
      SyncAllDue(defs, old(trans), old(tokens), tl, time, |tl|);
      return 0;
    }

    /** One round of `CommitAtTime`. */
    method SyncNext(tl: seq<nat>, time: int, i: nat, ghost trans0: seq<TState>, ghost tokens0: Marking<D>)
      requires Valid() && InRange(tl, |defs|) && i < |tl| && NetShape(defs, trans0, tokens0)
      requires (trans, tokens) == SyncAll(defs, trans0, tokens0, tl, time, i)
      modifies this`tokens, this`trans
      ensures Valid()
      ensures (trans, tokens) == SyncAll(defs, trans0, tokens0, tl, time, i + 1)
    {
      var t := tl[i];
      ghost var prev := trans;
      var _ := Sync(t, time);
      assert trans == prev[t := SyncSpec(prev[t], defs[t], old(tokens), time).0];
    }
  }

  /** The listed transitions whose `min_time` is `minT`, in list order. */
  function WithTime(trans: seq<TState>, tl: seq<nat>, minT: int): seq<nat>
    requires InRange(tl, |trans|)
  {
    if tl == [] then []
    else
      var rest := WithTime(trans, tl[..|tl| - 1], minT);
      if MinTime(trans[tl[|tl| - 1]]) == minT then rest + [tl[|tl| - 1]] else rest
  }

  lemma {:induction false} WithTimeMembers(trans: seq<TState>, tl: seq<nat>, minT: int)
    requires InRange(tl, |trans|)
    ensures forall x :: x in WithTime(trans, tl, minT) <==>
      exists k :: 0 <= k < |tl| && tl[k] == x && MinTime(trans[x]) == minT
  {
    if tl != [] {
      var init := tl[..|tl| - 1];
      WithTimeMembers(trans, init, minT);
      forall x ensures x in WithTime(trans, tl, minT) <==>
        exists k :: 0 <= k < |tl| && tl[k] == x && MinTime(trans[x]) == minT
      {
        if x in WithTime(trans, tl, minT) && x in WithTime(trans, init, minT) {
          var k :| 0 <= k < |init| && init[k] == x && MinTime(trans[x]) == minT;
          assert tl[k] == x;
        }
        if exists k :: 0 <= k < |tl| && tl[k] == x && MinTime(trans[x]) == minT {
          var k :| 0 <= k < |tl| && tl[k] == x && MinTime(trans[x]) == minT;
          if k < |init| {
            assert init[k] == x;
          }
        }
      }
    }
  }

  // ---------------------------------------------------------------------
  // detect_conflicting_Transition_groups

  /** List entry `i` writes some listed place that another entry also writes. */
  ghost predicate Conflicting<D>(defs: seq<TransDef<D>>, tl: seq<nat>, places: set<nat>, i: nat)
    requires InRange(tl, |defs|) && i < |tl|
  {
    exists p, j :: p in places && 0 <= j < |tl| && j != i && p in defs[tl[i]].outputs && p in defs[tl[j]].outputs
  }

  /** Indices of the list entries that write place `p`, ascending. */
  function Writers<D>(defs: seq<TransDef<D>>, tl: seq<nat>, p: nat, n: nat): (r: seq<nat>)
    requires InRange(tl, |defs|) && n <= |tl|
    ensures forall x :: x in r <==> 0 <= x < n && p in defs[tl[x]].outputs
    ensures forall a :: 0 <= a < |r| ==> r[a] < n
    ensures forall a, b :: 0 <= a < b < |r| ==> r[a] < r[b]
  {
    if n == 0 then []
    else if p in defs[tl[n - 1]].outputs then Writers(defs, tl, p, n - 1) + [n - 1]
    else Writers(defs, tl, p, n - 1)
  }

  /** A strictly ascending list longer than one holds two distinct entries. */
  lemma TwoWriters(r: seq<nat>, x: nat)
    requires forall a, b :: 0 <= a < b < |r| ==> r[a] < r[b]
    requires x in r && |r| > 1
    ensures exists y :: y in r && y != x
  {
    if r[0] == x { assert r[1] in r && r[1] != x; } else { assert r[0] in r; }
  }

  /** The entries of the conflict map that hold `i` in a list of two or more,
      among the places `done`. */
  ghost predicate Shared(potential: map<nat, seq<nat>>, done: set<nat>, i: nat) {
    exists q :: q in done && q in potential && |potential[q]| > 1 && i in potential[q]
  }

  /** Scans an output list for `p`, stopping at the first match. */
  method OutputsContain(outs: seq<nat>, p: nat) returns (b: bool)
    ensures b <==> p in outs
  {
    var k := 0;
    while k < |outs|
      invariant 0 <= k <= |outs|
      invariant p !in outs[..k]
    {
      if p == outs[k] {
        return true;
      }
      k := k + 1;
      assert outs[..k] == outs[..k - 1] + [outs[k - 1]];
    }
    assert outs[..k] == outs;
    return false;
  }

  /** The inner loop of phase 1: the list indices whose transition writes `p`. */
  method WritersOf<D>(defs: seq<TransDef<D>>, tl: seq<nat>, p: nat) returns (found: seq<nat>)
    requires InRange(tl, |defs|)
    ensures found == Writers(defs, tl, p, |tl|)
  {
    found := [];
    var i := 0;
    while i < |tl|
      invariant 0 <= i <= |tl|
      invariant found == Writers(defs, tl, p, i)
    {
      var w := OutputsContain(defs[tl[i]].outputs, p);
      if w {
        found := found + [i];
      }
      i := i + 1;
    }
  }

  /** Phase 1: every listed place some entry writes, with all its writers. */
  method PotentialConflicts<D>(defs: seq<TransDef<D>>, tl: seq<nat>, places: set<nat>) returns (potential: map<nat, seq<nat>>)
    requires InRange(tl, |defs|)
    ensures forall p :: p in potential ==> p in places && potential[p] == Writers(defs, tl, p, |tl|)
    ensures forall p :: p in places && Writers(defs, tl, p, |tl|) != [] ==> p in potential
  {
    potential := map[];
    var todo := places;
    while todo != {}
      invariant todo <= places
      invariant forall p :: p in potential ==> p in places - todo && potential[p] == Writers(defs, tl, p, |tl|)
      invariant forall p :: p in places - todo && Writers(defs, tl, p, |tl|) != [] ==> p in potential
      decreases todo
    {
      var p :| p in todo;
      var found := WritersOf(defs, tl, p);
      if found != [] {
        potential := potential[p := found];
      }
      todo := todo - {p};
    }
  }

  /** Phase 2: every index in a list of two or more writers loses its flag. */
  method ClearShared(potential: map<nat, seq<nat>>, conflictFree: array<int>)
    requires forall p, x :: p in potential && x in potential[p] ==> x < conflictFree.Length
    modifies conflictFree
    ensures forall i :: 0 <= i < conflictFree.Length ==>
      conflictFree[i] == if Shared(potential, potential.Keys, i) then 0 else old(conflictFree[i])
  {
    var keys := potential.Keys;
    while keys != {}
      invariant keys <= potential.Keys
      invariant forall i :: 0 <= i < conflictFree.Length ==>
        conflictFree[i] == if Shared(potential, potential.Keys - keys, i) then 0 else old(conflictFree[i])
      decreases keys
    {
      var p :| p in keys;
      var list := potential[p];
      ghost var done := potential.Keys - keys;
      if |list| > 1 {
        var j := 0;
        while j < |list|
          invariant 0 <= j <= |list|
          invariant forall i :: 0 <= i < conflictFree.Length ==>
            conflictFree[i] == if Shared(potential, done, i) || i in list[..j] then 0 else old(conflictFree[i])
        {
          assert list[j] in potential[p];
          conflictFree[list[j]] := 0;
          j := j + 1;
          assert list[..j] == list[..j - 1] + [list[j - 1]];
        }
        assert list[..j] == list;
      }
      keys := keys - {p};
      forall i | 0 <= i < conflictFree.Length
        ensures Shared(potential, potential.Keys - keys, i) <==> Shared(potential, done, i) || (|list| > 1 && i in list)
      {
        if Shared(potential, potential.Keys - keys, i) {
          var q :| q in potential.Keys - keys && q in potential && |potential[q]| > 1 && i in potential[q];
          if q != p { assert q in done; }
        }
        if |list| > 1 && i in list {
          assert p in potential.Keys - keys;
        }
      }
    }
  }

  /** `detect_conflicting_Transition_groups`: clears the flag of every entry
      that writes a listed place another entry also writes. */
  method DetectConflictingTransitionGroups<D>(defs: seq<TransDef<D>>, tl: seq<nat>, places: set<nat>, conflictFree: array<int>)
    requires InRange(tl, |defs|) && conflictFree.Length >= |tl|
    modifies conflictFree
    ensures forall i :: 0 <= i < conflictFree.Length ==>
      conflictFree[i] == if i < |tl| && Conflicting(defs, tl, places, i) then 0 else old(conflictFree[i])
  {
    var potential := PotentialConflicts(defs, tl, places);
    ClearShared(potential, conflictFree);
    forall i | 0 <= i < conflictFree.Length
      ensures Shared(potential, potential.Keys, i) <==> i < |tl| && Conflicting(defs, tl, places, i)
    {
      SharedIffConflicting(defs, tl, places, potential, i);
    }
  }

  lemma SharedIffConflicting<D>(defs: seq<TransDef<D>>, tl: seq<nat>, places: set<nat>, potential: map<nat, seq<nat>>, i: nat)
    requires InRange(tl, |defs|)
    requires forall p :: p in potential ==> p in places && potential[p] == Writers(defs, tl, p, |tl|)
    requires forall p :: p in places && Writers(defs, tl, p, |tl|) != [] ==> p in potential
    ensures Shared(potential, potential.Keys, i) <==> i < |tl| && Conflicting(defs, tl, places, i)
  {
    if i < |tl| && Conflicting(defs, tl, places, i) {
      ConflictingIsShared(defs, tl, places, potential, i);
    }
    if Shared(potential, potential.Keys, i) {
      SharedIsConflicting(defs, tl, places, potential, i);
    }
  }

  lemma ConflictingIsShared<D>(defs: seq<TransDef<D>>, tl: seq<nat>, places: set<nat>, potential: map<nat, seq<nat>>, i: nat)
    requires InRange(tl, |defs|) && i < |tl|
    requires forall p :: p in places && Writers(defs, tl, p, |tl|) != [] ==> p in potential
    requires forall p :: p in potential ==> potential[p] == Writers(defs, tl, p, |tl|)
    requires Conflicting(defs, tl, places, i)
    ensures Shared(potential, potential.Keys, i)
  {
    var p, j :| p in places && 0 <= j < |tl| && j != i && p in defs[tl[i]].outputs && p in defs[tl[j]].outputs;
    var w := Writers(defs, tl, p, |tl|);
    assert i in w && j in w;
    TwoMembers(w, i, j);
    assert p in potential && |potential[p]| > 1;
  }

  /** A list holding two different values has at least two entries. */
  lemma TwoMembers(w: seq<nat>, x: nat, y: nat)
    requires x in w && y in w && x != y
    ensures |w| > 1
  {
    var a :| 0 <= a < |w| && w[a] == x;
    var b :| 0 <= b < |w| && w[b] == y;
    assert a != b;
  }

  lemma SharedIsConflicting<D>(defs: seq<TransDef<D>>, tl: seq<nat>, places: set<nat>, potential: map<nat, seq<nat>>, i: nat)
    requires InRange(tl, |defs|)
    requires forall p :: p in potential ==> p in places && potential[p] == Writers(defs, tl, p, |tl|)
    requires Shared(potential, potential.Keys, i)
    ensures i < |tl| && Conflicting(defs, tl, places, i)
  {
    var p :| p in potential.Keys && |potential[p]| > 1 && i in potential[p];
    TwoWriters(potential[p], i);
    var y :| y in potential[p] && y != i;
    assert p in defs[tl[i]].outputs && p in defs[tl[y]].outputs;
  }

  // ---------------------------------------------------------------------
  // Discrepancies between the engine as written and its evident intent

  /** The index `able_to_fire_t` reads in an input place: `threshold - 1`. */
  function ReadIndexAsWritten<D>(d: TransDef<D>, m: Marking<D>, i: nat): (r: int)
    requires Fits(d, m) && i < |d.inputs|
    ensures r + 1 == Threshold(d, m, i)
  {
    Threshold(d, m, i) - 1
  }

  /** An input whose count is 0 (a VTA dependency flag that is not set)
      passes the check on an empty place, and the read index is then -1. */
  lemma ZeroCountReadsBeforeFront()
    ensures var d := TransDef([0], [(m: Marking<int>) => 0], [0], [], [], (m: Marking<int>) => 0);
      var m: Marking<int> := [[]];
      Fits(d, m) && CanFire(d, m) && ReadIndexAsWritten(d, m, 0) == -1 && |m[d.inputs[0]]| == 0
  {
    var d := TransDef([0], [(m: Marking<int>) => 0], [0], [], [], (m: Marking<int>) => 0);
    var m: Marking<int> := [[]];
    assert Ready(d, m, 0);
  }

  /** `NextCommitTime` as written answers 0 even when one transition is
      scheduled at 5, while the minimum event time is 5. */
  lemma NextCommitTimeLosesMinimum()
    ensures var trans := [Fresh.(delayEvent := 5)];
      MinTimeOf(trans, [0]) == 5 && MinTimeOf(trans, [0]) != 0
  {
    var trans := [Fresh.(delayEvent := 5)];
    assert [0][..0] == [];
  }
}
