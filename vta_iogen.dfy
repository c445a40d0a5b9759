// The VTA IO generator: a second pass over the instruction stream that
// does no arithmetic but hands every DRAM access the functional
// simulator will make to `enqueueReq`, so that the performance model
// sees the requests in advance. The generator's state is the global
// `id_counter`, the sequence of requests enqueued so far, the device's
// `finish_counter_` and the profiler's `out_store_nbytes`. A failed
// `assert` ends the process; the model records that in `aborted`, after
// which no instruction has an effect.
module VtaIoGen {
  import opened Arith
  import opened VtaIsa
  import opened MemReqs
  import opened VtaBitPacker
  import opened VtaCompute

  /** The arguments of one `enqueueReq(id, addr, len, tag, rw)` call. */
  datatype IoReq = IoReq(id: int, addr: nat, len: nat, tag: nat, rw: bool)

  /** The `hw_spec.h` widths the SRAM templates are instantiated with. */
  datatype HwSpec = HwSpec(
    inpWidth: nat, wgtWidth: nat, accWidth: nat, uopWidth: nat, outWidth: nat,
    shape: Shape)

  /** `kElemBytes` of the four SRAMs `inp_`, `wgt_`, `acc_` and `uop_`. */
  function InpElemBytes(hw: HwSpec): nat {
    ElemBytes(hw.inpWidth, hw.shape.batch * hw.shape.blockIn)
  }

  function WgtElemBytes(hw: HwSpec): nat {
    ElemBytes(hw.wgtWidth, hw.shape.blockIn * hw.shape.blockOut)
  }

  function AccElemBytes(hw: HwSpec): nat {
    ElemBytes(hw.accWidth, AccLanes(hw.shape))
  }

  function UopElemBytes(hw: HwSpec): nat {
    ElemBytes(hw.uopWidth, 1)
  }

  /** Everything the generator changes. */
  datatype GenState = GenState(
    idCounter: int, reqs: seq<IoReq>, finishCounter: int, outStoreNbytes: nat, aborted: bool)

  // ----- SRAM::Load -----

  /** Row `y` of a load starts `kElemBytes*x_stride` bytes after row `y - 1`, row 0 at `dram_base*kElemBytes`. */
  function LoadRowAddr(op: MemInsn, elemBytes: nat, y: nat): nat {
    op.dramBase * elemBytes + y * (elemBytes * op.xStride)
  }

  /** The reads of the first `rows` rows of a load under request id `id`. */
  function LoadReqs(id: int, op: MemInsn, elemBytes: nat, tag: nat, rows: nat): (r: seq<IoReq>)
    ensures |r| == rows
  {
    seq(rows, y requires 0 <= y < rows =>
      IoReq(id, LoadRowAddr(op, elemBytes, y), elemBytes * op.xSize, tag, ReadReq))
  }

  /**
   * A load asks for `y_size` reads of `kElemBytes*x_size` bytes, all under one
   * id and one tag: the first at `dram_base*kElemBytes`, each next one
   * `kElemBytes*x_stride` bytes further on.
   */
  lemma LoadReqsShape(id: int, op: MemInsn, elemBytes: nat, tag: nat)
    ensures var r := LoadReqs(id, op, elemBytes, tag, op.ySize);
      (forall y :: 0 <= y < |r| ==>
        r[y].id == id && r[y].tag == tag && r[y].rw == ReadReq && r[y].len == elemBytes * op.xSize) &&
      (|r| > 0 ==> r[0].addr == op.dramBase * elemBytes) &&
      (forall y :: 0 < y < |r| ==> r[y].addr == r[y - 1].addr + elemBytes * op.xStride)
  {
    var r := LoadReqs(id, op, elemBytes, tag, op.ySize);
    forall y | 0 < y < |r|
      ensures r[y].addr == r[y - 1].addr + elemBytes * op.xStride
    {
      MulDistrib(y - 1, 1, elemBytes * op.xStride);
    }
  }

  // ----- SRAM::TruncStore -----

  /** `kLane` of the accumulator SRAM the store reads from. */
  function StoreLanes(hw: HwSpec): nat {
    AccLanes(hw.shape)
  }

  /** `kLane*target_bits/8`: the bytes of one stored element. */
  function StoreLen(hw: HwSpec): nat {
    StoreLanes(hw) * hw.outWidth / 8
  }

  /** `req_addr + dram_base*kLane*target_bits/8` for element `(y, x)`, with `req_addr = dram_base*target_width`. */
  function StoreAddr(hw: HwSpec, op: MemInsn, y: nat, x: nat): nat {
    op.dramBase * ElemBytes(hw.outWidth, StoreLanes(hw)) +
      (y * op.xStride + x) * StoreLanes(hw) * hw.outWidth / 8
  }

  function StoreRow(id: int, hw: HwSpec, op: MemInsn, y: nat): (r: seq<IoReq>)
    ensures |r| == op.xSize
  {
    seq(op.xSize, x requires 0 <= x < op.xSize =>
      IoReq(id, StoreAddr(hw, op, y, x), StoreLen(hw), StoreId, WriteReq))
  }

  /** The writes of the first `rows` rows of a store, row after row. */
  function StoreReqs(id: int, hw: HwSpec, op: MemInsn, rows: nat): (r: seq<IoReq>)
    ensures |r| == rows * op.xSize
  {
    if rows == 0 then []
    else
      MulDistrib(rows - 1, 1, op.xSize);
      StoreReqs(id, hw, op, rows - 1) + StoreRow(id, hw, op, rows - 1)
  }

  /**
   * Write number `y*x_size + x` of a store goes to element `(y, x)`: it is
   * `kLane*target_bits/8` bytes at `StoreAddr`, tagged STORE_ID, under the
   * store's one id.
   */
  lemma {:induction false} StoreReqsAt(id: int, hw: HwSpec, op: MemInsn, rows: nat, y: nat, x: nat)
    requires y < rows && x < op.xSize
    ensures y * op.xSize + x < |StoreReqs(id, hw, op, rows)|
    ensures StoreReqs(id, hw, op, rows)[y * op.xSize + x] ==
      IoReq(id, StoreAddr(hw, op, y, x), StoreLen(hw), StoreId, WriteReq)
  {
    var prev := StoreReqs(id, hw, op, rows - 1);
    assert StoreReqs(id, hw, op, rows) == prev + StoreRow(id, hw, op, rows - 1);
    if y == rows - 1 {
      assert y * op.xSize + x == |prev| + x;
    } else {
      StoreReqsAt(id, hw, op, rows - 1, y, x);
    }
  }

  // ----- Device::Run chunking -----

  /** `max_insn`: instructions are fetched 128 at a time. */
  const MaxInsn: nat := 128

  /** `ites` full chunks, and one more for a non-zero remainder. */
  function NumChunks(n: nat): nat {
    n / MaxInsn + (if n % MaxInsn > 0 then 1 else 0)
  }

  /** The instructions in chunk `i`: 128, except the remainder chunk. */
  function ChunkCount(n: nat, i: nat): nat {
    if i < n / MaxInsn then MaxInsn else n % MaxInsn
  }

  function ChunkAddr(base: nat, i: nat): nat {
    base + MaxInsn * InsnBytes * i
  }

  /** The LOAD_INSN reads of the first `k` chunks; chunk `i` gets id `id0 + i + 1`. */
  function ChunkReqs(id0: int, base: nat, n: nat, k: nat): (r: seq<IoReq>)
    ensures |r| == k
  {
    seq(k, i requires 0 <= i < k =>
      IoReq(id0 + i + 1, ChunkAddr(base, i), ChunkCount(n, i) * InsnBytes, LoadInsnId, ReadReq))
  }

  /**
   * The chunks cut the `n` instructions into `ceil(n/128)` non-empty pieces
   * of at most 128: instruction `k` is number `k % 128` of chunk `k / 128`,
   * every chunk but the last is full and the last ends at instruction `n`.
   */
  lemma ChunksTile(n: nat)
    ensures NumChunks(n) == CeilDiv(n, MaxInsn)
    ensures forall i :: 0 <= i < NumChunks(n) ==> 0 < ChunkCount(n, i) <= MaxInsn
    ensures forall i :: 0 <= i < NumChunks(n) - 1 ==> ChunkCount(n, i) == MaxInsn
    ensures NumChunks(n) > 0 ==> MaxInsn * (NumChunks(n) - 1) + ChunkCount(n, NumChunks(n) - 1) == n
    ensures forall k :: 0 <= k < n ==> k / MaxInsn < NumChunks(n) && k % MaxInsn < ChunkCount(n, k / MaxInsn)
  {
    var q, m := n / MaxInsn, n % MaxInsn;
    assert n == q * MaxInsn + m;
    forall k | 0 <= k < n
      ensures k / MaxInsn < NumChunks(n) && k % MaxInsn < ChunkCount(n, k / MaxInsn)
    {
      var kq, km := k / MaxInsn, k % MaxInsn;
      assert k == kq * MaxInsn + km;
      if kq == q { assert km < m; }
    }
  }

  /** The instructions at `base` onward, in address order. */
  function Fetched(insnAt: nat -> Insn, base: nat, n: nat): (r: seq<Insn>)
    ensures |r| == n
  {
    seq(n, k requires 0 <= k < n => insnAt(base + InsnBytes * k))
  }

  /** Instruction `holder` of chunk `chunk` is the next one in address order. */
  lemma FetchedNext(insnAt: nat -> Insn, base: nat, chunk: nat, holder: nat)
    ensures var k := MaxInsn * chunk + holder;
      Fetched(insnAt, base, k + 1) ==
      Fetched(insnAt, base, k) + [insnAt(base + MaxInsn * InsnBytes * chunk + InsnBytes * holder)]
  {
    var k := MaxInsn * chunk + holder;
    assert InsnBytes * k == MaxInsn * InsnBytes * chunk + InsnBytes * holder;
    assert Fetched(insnAt, base, k + 1)[k] == insnAt(base + InsnBytes * k);
    assert Fetched(insnAt, base, k + 1) == Fetched(insnAt, base, k) + [insnAt(base + InsnBytes * k)];
  }

  // ----- Run_Insn, RunLoad, RunStore -----

  /** `Load` on one SRAM: one fresh id shared by all of its reads. */
  function LoadInto(s: GenState, op: MemInsn, elemBytes: nat, tag: nat): GenState {
    s.(idCounter := s.idCounter + 1,
       reqs := s.reqs + LoadReqs(s.idCounter + 1, op, elemBytes, tag, op.ySize))
  }

  /** `RunLoad`: INP, WGT, ACC and UOP loads route to their tags; the 8-bit ACC load asserts. */
  function LoadStep(hw: HwSpec, s: GenState, op: MemInsn): GenState {
    if op.xSize == 0 then s
    else match op.memoryType
      case MemInp => LoadInto(s, op, InpElemBytes(hw), LoadInpId)
      case MemWgt => LoadInto(s, op, WgtElemBytes(hw), LoadWgtId)
      case MemAcc => LoadInto(s, op, AccElemBytes(hw), LoadAccId)
      case MemUop => LoadInto(s, op, UopElemBytes(hw), LoadUopId)
      case MemAcc8Bit => s.(aborted := true)
      case _ => s
  }

  predicate NoPads(op: MemInsn) {
    op.xPad0 == 0 && op.xPad1 == 0 && op.yPad0 == 0 && op.yPad1 == 0
  }

  /** `out_store_nbytes` grows by `x_size*y_size*VTA_BATCH*VTA_BLOCK_OUT*VTA_OUT_WIDTH/8`. */
  function StoreNbytes(hw: HwSpec, op: MemInsn): nat {
    op.xSize * op.ySize * hw.shape.batch * hw.shape.blockOut * hw.outWidth / 8
  }

  /** `TruncStore`: padding fails its checks; otherwise one fresh id for all the writes. */
  function TruncStoreStep(hw: HwSpec, s: GenState, op: MemInsn): GenState {
    if !NoPads(op) then s.(aborted := true)
    else s.(idCounter := s.idCounter + 1,
            reqs := s.reqs + StoreReqs(s.idCounter + 1, hw, op, op.ySize))
  }

  /** `RunStore`: only OUT is stored, and it is counted before the store runs. */
  function StoreStep(hw: HwSpec, s: GenState, op: MemInsn): GenState {
    if op.xSize == 0 || op.memoryType != MemOut then s
    else TruncStoreStep(hw, s.(outStoreNbytes := s.outStoreNbytes + StoreNbytes(hw, op)), op)
  }

  /** `Run_Insn`: GEMM and ALU are skipped, FINISH is counted; nothing runs once the process has ended. */
  function InsnStep(hw: HwSpec, s: GenState, insn: Insn): GenState {
    if s.aborted then s
    else match insn.mem.opcode
      case OpLoad => LoadStep(hw, s, insn.mem)
      case OpStore => StoreStep(hw, s, insn.mem)
      case OpFinish => s.(finishCounter := s.finishCounter + 1)
      case _ => s
  }

  /** The instructions run one after another, in order. */
  function RunInsns(hw: HwSpec, s: GenState, insns: seq<Insn>): GenState
    decreases |insns|
  {
    if insns == [] then s
    else InsnStep(hw, RunInsns(hw, s, insns[..|insns| - 1]), insns[|insns| - 1])
  }

  // ----- properties of one instruction -----

  /** The instructions that end the process: an 8-bit ACC load, or a padded OUT store. */
  predicate Aborts(insn: Insn) {
    var op := insn.mem;
    op.xSize > 0 &&
    ((op.opcode == OpLoad && op.memoryType == MemAcc8Bit) ||
     (op.opcode == OpStore && op.memoryType == MemOut && !NoPads(op)))
  }

  /** The instructions that issue requests: a non-empty INP, WGT, ACC or UOP load, or a good OUT store. */
  predicate Issues(insn: Insn) {
    var op := insn.mem;
    op.xSize > 0 &&
    ((op.opcode == OpLoad && op.memoryType in {MemInp, MemWgt, MemAcc, MemUop}) ||
     (op.opcode == OpStore && op.memoryType == MemOut && NoPads(op)))
  }

  /** The requests one instruction issues under id `id`. */
  function IssuedBy(hw: HwSpec, insn: Insn, id: int): seq<IoReq> {
    var op := insn.mem;
    if !Issues(insn) then []
    else if op.opcode == OpStore then StoreReqs(id, hw, op, op.ySize)
    else match op.memoryType
      case MemInp => LoadReqs(id, op, InpElemBytes(hw), LoadInpId, op.ySize)
      case MemWgt => LoadReqs(id, op, WgtElemBytes(hw), LoadWgtId, op.ySize)
      case MemAcc => LoadReqs(id, op, AccElemBytes(hw), LoadAccId, op.ySize)
      case _ => LoadReqs(id, op, UopElemBytes(hw), LoadUopId, op.ySize)
  }

  /**
   * On a live process, an instruction that issues takes exactly one fresh id
   * and appends its requests under it; an instruction that does not issue
   * leaves the id counter and the requests alone. Only a FINISH is counted,
   * only an OUT store adds to `out_store_nbytes`, and the process ends
   * exactly at the instructions that fail an assert.
   */
  lemma InsnStepEffect(hw: HwSpec, s: GenState, insn: Insn)
    requires !s.aborted
    ensures var t := InsnStep(hw, s, insn);
      t.idCounter == s.idCounter + (if Issues(insn) then 1 else 0) &&
      t.reqs == s.reqs + IssuedBy(hw, insn, s.idCounter + 1) &&
      t.finishCounter == s.finishCounter + (if insn.mem.opcode == OpFinish then 1 else 0) &&
      t.outStoreNbytes == s.outStoreNbytes +
        (if insn.mem.opcode == OpStore && insn.mem.xSize > 0 && insn.mem.memoryType == MemOut
         then StoreNbytes(hw, insn.mem) else 0) &&
      (t.aborted <==> Aborts(insn))
  {
  }

  /** GEMM and ALU instructions generate no requests and change nothing. */
  lemma ComputeIsInert(hw: HwSpec, s: GenState, insn: Insn)
    requires insn.mem.opcode == OpGemm || insn.mem.opcode == OpAlu
    ensures InsnStep(hw, s, insn) == s
  {
  }

  /** Every request an instruction issues carries the id it was given. */
  lemma IssuedShareId(hw: HwSpec, insn: Insn, id: int)
    ensures forall q :: q in IssuedBy(hw, insn, id) ==> q.id == id
  {
    var op := insn.mem;
    if Issues(insn) && op.opcode == OpStore {
      forall q | q in IssuedBy(hw, insn, id)
        ensures q.id == id
      {
        StoreReqsOneId(id, hw, op, op.ySize);
      }
    }
  }

  lemma {:induction false} StoreReqsOneId(id: int, hw: HwSpec, op: MemInsn, rows: nat)
    ensures forall q :: q in StoreReqs(id, hw, op, rows) ==> q.id == id
  {
    if rows > 0 {
      StoreReqsOneId(id, hw, op, rows - 1);
    }
  }

  // ----- properties of a run -----

  /** No request carries an id the counter has not yet handed out. */
  predicate IdsIssued(s: GenState) {
    forall q :: q in s.reqs ==> q.id <= s.idCounter
  }

  /**
   * A run of instructions only appends requests, never moves the id counter
   * backwards and keeps every request's id issued, and each issuing
   * instruction's id is larger than every id before it.
   */
  lemma {:induction false} RunInsnsAppends(hw: HwSpec, s: GenState, insns: seq<Insn>)
    requires IdsIssued(s)
    ensures var t := RunInsns(hw, s, insns);
      s.reqs <= t.reqs && s.idCounter <= t.idCounter && IdsIssued(t)
    decreases |insns|
  {
    if insns != [] {
      var m := RunInsns(hw, s, insns[..|insns| - 1]);
      RunInsnsAppends(hw, s, insns[..|insns| - 1]);
      var insn := insns[|insns| - 1];
      if !m.aborted {
        InsnStepEffect(hw, m, insn);
        IssuedShareId(hw, insn, m.idCounter + 1);
        var t := InsnStep(hw, m, insn);
        assert t.reqs == m.reqs + IssuedBy(hw, insn, m.idCounter + 1);
        forall q | q in t.reqs
          ensures q.id <= t.idCounter
        {
          if q !in m.reqs {
            assert q in IssuedBy(hw, insn, m.idCounter + 1);
          }
        }
      }
    }
  }

  /** Once the process has ended, no instruction changes anything. */
  lemma {:induction false} RunInsnsEnded(hw: HwSpec, s: GenState, insns: seq<Insn>)
    requires s.aborted
    ensures RunInsns(hw, s, insns) == s
    decreases |insns|
  {
    if insns != [] {
      RunInsnsEnded(hw, s, insns[..|insns| - 1]);
    }
  }

  /** How many of the instructions issue requests. */
  function CountIssuing(insns: seq<Insn>): (r: nat)
    ensures r <= |insns|
    decreases |insns|
  {
    if insns == [] then 0
    else CountIssuing(insns[..|insns| - 1]) + (if Issues(insns[|insns| - 1]) then 1 else 0)
  }

  /** How many of the instructions are FINISH. */
  function CountFinish(insns: seq<Insn>): (r: nat)
    ensures r <= |insns|
    decreases |insns|
  {
    if insns == [] then 0
    else CountFinish(insns[..|insns| - 1]) + (if insns[|insns| - 1].mem.opcode == OpFinish then 1 else 0)
  }

  /**
   * When no instruction fails an assert, `id_counter` rises by exactly one
   * per issuing instruction, and `finish_counter_` by one per FINISH.
   */
  lemma {:induction false} RunInsnsCounts(hw: HwSpec, s: GenState, insns: seq<Insn>)
    requires !s.aborted
    requires forall i :: 0 <= i < |insns| ==> !Aborts(insns[i])
    ensures var t := RunInsns(hw, s, insns);
      !t.aborted &&
      t.idCounter == s.idCounter + CountIssuing(insns) &&
      t.finishCounter == s.finishCounter + CountFinish(insns)
    decreases |insns|
  {
    if insns != [] {
      var init := insns[..|insns| - 1];
      RunInsnsCounts(hw, s, init);
      InsnStepEffect(hw, RunInsns(hw, s, init), insns[|insns| - 1]);
    }
  }

  /** One more instruction at the end of a run. */
  lemma RunInsnsSnoc(hw: HwSpec, s: GenState, insns: seq<Insn>, insn: Insn)
    ensures RunInsns(hw, s, insns + [insn]) == InsnStep(hw, RunInsns(hw, s, insns), insn)
  {
    assert (insns + [insn])[..|insns|] == insns;
  }

  // ----- the generator -----

  class IoGen {
    /** `id_counter` */
    var idCounter: int
    /** Every `enqueueReq` so far, in order. */
    var reqs: seq<IoReq>
    /** `finish_counter_` */
    var finishCounter: int
    /** `prof_->out_store_nbytes` */
    var outStoreNbytes: nat
    /** A failed `assert` has ended the process. */
    var aborted: bool

    function State(): GenState
      reads this
    {
      GenState(idCounter, reqs, finishCounter, outStoreNbytes, aborted)
    }

    /** A new device starts, with `id_counter` where earlier devices left it. */
    constructor(idCounter: int)
      ensures State() == GenState(idCounter, [], 0, 0, false)
    {
      this.idCounter := idCounter;
      reqs := [];
      finishCounter := 0;
      outStoreNbytes := 0;
      aborted := false;
    }

    /** `SRAM::Load`: one fresh id, then one read per row, walking a DRAM pointer row by row. */
    method Load(op: MemInsn, elemBytes: nat, tag: nat) returns (r: int)
      modifies this
      ensures r == 0
      ensures State() == LoadInto(old(State()), op, elemBytes, tag)
    {
      var dramPtr := op.dramBase * elemBytes;
      idCounter := idCounter + 1;
      var y := 0;
      while y < op.ySize
        invariant y <= op.ySize
        invariant dramPtr == LoadRowAddr(op, elemBytes, y)
        invariant reqs == old(reqs) + LoadReqs(idCounter, op, elemBytes, tag, y)
        invariant idCounter == old(idCounter) + 1
        invariant finishCounter == old(finishCounter) && outStoreNbytes == old(outStoreNbytes) && aborted == old(aborted)
      {
        var req := IoReq(idCounter, dramPtr, elemBytes * op.xSize, tag, ReadReq);
        assert LoadReqs(idCounter, op, elemBytes, tag, y + 1) == LoadReqs(idCounter, op, elemBytes, tag, y) + [req];
        reqs := reqs + [req];
        MulDistrib(y, 1, elemBytes * op.xStride);
        dramPtr := dramPtr + elemBytes * op.xStride;
        y := y + 1;
      }
      return 0;
    }

    /** The inner loop of `TruncStore`: one write per element of row `y`, under the current id. */
    method StoreRowReqs(hw: HwSpec, op: MemInsn, y: nat)
      modifies this
      ensures reqs == old(reqs) + StoreRow(idCounter, hw, op, y)
      ensures idCounter == old(idCounter) && finishCounter == old(finishCounter)
      ensures outStoreNbytes == old(outStoreNbytes) && aborted == old(aborted)
    {
      var row := StoreRow(idCounter, hw, op, y);
      var x := 0;
      while x < op.xSize
        invariant x <= op.xSize
        invariant reqs == old(reqs) + row[..x]
        invariant idCounter == old(idCounter) && finishCounter == old(finishCounter)
        invariant outStoreNbytes == old(outStoreNbytes) && aborted == old(aborted)
      {
        var req := IoReq(idCounter, StoreAddr(hw, op, y, x), StoreLen(hw), StoreId, WriteReq);
        assert req == row[x];
        assert row[..x + 1] == row[..x] + [req];
        reqs := reqs + [req];
        x := x + 1;
      }
      assert row[..x] == row;
    }

    /** `SRAM::TruncStore<VTA_OUT_WIDTH>` on the accumulator SRAM: the four padding checks, one fresh id, then the rows. */
    method TruncStore(hw: HwSpec, op: MemInsn) returns (r: int)
      modifies this
      ensures r == 0
      ensures State() == TruncStoreStep(hw, old(State()), op)
    {
      if !NoPads(op) {
        aborted := true;
        return 0;
      }
      idCounter := idCounter + 1;
      var y := 0;
      while y < op.ySize
        invariant y <= op.ySize
        invariant reqs == old(reqs) + StoreReqs(idCounter, hw, op, y)
        invariant idCounter == old(idCounter) + 1
        invariant finishCounter == old(finishCounter) && outStoreNbytes == old(outStoreNbytes) && aborted == old(aborted)
      {
        StoreRowReqs(hw, op, y);
        y := y + 1;
      }
      return 0;
    }

    method RunLoad(hw: HwSpec, op: MemInsn) returns (r: int)
      modifies this
      ensures r == 0
      ensures State() == LoadStep(hw, old(State()), op)
    {
      if op.xSize == 0 {
        return 0;
      }
      match op.memoryType {
        case MemInp => r := Load(op, InpElemBytes(hw), LoadInpId);
        case MemWgt => r := Load(op, WgtElemBytes(hw), LoadWgtId);
        case MemAcc => r := Load(op, AccElemBytes(hw), LoadAccId);
        case MemUop => r := Load(op, UopElemBytes(hw), LoadUopId);
        case MemAcc8Bit => aborted := true; // `Load_int8` begins with `assert(0)`
        case _ =>
      }
      return 0;
    }

    /** `RunStore`; `SkipExec()` is always false, so the store always runs. */
    method RunStore(hw: HwSpec, op: MemInsn) returns (r: int)
      modifies this
      ensures r == 0
      ensures State() == StoreStep(hw, old(State()), op)
    {
      if op.xSize == 0 {
        return 0;
      }
      if op.memoryType == MemOut {
        outStoreNbytes := outStoreNbytes + StoreNbytes(hw, op);
        r := TruncStore(hw, op);
        return r;
      }
      return 0;
    }

    /** `Run_Insn`, which returns 0. */
    method RunInsn(hw: HwSpec, insn: Insn) returns (r: int)
      modifies this
      ensures r == 0
      ensures State() == InsnStep(hw, old(State()), insn)
    {
      if aborted {
        return 0;
      }
      match insn.mem.opcode {
        case OpLoad => r := RunLoad(hw, insn.mem);
        case OpStore => r := RunStore(hw, insn.mem);
        case OpFinish => finishCounter := finishCounter + 1;
        case _ =>
      }
      return 0;
    }

    /** The first half of `Run`: one LOAD_INSN read per chunk, each under a fresh id. */
    method EnqueueChunks(insnPhyAddr: nat, insnCount: nat)
      modifies this
      ensures idCounter == old(idCounter) + NumChunks(insnCount)
      ensures reqs == old(reqs) + ChunkReqs(old(idCounter), insnPhyAddr, insnCount, NumChunks(insnCount))
      ensures finishCounter == old(finishCounter) && outStoreNbytes == old(outStoreNbytes) && aborted == old(aborted)
    {
      var ites := insnCount / MaxInsn;
      var remain := insnCount % MaxInsn;
      var i := 0;
      while i < ites
        invariant i <= ites
        invariant idCounter == old(idCounter) + i
        invariant reqs == old(reqs) + ChunkReqs(old(idCounter), insnPhyAddr, insnCount, i)
        invariant finishCounter == old(finishCounter) && outStoreNbytes == old(outStoreNbytes) && aborted == old(aborted)
      {
        idCounter := idCounter + 1;
        var req := IoReq(idCounter, insnPhyAddr + MaxInsn * InsnBytes * i, MaxInsn * InsnBytes, LoadInsnId, ReadReq);
        assert ChunkReqs(old(idCounter), insnPhyAddr, insnCount, i + 1) ==
          ChunkReqs(old(idCounter), insnPhyAddr, insnCount, i) + [req];
        reqs := reqs + [req];
        i := i + 1;
      }
      if remain > 0 {
        idCounter := idCounter + 1;
        var req := IoReq(idCounter, insnPhyAddr + MaxInsn * InsnBytes * ites, remain * InsnBytes, LoadInsnId, ReadReq);
        assert ChunkReqs(old(idCounter), insnPhyAddr, insnCount, ites + 1) ==
          ChunkReqs(old(idCounter), insnPhyAddr, insnCount, ites) + [req];
        reqs := reqs + [req];
      }
    }

    /**
     * The `while (1)` loop over the fetched buffer of chunk `chunk`: its
     * `count` instructions, read at 16-byte steps from the chunk's address,
     * each through `Run_Insn`, continuing the run from `start`.
     */
    method RunChunk(hw: HwSpec, insnAt: nat -> Insn, insnPhyAddr: nat, chunk: nat, count: nat, ghost start: GenState)
      requires State() == RunInsns(hw, start, Fetched(insnAt, insnPhyAddr, MaxInsn * chunk))
      modifies this
      ensures State() == RunInsns(hw, start, Fetched(insnAt, insnPhyAddr, MaxInsn * chunk + count))
    {
      var buffer := insnPhyAddr + MaxInsn * InsnBytes * chunk;
      var holder := 0;
      while holder < count
        invariant holder <= count
        invariant State() == RunInsns(hw, start, Fetched(insnAt, insnPhyAddr, MaxInsn * chunk + holder))
      {
        var insn := insnAt(buffer + InsnBytes * holder);
        ghost var done := Fetched(insnAt, insnPhyAddr, MaxInsn * chunk + holder);
        FetchedNext(insnAt, insnPhyAddr, chunk, holder);
        RunInsnsSnoc(hw, start, done, insn);
        var _ := RunInsn(hw, insn);
        assert State() == RunInsns(hw, start, done + [insn]);
        holder := holder + 1;
      }
    }

    /**
     * `Run(insn_phy_addr, insn_count, wait_cycles)`: first one LOAD_INSN read
     * per chunk, each under a fresh id; then, chunk by chunk, every fetched
     * instruction through `Run_Insn`. `insnAt` is the instruction the fetch
     * delivers for an address.
     */
    method Run(hw: HwSpec, insnAt: nat -> Insn, insnPhyAddr: nat, insnCount: nat, waitCycles: nat) returns (r: int)
      requires !aborted
      modifies this
      ensures r == 0
      ensures var s0 := old(State());
        var fetch := s0.(idCounter := s0.idCounter + NumChunks(insnCount),
                         reqs := s0.reqs + ChunkReqs(s0.idCounter, insnPhyAddr, insnCount, NumChunks(insnCount)));
        State() == RunInsns(hw, fetch, Fetched(insnAt, insnPhyAddr, insnCount))
    {
      var ites := insnCount / MaxInsn;
      var remain := insnCount % MaxInsn;
      EnqueueChunks(insnPhyAddr, insnCount);
      ghost var fetch := State();
      var i := 0;
      while i < ites
        invariant i <= ites
        invariant State() == RunInsns(hw, fetch, Fetched(insnAt, insnPhyAddr, MaxInsn * i))
      {
        RunChunk(hw, insnAt, insnPhyAddr, i, MaxInsn, fetch);
        i := i + 1;
      }
      if remain > 0 {
        RunChunk(hw, insnAt, insnPhyAddr, ites, remain, fetch);
      }
      return 0;
    }
  }
}
