// The VTA request matcher (`lpn_req_map.hh` / `lpn_req_map.cc` of the VTA
// simulator): a registered read request collects its bytes from buffered
// responses whose address range overlaps its own.
module VtaReqMap {
  import opened Arith
  import opened MemReqs
  import opened Wrappers

  /** `req` overlaps the window `[start, end)`. */
  predicate Overlaps(req: MemReq, start: nat, end: nat) {
    req.addr + req.len > start && req.addr < end
  }

  /** `req` lies wholly inside the window `[start, end)`. */
  predicate Inside(req: MemReq, start: nat, end: nat) {
    start <= req.addr && req.addr + req.len <= end
  }

  /** The first address of `cur`'s window that `req` covers. */
  function CopyFrom(cur: MemReq, req: MemReq): nat {
    Max(cur.addr, req.addr)
  }

  /** One past the last address of `cur`'s window that `req` covers. */
  function CopyTo(cur: MemReq, req: MemReq): nat {
    Min(cur.addr + cur.len, req.addr + req.len)
  }

  /**
   * The copy step of `MatchAll` and `MatchReq`: the bytes of `req` in
   * `[max(start, addr), min(end, addr + len))` land at their offset in
   * `cur`, whose `acquiredLen` grows by that length.
   */
  function CopyOverlap(cur: MemReq, req: MemReq): (r: MemReq)
    requires WellSized(cur) && WellSized(req) && Overlaps(req, cur.addr, cur.addr + cur.len)
    ensures WellSized(r) && r.addr == cur.addr && r.len == cur.len && r.rw == cur.rw
    ensures r.acquiredLen == cur.acquiredLen + (CopyTo(cur, req) - CopyFrom(cur, req))
    ensures Inside(req, cur.addr, cur.addr + cur.len) <==> r.acquiredLen == cur.acquiredLen + req.len
  {
    var from, to := CopyFrom(cur, req), CopyTo(cur, req);
    assert cur.addr <= from <= to <= cur.addr + cur.len;
    assert req.addr <= from && to <= req.addr + req.len;
    var src := req.buffer[from - req.addr..to - req.addr];
    cur.(buffer := Overwrite(cur.buffer, from - cur.addr, src), acquiredLen := cur.acquiredLen + (to - from))
  }

  /**
   * What `CopyOverlap` writes: each byte of the overlap comes from `req`
   * at the same address, and every other byte of `cur` is kept.
   */
  lemma CopyOverlapBytes(cur: MemReq, req: MemReq, i: nat)
    requires WellSized(cur) && WellSized(req) && Overlaps(req, cur.addr, cur.addr + cur.len)
    requires i < cur.len
    ensures var r := CopyOverlap(cur, req);
      && (CopyFrom(cur, req) <= cur.addr + i < CopyTo(cur, req) ==> r.buffer[i] == req.buffer[i + cur.addr - req.addr])
      && (!(CopyFrom(cur, req) <= cur.addr + i < CopyTo(cur, req)) ==> r.buffer[i] == cur.buffer[i])
  {
    var from, to := CopyFrom(cur, req), CopyTo(cur, req);
    var src := req.buffer[from - req.addr..to - req.addr];
    var off := from - cur.addr;
    var r := CopyOverlap(cur, req);
    assert r.buffer == Overwrite(cur.buffer, off, src);
    if from <= cur.addr + i < to {
      assert off <= i < off + |src|;
      assert r.buffer[i] == src[i - off];
      assert src[i - off] == req.buffer[i + cur.addr - req.addr];
    } else {
      assert !(off <= i < off + |src|);
    }
  }

  predicate AllWellSized(reqs: seq<MemReq>) {
    forall i :: 0 <= i < |reqs| ==> WellSized(reqs[i])
  }

  function TotalLen(reqs: seq<MemReq>): nat {
    if reqs == [] then 0 else reqs[0].len + TotalLen(reqs[1..])
  }

  /**
   * `MatchAll` on the current request `cur` and the buffered `reqs`:
   * the new current request, the requests left buffered, and whether no
   * assertion failed. Incomplete requests are skipped, every overlapping
   * complete one is copied and erased, and the scan stops as soon as
   * `cur` is complete; a matched request that sticks out of the window
   * fails the assertion.
   */
  function MatchAllFrom(cur: MemReq, reqs: seq<MemReq>): (r: (MemReq, seq<MemReq>, bool))
    requires WellSized(cur) && AllWellSized(reqs)
    ensures WellSized(r.0) && r.0.addr == cur.addr && r.0.len == cur.len && AllWellSized(r.1)
    decreases |reqs|
  {
    if reqs == [] then (cur, [], true)
    else
      var q := reqs[0];
      if !Complete(q) || !Overlaps(q, cur.addr, cur.addr + cur.len) then
        var rest := MatchAllFrom(cur, reqs[1..]);
        (rest.0, [q] + rest.1, rest.2)
      else
        var c := CopyOverlap(cur, q);
        if !Inside(q, cur.addr, cur.addr + cur.len) then (c, reqs, false)
        else if Complete(c) then (c, reqs[1..], true)
        else MatchAllFrom(c, reqs[1..])
  }

  /** No byte is lost: what `cur` acquires is the length of the requests erased. */
  lemma {:induction false} MatchAllConserves(cur: MemReq, reqs: seq<MemReq>)
    requires WellSized(cur) && AllWellSized(reqs)
    ensures var r := MatchAllFrom(cur, reqs);
      r.2 ==> r.0.acquiredLen + TotalLen(r.1) == cur.acquiredLen + TotalLen(reqs) && multiset(r.1) <= multiset(reqs)
    decreases |reqs|
  {
    if reqs != [] {
      var q := reqs[0];
      assert reqs == [q] + reqs[1..];
      if !Complete(q) || !Overlaps(q, cur.addr, cur.addr + cur.len) {
        MatchAllConserves(cur, reqs[1..]);
        var rest := MatchAllFrom(cur, reqs[1..]);
        assert TotalLen([q] + rest.1) == q.len + TotalLen(rest.1) by {
          assert ([q] + rest.1)[1..] == rest.1;
        }
      } else {
        var c := CopyOverlap(cur, q);
        if Inside(q, cur.addr, cur.addr + cur.len) && !Complete(c) {
          MatchAllConserves(c, reqs[1..]);
        }
      }
    }
  }

  /**
   * Incomplete buffered requests are never consumed, and when `cur` ends
   * incomplete no complete overlapping request is left buffered.
   */
  lemma {:induction false} MatchAllExhausts(cur: MemReq, reqs: seq<MemReq>)
    requires WellSized(cur) && AllWellSized(reqs)
    ensures var r := MatchAllFrom(cur, reqs);
      && (r.2 ==> forall q :: q in reqs && !Complete(q) ==> q in r.1)
      && (r.2 && !Complete(r.0) ==> forall q :: q in r.1 ==> !Complete(q) || !Overlaps(q, cur.addr, cur.addr + cur.len))
    decreases |reqs|
  {
    if reqs != [] {
      var q := reqs[0];
      assert reqs == [q] + reqs[1..];
      if !Complete(q) || !Overlaps(q, cur.addr, cur.addr + cur.len) {
        MatchAllExhausts(cur, reqs[1..]);
      } else {
        var c := CopyOverlap(cur, q);
        if Inside(q, cur.addr, cur.addr + cur.len) && !Complete(c) {
          MatchAllExhausts(c, reqs[1..]);
        }
      }
    }
  }

  lemma MatchAllSkips(cur: MemReq, reqs: seq<MemReq>, i: nat)
    requires WellSized(cur) && AllWellSized(reqs) && i < |reqs|
    requires !Complete(reqs[i]) || !Overlaps(reqs[i], cur.addr, cur.addr + cur.len)
    ensures var r' := MatchAllFrom(cur, reqs[i + 1..]);
      MatchAllFrom(cur, reqs[i..]) == (r'.0, [reqs[i]] + r'.1, r'.2)
  {
    assert reqs[i..][0] == reqs[i] && reqs[i..][1..] == reqs[i + 1..];
  }

  /** A complete request inside the window is copied and the scan goes on, or stops when `cur` is complete. */
  lemma MatchAllTakes(cur: MemReq, reqs: seq<MemReq>, i: nat)
    requires WellSized(cur) && AllWellSized(reqs) && i < |reqs|
    requires Complete(reqs[i]) && Overlaps(reqs[i], cur.addr, cur.addr + cur.len)
    ensures var c := CopyOverlap(cur, reqs[i]);
      && (!Inside(reqs[i], cur.addr, cur.addr + cur.len) ==> MatchAllFrom(cur, reqs[i..]) == (c, reqs[i..], false))
      && (Inside(reqs[i], cur.addr, cur.addr + cur.len) && Complete(c) ==> MatchAllFrom(cur, reqs[i..]) == (c, reqs[i + 1..], true))
      && (Inside(reqs[i], cur.addr, cur.addr + cur.len) && !Complete(c) ==> MatchAllFrom(cur, reqs[i..]) == MatchAllFrom(c, reqs[i + 1..]))
  {
    assert reqs[i..][0] == reqs[i] && reqs[i..][1..] == reqs[i + 1..];
  }

  /** `MatchReq(req)`: whether `req` was matched into `cur`, the new `cur`, and whether no assertion failed. */
  function MatchReqSpec(cur: MemReq, req: MemReq): (r: (bool, MemReq, bool))
    requires WellSized(cur) && WellSized(req)
    ensures r.0 <==> Overlaps(req, cur.addr, cur.addr + cur.len)
    ensures !r.0 ==> r.1 == cur && r.2
    ensures r.0 ==> r.1 == CopyOverlap(cur, req) && (r.2 <==> Inside(req, cur.addr, cur.addr + cur.len))
    ensures r.0 && r.2 ==> r.1.acquiredLen == cur.acquiredLen + req.len
  {
    if Overlaps(req, cur.addr, cur.addr + cur.len) then
      (true, CopyOverlap(cur, req), Inside(req, cur.addr, cur.addr + cur.len))
    else (false, cur, true)
  }

  /**
   * The invariant of `MatchAll`'s loop: the first `i` buffered requests
   * were kept, and scanning on from `i` with `cur` ends where the whole
   * scan from `cur0` does.
   */
  predicate ScanInv(cur0: MemReq, reqs0: seq<MemReq>, cur: MemReq, reqs: seq<MemReq>, i: nat)
    requires WellSized(cur0) && AllWellSized(reqs0)
  {
    && i <= |reqs| && WellSized(cur) && AllWellSized(reqs)
    && cur.addr == cur0.addr && cur.len == cur0.len
    && var rest := MatchAllFrom(cur, reqs[i..]);
      MatchAllFrom(cur0, reqs0) == (rest.0, reqs[..i] + rest.1, rest.2)
  }

  lemma ScanStarts(cur0: MemReq, reqs0: seq<MemReq>)
    requires WellSized(cur0) && AllWellSized(reqs0)
    ensures ScanInv(cur0, reqs0, cur0, reqs0, 0)
  {
    assert reqs0[0..] == reqs0 && reqs0[..0] == [];
    assert [] + MatchAllFrom(cur0, reqs0).1 == MatchAllFrom(cur0, reqs0).1;
  }

  /** Skipping request `i` keeps the invariant. */
  lemma ScanSkips(cur0: MemReq, reqs0: seq<MemReq>, cur: MemReq, reqs: seq<MemReq>, i: nat)
    requires WellSized(cur0) && AllWellSized(reqs0) && ScanInv(cur0, reqs0, cur, reqs, i) && i < |reqs|
    requires !Complete(reqs[i]) || !Overlaps(reqs[i], cur.addr, cur.addr + cur.len)
    ensures ScanInv(cur0, reqs0, cur, reqs, i + 1)
  {
    MatchAllSkips(cur, reqs, i);
    var r' := MatchAllFrom(cur, reqs[i + 1..]);
    assert reqs[..i + 1] == reqs[..i] + [reqs[i]];
    assert reqs[..i] + ([reqs[i]] + r'.1) == (reqs[..i] + [reqs[i]]) + r'.1;
  }

  /** Copying and erasing request `i` keeps the invariant when `cur` stays incomplete. */
  lemma ScanErases(cur0: MemReq, reqs0: seq<MemReq>, cur: MemReq, reqs: seq<MemReq>, i: nat)
    requires WellSized(cur0) && AllWellSized(reqs0) && ScanInv(cur0, reqs0, cur, reqs, i) && i < |reqs|
    requires Complete(reqs[i]) && Inside(reqs[i], cur.addr, cur.addr + cur.len) && Overlaps(reqs[i], cur.addr, cur.addr + cur.len)
    requires !Complete(CopyOverlap(cur, reqs[i]))
    ensures ScanInv(cur0, reqs0, CopyOverlap(cur, reqs[i]), reqs[..i] + reqs[i + 1..], i)
  {
    MatchAllTakes(cur, reqs, i);
    var reqs' := reqs[..i] + reqs[i + 1..];
    assert reqs'[..i] == reqs[..i] && reqs'[i..] == reqs[i + 1..];
    EraseWellSized(reqs, i);
  }

  lemma EraseWellSized(reqs: seq<MemReq>, i: nat)
    requires AllWellSized(reqs) && i < |reqs|
    ensures AllWellSized(reqs[..i] + reqs[i + 1..])
  {
    var reqs' := reqs[..i] + reqs[i + 1..];
    forall k | 0 <= k < |reqs'|
      ensures WellSized(reqs'[k])
    {
      if k < i {
        assert reqs'[k] == reqs[k];
      } else {
        assert reqs'[k] == reqs[k + 1];
      }
    }
  }

  /** Where the scan stops at request `i`. */
  lemma ScanStops(cur0: MemReq, reqs0: seq<MemReq>, cur: MemReq, reqs: seq<MemReq>, i: nat)
    requires WellSized(cur0) && AllWellSized(reqs0) && ScanInv(cur0, reqs0, cur, reqs, i) && i < |reqs|
    requires Complete(reqs[i]) && Overlaps(reqs[i], cur.addr, cur.addr + cur.len)
    ensures var c := CopyOverlap(cur, reqs[i]);
      && (!Inside(reqs[i], cur.addr, cur.addr + cur.len) ==> MatchAllFrom(cur0, reqs0) == (c, reqs, false))
      && (Inside(reqs[i], cur.addr, cur.addr + cur.len) && Complete(c) ==> MatchAllFrom(cur0, reqs0) == (c, reqs[..i] + reqs[i + 1..], true))
  {
    MatchAllTakes(cur, reqs, i);
    assert reqs == reqs[..i] + reqs[i..];
  }

  lemma ScanEnds(cur0: MemReq, reqs0: seq<MemReq>, cur: MemReq, reqs: seq<MemReq>, i: nat)
    requires WellSized(cur0) && AllWellSized(reqs0) && ScanInv(cur0, reqs0, cur, reqs, i) && i == |reqs|
    ensures MatchAllFrom(cur0, reqs0) == (cur, reqs, true)
  {
    assert reqs[i..] == [];
    assert reqs[..i] + [] == reqs;
  }

  /** The loop of `MatchAll`, erasing each buffered request it matches. */
  method MatchLoop(cur0: MemReq, reqs0: seq<MemReq>) returns (cur: MemReq, reqs: seq<MemReq>, ok: bool)
    requires WellSized(cur0) && AllWellSized(reqs0)
    ensures (cur, reqs, ok) == MatchAllFrom(cur0, reqs0)
  {
    cur, reqs := cur0, reqs0;
    var start := cur.addr;
    var end := start + cur.len;
    var i := 0;
    ScanStarts(cur0, reqs0);
    while i < |reqs|
      invariant ScanInv(cur0, reqs0, cur, reqs, i)
      decreases |reqs| - i
    {
      var req := reqs[i];
      if !Complete(req) || !Overlaps(req, start, end) {
        ScanSkips(cur0, reqs0, cur, reqs, i);
        i := i + 1;
      } else {
        ScanStops(cur0, reqs0, cur, reqs, i);
        var next := CopyOverlap(cur, req);
        if !Inside(req, start, end) {
          return next, reqs, false;
        }
        if Complete(next) {
          return next, reqs[..i] + reqs[i + 1..], true;
        }
        ScanErases(cur0, reqs0, cur, reqs, i);
        cur := next;
        reqs := reqs[..i] + reqs[i + 1..];
      }
    }
    ScanEnds(cur0, reqs0, cur, reqs, i);
    return cur, reqs, true;
  }

  class Matcher {
    var tag: int
    var valid: bool
    var reqs: seq<MemReq>
    var currReq: Option<MemReq>

    ghost predicate Valid()
      reads this
    {
      (valid ==> currReq.Some?) && (currReq.Some? ==> WellSized(currReq.value)) && AllWellSized(reqs)
    }

    /** `Matcher(tag)`; the default `Matcher()` is this with tag 0. */
    constructor (tag: int)
      ensures Valid() && this.tag == tag && !valid && reqs == [] && currReq == None
    {
      this.tag := tag;
      valid := false;
      reqs := [];
      currReq := None;
    }

    /** `Clear` */
    method Clear()
      modifies this
      ensures Valid() && currReq == None && reqs == [] && !valid && tag == old(tag)
    {
      currReq := None;
      reqs := [];
      valid := false;
    }

    /** `isCompleted` */
    function IsCompleted(): (r: bool)
      reads this
      requires Valid()
      ensures r <==> valid && currReq.value.acquiredLen == currReq.value.len
    {
      valid && Complete(currReq.value)
    }

    /**
     * `Register(req)`: `req` becomes the current request and is matched
     * against everything buffered. `ok` is false when a matched buffered
     * request sticks out of the window (the source's assertion).
     */
    method Register(req: MemReq) returns (ok: bool)
      requires Valid() && WellSized(req) && req.rw == ReadReq
      modifies this
      ensures Valid() && valid && tag == old(tag)
      ensures (currReq.value, reqs, ok) == MatchAllFrom(req, old(reqs))
    {
      currReq := Some(req);
      valid := true;
      ok := MatchAll();
    }

    /**
     * `Produce(req)`: a request that overlaps the current one is consumed
     * into it; any other request is buffered.
     */
    method Produce(req: MemReq) returns (ok: bool)
      requires Valid() && WellSized(req)
      modifies this
      ensures Valid() && valid == old(valid) && tag == old(tag)
      ensures !old(valid) ==> reqs == old(reqs) + [req] && currReq == old(currReq) && ok
      ensures old(valid) ==>
        var (matched, cur, okm) := MatchReqSpec(old(currReq.value), req);
        && currReq == Some(cur) && ok == okm
        && reqs == (if matched then old(reqs) else old(reqs) + [req])
    {
      var matched := false;
      ok := true;
      if valid {
        matched, ok := MatchReq(req);
      }
      if !valid || !matched {
        reqs := reqs + [req];
      }
    }

    /** `Consume`: hands out the current request; a new one must be registered. */
    method Consume() returns (req: Option<MemReq>)
      requires Valid()
      modifies this
      ensures Valid() && req == old(currReq) && currReq == None && !valid
      ensures reqs == old(reqs) && tag == old(tag)
    {
      req := currReq;
      currReq := None;
      valid := false;
    }

    /** `MatchAll` */
    method MatchAll() returns (ok: bool)
      requires Valid() && currReq.Some?
      modifies this
      ensures Valid() && currReq.Some? && valid == old(valid) && tag == old(tag)
      ensures (currReq.value, reqs, ok) == MatchAllFrom(old(currReq.value), old(reqs))
    {
      var cur, rest;
      cur, rest, ok := MatchLoop(currReq.value, reqs);
      currReq := Some(cur);
      reqs := rest;
    }

    /** `MatchReq(req)` against the current request. */
    method MatchReq(req: MemReq) returns (matched: bool, ok: bool)
      requires Valid() && currReq.Some? && WellSized(req)
      modifies this
      ensures Valid() && currReq.Some? && reqs == old(reqs) && valid == old(valid) && tag == old(tag)
      ensures (matched, currReq.value, ok) == MatchReqSpec(old(currReq.value), req)
    {
      var start := currReq.value.addr;
      var end := start + currReq.value.len;
      if Overlaps(req, start, end) {
        currReq := Some(CopyOverlap(currReq.value, req));
        return true, Inside(req, start, end);
      }
      return false, true;
    }
  }

  /** A matcher as `Matcher()` leaves it: tag 0, nothing registered or buffered. */
  ghost predicate Empty(m: Matcher)
    reads m
  {
    m.Valid() && !m.valid && m.reqs == [] && m.currReq == None && m.tag == 0
  }

  /** `lpn_req_map`, `func_req_map` and `perf_req_map`. */
  class ReqMaps {
    var lpnReqMap: map<int, seq<MemReq>>
    var funcReqMap: map<int, Matcher>
    var perfReqMap: map<int, Matcher>

    constructor ()
      ensures lpnReqMap == map[] && funcReqMap == map[] && perfReqMap == map[]
    {
      lpnReqMap := map[];
      funcReqMap := map[];
      perfReqMap := map[];
    }

    /** `setupReqQueues(ids)`: an empty queue and fresh matchers (tag 0) for every id. */
    method SetupReqQueues(ids: seq<int>)
      modifies this
      ensures forall k :: k in lpnReqMap <==> k in old(lpnReqMap) || k in ids
      ensures forall k :: k in funcReqMap <==> k in old(funcReqMap) || k in ids
      ensures forall k :: k in perfReqMap <==> k in old(perfReqMap) || k in ids
      ensures forall k :: k in lpnReqMap ==> lpnReqMap[k] == (if k in ids then [] else old(lpnReqMap[k]))
      ensures forall k :: k in funcReqMap && k !in ids ==> funcReqMap[k] == old(funcReqMap[k])
      ensures forall k :: k in perfReqMap && k !in ids ==> perfReqMap[k] == old(perfReqMap[k])
      ensures forall k :: k in ids ==> fresh(funcReqMap[k]) && Empty(funcReqMap[k])
      ensures forall k :: k in ids ==> fresh(perfReqMap[k]) && Empty(perfReqMap[k])
    {
      var i := 0;
      while i < |ids|
        invariant 0 <= i <= |ids|
        invariant forall k :: k in lpnReqMap <==> k in old(lpnReqMap) || k in ids[..i]
        invariant forall k :: k in funcReqMap <==> k in old(funcReqMap) || k in ids[..i]
        invariant forall k :: k in perfReqMap <==> k in old(perfReqMap) || k in ids[..i]
        invariant forall k :: k in lpnReqMap ==> lpnReqMap[k] == (if k in ids[..i] then [] else old(lpnReqMap[k]))
        invariant forall k :: k in funcReqMap && k !in ids[..i] ==> funcReqMap[k] == old(funcReqMap[k])
        invariant forall k :: k in perfReqMap && k !in ids[..i] ==> perfReqMap[k] == old(perfReqMap[k])
        invariant forall k :: k in ids[..i] ==>
          fresh(funcReqMap[k]) && Empty(funcReqMap[k]) && fresh(perfReqMap[k]) && Empty(perfReqMap[k])
      {
        assert ids[..i + 1] == ids[..i] + [ids[i]];
        SetupReqQueue(ids[i]);
        i := i + 1;
      }
      assert ids[..i] == ids;
    }

    /** One round of `setupReqQueues`: an empty queue and fresh matchers for `id`. */
    method SetupReqQueue(id: int)
      modifies this
      ensures lpnReqMap == old(lpnReqMap)[id := []]
      ensures id in funcReqMap && id in perfReqMap
      ensures funcReqMap == old(funcReqMap)[id := funcReqMap[id]] && perfReqMap == old(perfReqMap)[id := perfReqMap[id]]
      ensures fresh(funcReqMap[id]) && Empty(funcReqMap[id])
      ensures fresh(perfReqMap[id]) && Empty(perfReqMap[id])
    {
      var f := new Matcher(0);
      var p := new Matcher(0);
      lpnReqMap := lpnReqMap[id := []];
      funcReqMap := funcReqMap[id := f];
      perfReqMap := perfReqMap[id := p];
    }

    /**
     * `enqRequest(addr, len, tag, rw)`: a zeroed READ request with id
     * `tag` is registered with `func_req_map[tag]`, created with tag 0
     * when absent, and that matcher is returned.
     */
    method EnqRequest(addr: nat, len: nat, tag: int, rw: int) returns (m: Matcher, ok: bool)
      requires tag in funcReqMap ==> funcReqMap[tag].Valid()
      modifies this, if tag in funcReqMap then {funcReqMap[tag]} else {}
      ensures lpnReqMap == old(lpnReqMap) && perfReqMap == old(perfReqMap)
      ensures funcReqMap == old(funcReqMap)[tag := m]
      ensures tag in old(funcReqMap) ==> m == old(funcReqMap[tag]) && m.tag == old(m.tag)
      ensures tag !in old(funcReqMap) ==> fresh(m) && m.tag == 0
      ensures m.Valid() && m.valid
      ensures var before := if tag in old(funcReqMap) then old(funcReqMap[tag].reqs) else [];
        (m.currReq.value, m.reqs, ok) == MatchAllFrom(NewReq(ToU32(tag), 0, addr, len, ReadReq), before)
    {
      var req := NewReq(ToU32(tag), 0, addr, len, ReadReq);
      if tag in funcReqMap {
        m := funcReqMap[tag];
      } else {
        m := new Matcher(0);
        funcReqMap := funcReqMap[tag := m];
      }
      ok := m.Register(req);
    }
  }
}
