// The JPEG decoder's request matcher (`lpn_req_map.hh` / `lpn_req_map.cc`
// of the JPEG simulator). Responses are only buffered; a registered read
// is served from the first buffered request once enough of it has arrived.
module JpegReqMap {
  import opened Arith
  import opened Wrappers
  import opened MemReqs

  predicate AllWellSized(reqs: seq<MemReq>) {
    forall i :: 0 <= i < |reqs| ==> WellSized(reqs[i])
  }

  /** `q` has received every byte of the window of `cur`. */
  predicate Serves(q: MemReq, cur: MemReq) {
    q.addr <= cur.addr && cur.addr + cur.len <= q.addr + q.acquiredLen
  }

  /** The window of `cur` lies inside the buffer of `q`. */
  predicate InBuffer(q: MemReq, cur: MemReq) {
    q.addr <= cur.addr && cur.addr + cur.len - q.addr <= |q.buffer|
  }

  /**
   * `MatchAll` on the current request `cur` and the buffered `reqs`: the
   * new current request and whether the code stays defined. Only the
   * first buffered request is looked at; when it has received the whole
   * window `[start, end)`, the window's bytes are copied into `cur`. It
   * must start at or before the window (the source's assertion), and the
   * bytes read must lie in its buffer.
   */
  function PrefixMatch(cur: MemReq, reqs: seq<MemReq>): (r: (MemReq, bool))
    requires WellSized(cur) && AllWellSized(reqs)
    ensures WellSized(r.0) && r.0.addr == cur.addr && r.0.len == cur.len && r.0.rw == cur.rw
    ensures Complete(cur) || reqs == [] ==> r == (cur, true)
    ensures !r.1 ==> r.0 == cur && reqs != [] && !Complete(cur) && !InBuffer(reqs[0], cur)
  {
    if Complete(cur) || reqs == [] then (cur, true)
    else
      var q := reqs[0];
      var start, end := cur.addr, cur.addr + cur.len;
      if start < q.addr then (cur, false)
      else if q.addr + q.acquiredLen < end then (cur, true)
      else if end - q.addr > |q.buffer| then (cur, false)
      else
        var window := q.buffer[start - q.addr..end - q.addr];
        assert Overwrite(cur.buffer, 0, window) == window;
        (cur.(buffer := window, acquiredLen := cur.acquiredLen + cur.len), true)
  }

  /**
   * The current request changes exactly when the first buffered request
   * serves its whole window from its buffer; it then holds the window's
   * bytes and counts them as acquired.
   */
  lemma PrefixMatchCopies(cur: MemReq, reqs: seq<MemReq>)
    requires WellSized(cur) && AllWellSized(reqs)
    ensures var r := PrefixMatch(cur, reqs);
      r.0 != cur ==>
      && r.1 && Serves(reqs[0], cur) && InBuffer(reqs[0], cur) && r.0.acquiredLen == cur.acquiredLen + cur.len
      && r.0.buffer == reqs[0].buffer[cur.addr - reqs[0].addr..cur.addr + cur.len - reqs[0].addr]
    ensures var r := PrefixMatch(cur, reqs);
      reqs != [] && !Complete(cur) && Serves(reqs[0], cur) && InBuffer(reqs[0], cur) ==>
      r.1 && r.0.acquiredLen == cur.acquiredLen + cur.len &&
      r.0.buffer == reqs[0].buffer[cur.addr - reqs[0].addr..cur.addr + cur.len - reqs[0].addr]
  {
  }

  /** A fresh read whose window has fully arrived in the first buffered request completes at once. */
  lemma FreshReadServed(cur: MemReq, reqs: seq<MemReq>)
    requires WellSized(cur) && AllWellSized(reqs) && cur.acquiredLen == 0
    requires reqs != [] && Serves(reqs[0], cur) && InBuffer(reqs[0], cur)
    ensures Complete(PrefixMatch(cur, reqs).0) && PrefixMatch(cur, reqs).1
  {
    PrefixMatchCopies(cur, reqs);
  }

  class Matcher {
    var tag: int
    var valid: bool
    var reqs: seq<MemReq>
    var currReq: Option<MemReq>

    ghost predicate Valid()
      reads this
    {
      (valid ==> currReq.Some?) && (currReq.Some? ==> WellSized(currReq.value)) && AllWellSized(reqs)
    }

    /** `Matcher(tag)`; the default `Matcher()` is this with tag 0. */
    constructor (tag: int)
      ensures Valid() && this.tag == tag && !valid && reqs == [] && currReq == None
    {
      this.tag := tag;
      valid := false;
      reqs := [];
      currReq := None;
    }

    /** `Clear` */
    method Clear()
      modifies this
      ensures Valid() && currReq == None && reqs == [] && !valid && tag == old(tag)
    {
      currReq := None;
      reqs := [];
      valid := false;
    }

    /** `isCompleted` */
    function IsCompleted(): (r: bool)
      reads this
      requires Valid()
      ensures r <==> valid && currReq.value.acquiredLen == currReq.value.len
    {
      valid && Complete(currReq.value)
    }

    /** `Register(req)`: `req` becomes the current request and is matched at once. */
    method Register(req: MemReq) returns (ok: bool)
      requires Valid() && WellSized(req) && req.rw == ReadReq
      modifies this
      ensures Valid() && valid && reqs == old(reqs) && tag == old(tag)
      ensures (currReq.value, ok) == PrefixMatch(req, reqs)
    {
      currReq := Some(req);
      valid := true;
      ok := MatchAll();
    }

    /** `Produce(req)`: always buffered. */
    method Produce(req: MemReq)
      requires Valid() && WellSized(req)
      modifies this
      ensures Valid() && reqs == old(reqs) + [req]
      ensures valid == old(valid) && currReq == old(currReq) && tag == old(tag)
    {
      reqs := reqs + [req];
    }

    /** `Consume`: hands out the current request; a new one must be registered. */
    method Consume() returns (req: Option<MemReq>)
      requires Valid()
      modifies this
      ensures Valid() && req == old(currReq) && currReq == None && !valid
      ensures reqs == old(reqs) && tag == old(tag)
    {
      req := currReq;
      currReq := None;
      valid := false;
    }

    /**
     * `MatchAll`: nothing happens unless a request is registered and not
     * yet complete; buffered requests are never erased.
     */
    method MatchAll() returns (ok: bool)
      requires Valid()
      modifies this
      ensures Valid() && valid == old(valid) && reqs == old(reqs) && tag == old(tag)
      ensures !old(valid) ==> currReq == old(currReq) && ok
      ensures old(valid) ==> (currReq.value, ok) == PrefixMatch(old(currReq.value), reqs)
    {
      if IsCompleted() || !valid {
        return true;
      }
      var cur := currReq.value;
      var start := cur.addr;
      var end := start + cur.len;
      if |reqs| > 0 {
        var req := reqs[0];
        if start < req.addr {
          return false;
        }
        if req.addr + req.acquiredLen >= end {
          if end - req.addr > |req.buffer| {
            return false;
          }
          var window := req.buffer[start - req.addr..end - req.addr];
          assert Overwrite(cur.buffer, 0, window) == window;
          currReq := Some(cur.(buffer := Overwrite(cur.buffer, 0, window), acquiredLen := cur.acquiredLen + (end - start)));
        }
      }
      return true;
    }
  }

  /** A matcher as `Matcher()` leaves it: nothing registered or buffered. */
  ghost predicate Cleared(m: Matcher)
    reads m
  {
    m.Valid() && !m.valid && m.reqs == [] && m.currReq == None
  }

  /** `CtlVar`: the matchers of one simulator side and its hand-shake flags. */
  class CtlVar {
    var blocked: bool
    var finished: bool
    var exited: bool
    var reqMatcher: map<int, Matcher>
    /** The keys of `reqMatcher`, each once, in the order the map's iteration visits them. */
    var ids: seq<int>

    /** Every matcher is valid, and each id owns its own matcher, as the map holds them by value. */
    ghost predicate Valid()
      reads this, reqMatcher.Values
    {
      && (forall k :: k in reqMatcher <==> k in ids)
      && (forall i, j :: 0 <= i < j < |ids| ==> ids[i] != ids[j])
      && (forall k :: k in reqMatcher ==> reqMatcher[k].Valid())
      && (forall k1, k2 :: k1 in reqMatcher && k2 in reqMatcher && k1 != k2 ==> reqMatcher[k1] != reqMatcher[k2])
    }

    constructor ()
      ensures Valid() && !blocked && !finished && !exited && reqMatcher == map[]
    {
      blocked, finished, exited := false, false, false;
      reqMatcher := map[];
      ids := [];
    }

    /** `Reset`: every matcher is cleared and the three flags drop. */
    method Reset()
      requires Valid()
      modifies this, reqMatcher.Values
      ensures Valid() && reqMatcher == old(reqMatcher)
      ensures forall k :: k in reqMatcher ==> Cleared(reqMatcher[k]) && reqMatcher[k].tag == old(reqMatcher[k].tag)
      ensures !blocked && !finished && !exited
    {
      var i := 0;
      while i < |ids|
        invariant 0 <= i <= |ids| && reqMatcher == old(reqMatcher) && ids == old(ids) && Valid()
        invariant forall k :: k in reqMatcher ==> reqMatcher[k].tag == old(reqMatcher[k].tag)
        invariant forall k :: k in ids[..i] ==> Cleared(reqMatcher[k])
      {
        var key := ids[i];
        assert ids[..i + 1] == ids[..i] + [key];
        ClearKey(key);
        i := i + 1;
      }
      assert ids[..i] == ids;
      blocked, finished, exited := false, false, false;
    }

    /** One iteration of the `Reset` loop: the matcher of `key` is cleared, every other matcher is left alone. */
    method ClearKey(key: int)
      requires Valid() && key in reqMatcher
      modifies reqMatcher[key]
      ensures Valid() && Cleared(reqMatcher[key]) && reqMatcher[key].tag == old(reqMatcher[key].tag)
      ensures forall k :: k in reqMatcher && k != key ==>
        Cleared(reqMatcher[k]) == old(Cleared(reqMatcher[k])) && reqMatcher[k].tag == old(reqMatcher[k].tag)
    {
      reqMatcher[key].Clear();
    }

    /** `ctl.req_matcher[tag]`: the matcher of `tag`, inserted as `Matcher()` when absent. */
    method MatcherFor(tag: int) returns (m: Matcher)
      requires Valid()
      modifies this
      ensures Valid() && blocked == old(blocked) && finished == old(finished) && exited == old(exited)
      ensures tag in old(reqMatcher) ==> m == old(reqMatcher[tag]) && reqMatcher == old(reqMatcher) && ids == old(ids)
      ensures tag !in old(reqMatcher) ==>
        fresh(m) && Cleared(m) && m.tag == 0 && reqMatcher == old(reqMatcher)[tag := m] && ids == old(ids) + [tag]
    {
      if tag in reqMatcher {
        m := reqMatcher[tag];
      } else {
        m := new Matcher(0);
        reqMatcher := reqMatcher[tag := m];
        ids := ids + [tag];
      }
    }

    /** `req_matcher[id].Clear()` */
    method ClearOne(id: int)
      requires Valid()
      modifies this, reqMatcher.Values
      ensures Valid() && id in reqMatcher && Cleared(reqMatcher[id])
      ensures forall k :: k in reqMatcher <==> k in old(reqMatcher) || k == id
      ensures forall k :: k in old(reqMatcher) ==> reqMatcher[k] == old(reqMatcher[k])
      ensures forall k :: k in reqMatcher && k !in old(reqMatcher) ==> fresh(reqMatcher[k])
      ensures forall k :: k in reqMatcher && k != id ==> Cleared(reqMatcher[k]) == old(Cleared(reqMatcher[k]))
    {
      var m := MatcherFor(id);
      m.Clear();
    }

    /** `req_matcher[id] = Matcher(id)`: a fresh matcher replaces whatever `id` held. */
    method Install(id: int)
      requires Valid()
      modifies this
      ensures Valid() && blocked == old(blocked) && finished == old(finished) && exited == old(exited)
      ensures reqMatcher.Keys == old(reqMatcher.Keys) + {id}
      ensures forall k :: k in old(reqMatcher) && k != id ==> reqMatcher[k] == old(reqMatcher[k])
      ensures fresh(reqMatcher[id]) && Cleared(reqMatcher[id]) && reqMatcher[id].tag == id
    {
      var m := new Matcher(id);
      if id !in reqMatcher {
        ids := ids + [id];
      }
      reqMatcher := reqMatcher[id := m];
    }
  }

  /** `setupReqQueues(ids)`: `Matcher(id)` is installed for every id. */
  method SetupReqQueues(ctl: CtlVar, ids: seq<int>)
    requires ctl.Valid()
    modifies ctl
    ensures ctl.Valid()
    ensures forall k :: k in ctl.reqMatcher <==> k in old(ctl.reqMatcher) || k in ids
    ensures forall k :: k in ctl.reqMatcher && k !in ids ==> ctl.reqMatcher[k] == old(ctl.reqMatcher[k])
    ensures forall k :: k in ids ==> fresh(ctl.reqMatcher[k]) && Cleared(ctl.reqMatcher[k]) && ctl.reqMatcher[k].tag == k
  {
    var i := 0;
    while i < |ids|
      invariant 0 <= i <= |ids| && ctl.Valid()
      invariant forall k :: k in ctl.reqMatcher <==> k in old(ctl.reqMatcher) || k in ids[..i]
      invariant forall k :: k in ctl.reqMatcher && k !in ids[..i] ==> ctl.reqMatcher[k] == old(ctl.reqMatcher[k])
      invariant forall k :: k in ids[..i] ==> fresh(ctl.reqMatcher[k]) && Cleared(ctl.reqMatcher[k]) && ctl.reqMatcher[k].tag == k
    {
      var id := ids[i];
      assert ids[..i + 1] == ids[..i] + [id];
      ctl.Install(id);
      i := i + 1;
    }
    assert ids[..i] == ids;
  }

  /** `ClearReqQueues(ids)`: the matcher of every id is cleared, created first when absent. */
  method ClearReqQueues(ctl: CtlVar, ids: seq<int>)
    requires ctl.Valid()
    modifies ctl, ctl.reqMatcher.Values
    ensures ctl.Valid()
    ensures forall k :: k in ctl.reqMatcher <==> k in old(ctl.reqMatcher) || k in ids
    ensures forall k :: k in old(ctl.reqMatcher) ==> ctl.reqMatcher[k] == old(ctl.reqMatcher[k])
    ensures forall k :: k in ids ==> Cleared(ctl.reqMatcher[k])
  {
    var i := 0;
    while i < |ids|
      invariant 0 <= i <= |ids| && ctl.Valid()
      invariant forall k :: k in ctl.reqMatcher <==> k in old(ctl.reqMatcher) || k in ids[..i]
      invariant forall k :: k in old(ctl.reqMatcher) ==> ctl.reqMatcher[k] == old(ctl.reqMatcher[k])
      invariant forall k :: k in ctl.reqMatcher && k !in old(ctl.reqMatcher) ==> fresh(ctl.reqMatcher[k])
      invariant forall o :: o in ctl.reqMatcher.Values ==> o in old(ctl.reqMatcher.Values) || fresh(o)
      invariant forall k :: k in ids[..i] ==> Cleared(ctl.reqMatcher[k])
    {
      var id := ids[i];
      assert ids[..i + 1] == ids[..i] + [id];
      ctl.ClearOne(id);
      i := i + 1;
    }
    assert ids[..i] == ids;
  }

  /**
   * `enqueueReq(id, addr, len, tag, rw)`: a zeroed request is appended to
   * the buffered requests of `req_matcher[tag]`; the result is that
   * last element and its index.
   */
  method EnqueueReq(ctl: CtlVar, id: int, addr: nat, len: nat, tag: int, rw: int) returns (req: MemReq, idx: nat)
    requires ctl.Valid()
    modifies ctl, if tag in ctl.reqMatcher then {ctl.reqMatcher[tag]} else {}
    ensures ctl.Valid() && tag in ctl.reqMatcher
    ensures forall k :: k in old(ctl.reqMatcher) ==> k in ctl.reqMatcher && ctl.reqMatcher[k] == old(ctl.reqMatcher[k])
    ensures var m := ctl.reqMatcher[tag];
      && req == NewReq(ToU32(id), tag, addr, len, rw != 0)
      && m.reqs == (if tag in old(ctl.reqMatcher) then old(ctl.reqMatcher[tag].reqs) else []) + [req]
      && idx == |m.reqs| - 1 && m.reqs[idx] == req
  {
    var r := NewReq(ToU32(id), tag, addr, len, rw != 0);
    var m := ctl.MatcherFor(tag);
    m.Produce(r);
    idx := |m.reqs| - 1;
    req := m.reqs[idx];
  }

  /**
   * `getDataNB(ctl, addr, len, tag, rw)`: a READ request for the window is
   * registered; 1 when it completes at once, which leaves it registered,
   * otherwise it is consumed again and the result is 0.
   */
  method GetDataNB(ctl: CtlVar, addr: nat, len: nat, tag: int, rw: int) returns (r: int, ok: bool)
    requires ctl.Valid()
    modifies ctl, if tag in ctl.reqMatcher then {ctl.reqMatcher[tag]} else {}
    ensures ctl.Valid() && tag in ctl.reqMatcher
    ensures forall k :: k in old(ctl.reqMatcher) ==> k in ctl.reqMatcher && ctl.reqMatcher[k] == old(ctl.reqMatcher[k])
    ensures var m := ctl.reqMatcher[tag];
      var before := if tag in old(ctl.reqMatcher) then old(ctl.reqMatcher[tag].reqs) else [];
      var (cur, okm) := PrefixMatch(NewReq(0, tag, addr, len, ReadReq), before);
      && m.reqs == before && ok == okm
      && (r == 1 || r == 0) && (r == 1 <==> Complete(cur))
      && (r == 1 ==> m.valid && m.currReq == Some(cur))
      && (r == 0 ==> !m.valid && m.currReq == None)
  {
    var req := NewReq(0, tag, addr, len, ReadReq);
    var m := ctl.MatcherFor(tag);
    ok := m.Register(req);
    if m.IsCompleted() {
      return 1, ok;
    }
    var _ := m.Consume();
    return 0, ok;
  }

  /** `[addr, addr + len)` lies inside the window of `q`. */
  predicate Contains(q: MemReq, addr: nat, len: nat) {
    addr >= q.addr && addr + len <= q.addr + q.len
  }

  /** The request `putData` writes into: the first containing one, unless a complete one comes first. */
  function PutTarget(reqs: seq<MemReq>, addr: nat, len: nat, from: nat): (r: Option<nat>)
    requires from <= |reqs|
    ensures r.Some? ==> from <= r.value < |reqs| && Contains(reqs[r.value], addr, len)
    ensures r.Some? ==> forall j :: from <= j <= r.value ==> !Complete(reqs[j])
    ensures r.Some? ==> forall j :: from <= j < r.value ==> !Contains(reqs[j], addr, len)
    ensures r.None? ==> forall j :: from <= j < |reqs| && Contains(reqs[j], addr, len) ==>
      !forall i :: from <= i <= j ==> !Complete(reqs[i])
    decreases |reqs| - from
  {
    if from == |reqs| || Complete(reqs[from]) then None
    else if Contains(reqs[from], addr, len) then Some(from)
    else PutTarget(reqs, addr, len, from + 1)
  }

  /** The write of `data` into `q` at `addr`: the bytes land at their offset and `acquiredLen` grows by `len`. */
  function Fill(q: MemReq, addr: nat, data: seq<Byte>): (r: MemReq)
    requires WellSized(q) && Contains(q, addr, |data|)
    ensures WellSized(r) && r.addr == q.addr && r.len == q.len && r.acquiredLen == q.acquiredLen + |data|
    ensures forall i :: 0 <= i < |data| ==> r.buffer[addr - q.addr + i] == data[i]
    ensures forall i :: 0 <= i < q.len && !(addr - q.addr <= i < addr - q.addr + |data|) ==> r.buffer[i] == q.buffer[i]
  {
    q.(buffer := Overwrite(q.buffer, addr - q.addr, data), acquiredLen := q.acquiredLen + |data|)
  }

  /**
   * `putData(addr, len, tag, rw, ts, buffer)`: the response `data` is
   * written into its target request of `req_matcher[tag]`, after which
   * the matcher retries its registered read.
   */
  method PutData(ctl: CtlVar, addr: nat, len: nat, tag: int, rw: int, ts: nat, data: seq<Byte>) returns (ok: bool)
    requires ctl.Valid() && |data| == len
    modifies ctl, if tag in ctl.reqMatcher then {ctl.reqMatcher[tag]} else {}
    ensures ctl.Valid() && tag in ctl.reqMatcher
    ensures forall k :: k in old(ctl.reqMatcher) ==> k in ctl.reqMatcher && ctl.reqMatcher[k] == old(ctl.reqMatcher[k])
    ensures var m := ctl.reqMatcher[tag];
      var before := if tag in old(ctl.reqMatcher) then old(ctl.reqMatcher[tag].reqs) else [];
      var cur := if tag in old(ctl.reqMatcher) then old(ctl.reqMatcher[tag].currReq) else None;
      var t := PutTarget(before, addr, len, 0);
      && m.valid == (tag in old(ctl.reqMatcher) && old(ctl.reqMatcher[tag].valid))
      && (t.None? ==> m.reqs == before && m.currReq == cur && ok)
      && (t.Some? ==> m.reqs == before[t.value := Fill(before[t.value], addr, data)])
      && (t.Some? && m.valid ==> (m.currReq.value, ok) == PrefixMatch(cur.value, m.reqs))
      && (t.Some? && !m.valid ==> m.currReq == cur && ok)
  {
    var m := ctl.MatcherFor(tag);
    ghost var before := m.reqs;
    ok := true;
    var i := 0;
    while i < |m.reqs|
      invariant 0 <= i <= |m.reqs| && m.reqs == before && ctl.Valid() && m.Valid()
      invariant PutTarget(before, addr, len, 0) == PutTarget(before, addr, len, i)
      decreases |m.reqs| - i
    {
      var req := m.reqs[i];
      if Complete(req) {
        break;
      }
      if Contains(req, addr, len) {
        m.reqs := m.reqs[i := Fill(req, addr, data)];
        ok := m.MatchAll();
        break;
      }
      i := i + 1;
    }
  }
}
