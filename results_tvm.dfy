// The index logic of the TVM detection result script: where the dumped
// inference image sits in a client's output, which simulations are
// clients, and the figures drawn for them in order.
module ResultsTvm {
  import opened Arith
  import opened Wrappers
  import opened PyText

  const StartMarker: string := "dump deploy_detection-infer-result.png START"
  const EndMarker: string := "dump deploy_detection-infer-result.png END"
  const ClientPrefix: string := "host.tvm_client."

  /** No line starts with both markers, so the `elif` never hides an END
      line behind a START line. */
  lemma MarkersExclusive(line: string)
    ensures StartsWith(line, StartMarker) ==> !StartsWith(line, EndMarker)
  {
    assert StartMarker[39] == 'S' && EndMarker[39] == 'E';
  }

  // ---------------------------------------------------------------------
  // The bounds of the dump

  /** The index of the last line below `k` that starts with `prefix`, if
      there is one. */
  function LastBelow(lines: seq<string>, k: nat, prefix: string): (r: Option<nat>)
    requires k <= |lines|
    ensures r.Some? ==> r.value < k && StartsWith(lines[r.value], prefix)
    ensures r.Some? ==> forall j :: r.value < j < k ==> !StartsWith(lines[j], prefix)
    ensures r.None? ==> forall j :: 0 <= j < k ==> !StartsWith(lines[j], prefix)
  {
    if k == 0 then None
    else if StartsWith(lines[k - 1], prefix) then Some(k - 1)
    else LastBelow(lines, k - 1, prefix)
  }

  /** A line below `k` that starts with `prefix`, with none after it below
      `k`, is the one `LastBelow` finds. */
  lemma {:induction false} LastBelowAt(lines: seq<string>, k: nat, prefix: string, s: nat)
    requires s < k <= |lines| && StartsWith(lines[s], prefix)
    requires forall j :: s < j < k ==> !StartsWith(lines[j], prefix)
    ensures LastBelow(lines, k, prefix) == Some(s)
    decreases k
  {
    if s < k - 1 {
      LastBelowAt(lines, k - 1, prefix, s);
    }
  }

  /**
   * The scan from line `i` on, `start` as the earlier lines left it: a
   * START line sets `start` to 2 past it, otherwise an END line stops the
   * scan with `end` one before it; at the end of the output `end` is
   * unset.
   */
  function ScanFrom(lines: seq<string>, i: nat, start: Option<nat>): (r: (Option<nat>, Option<int>))
    requires start.None? || 2 <= start.value <= i + 1
    ensures r.0.Some? && r.1.Some? ==> 0 <= r.1.value && r.0.value <= r.1.value + 2
    decreases |lines| - i
  {
    if i >= |lines| then (start, None)
    else if StartsWith(lines[i], StartMarker) then ScanFrom(lines, i + 1, Some(i + 2))
    else if StartsWith(lines[i], EndMarker) then (start, Some(i - 1))
    else ScanFrom(lines, i + 1, start)
  }

  /** `start` and `end` as the script's loop leaves them. */
  function Bounds(lines: seq<string>): (r: (Option<nat>, Option<int>))
    ensures r.0.Some? && r.1.Some? ==> 0 <= r.1.value && r.0.value <= r.1.value + 2
  {
    ScanFrom(lines, 0, None)
  }

  /** 2 past a line index, if there is one. */
  function After(s: Option<nat>): Option<nat> {
    if s.Some? then Some(s.value + 2) else None
  }

  /** The bounds stated by position: `end` is the index of the first END
      line less one; `start` is 2 past the last START line before it
      (before the end of the output when there is no END line). */
  function MarkedBounds(lines: seq<string>): (Option<nat>, Option<int>) {
    var e := FirstIndex(lines, 0, EndMarker);
    var limit := if e.Some? then e.value else |lines|;
    (After(LastBelow(lines, limit, StartMarker)), if e.Some? then Some(e.value - 1) else None)
  }

  /** The scan from a line before the first END line, with `start` 2 past
      the last START line before it, ends with the marked bounds. */
  lemma {:induction false} ScanFromMarked(lines: seq<string>, i: nat)
    requires i <= |lines|
    requires forall j :: 0 <= j < i ==> !StartsWith(lines[j], EndMarker)
    ensures After(LastBelow(lines, i, StartMarker)).None? || 2 <= After(LastBelow(lines, i, StartMarker)).value <= i + 1
    ensures ScanFrom(lines, i, After(LastBelow(lines, i, StartMarker))) == MarkedBounds(lines)
    decreases |lines| - i
  {
    if i < |lines| {
      if StartsWith(lines[i], StartMarker) {
        MarkersExclusive(lines[i]);
        ScanFromMarked(lines, i + 1);
      } else if StartsWith(lines[i], EndMarker) {
        FirstIndexAt(lines, 0, EndMarker, i);
      } else {
        ScanFromMarked(lines, i + 1);
      }
    }
  }

  /** The loop's bounds are the marked ones. */
  lemma BoundsMeaning(lines: seq<string>)
    ensures Bounds(lines) == MarkedBounds(lines)
  {
    ScanFromMarked(lines, 0);
  }

  /** What the two bounds mean line by line. */
  lemma BoundsAre(lines: seq<string>)
    ensures var (start, end) := Bounds(lines);
      (end.Some? ==> 0 <= end.value + 1 < |lines| && StartsWith(lines[end.value + 1], EndMarker) &&
                     forall j :: 0 <= j <= end.value ==> !StartsWith(lines[j], EndMarker)) &&
      (end.None? ==> forall j :: 0 <= j < |lines| ==> !StartsWith(lines[j], EndMarker)) &&
      (start.Some? ==> 2 <= start.value && start.value - 2 < |lines| &&
                       StartsWith(lines[start.value - 2], StartMarker) &&
                       (end.Some? ==> start.value - 2 <= end.value) &&
                       forall j :: start.value - 2 < j < |lines| && (end.None? || j <= end.value) ==>
                         !StartsWith(lines[j], StartMarker)) &&
      (start.None? ==> forall j :: 0 <= j < |lines| && (end.None? || j <= end.value) ==>
                         !StartsWith(lines[j], StartMarker))
  {
    BoundsMeaning(lines);
  }

  /** The scan runs up to a START line at `s` when no END line comes first. */
  lemma {:induction false} ScanToStart(lines: seq<string>, i: nat, s: nat, start: Option<nat>)
    requires i <= s < |lines| && StartsWith(lines[s], StartMarker)
    requires forall k :: i <= k < s ==> !StartsWith(lines[k], EndMarker)
    requires start.None? || 2 <= start.value <= i + 1
    ensures ScanFrom(lines, i, start) == ScanFrom(lines, s + 1, Some(s + 2))
    decreases s - i
  {
    if i < s {
      if StartsWith(lines[i], StartMarker) {
        ScanToStart(lines, i + 1, s, Some(i + 2));
      } else {
        ScanToStart(lines, i + 1, s, start);
      }
    }
  }

  /** The scan passes over lines that are neither START nor END lines. */
  lemma {:induction false} ScanSkip(lines: seq<string>, i: nat, j: nat, start: Option<nat>)
    requires i <= j <= |lines| && (start.None? || 2 <= start.value <= i + 1)
    requires forall k :: i <= k < j ==> !StartsWith(lines[k], StartMarker) && !StartsWith(lines[k], EndMarker)
    ensures ScanFrom(lines, i, start) == ScanFrom(lines, j, start)
    decreases j - i
  {
    if i < j {
      ScanSkip(lines, i + 1, j, start);
    }
  }

  /** The script's `for` loop: a START line sets `start`, otherwise an END
      line sets `end` and stops the scan. */
  method FindBounds(lines: seq<string>) returns (start: Option<nat>, end: Option<int>)
    ensures (start, end) == Bounds(lines)
  {
    start, end := None, None;
    var i := 0;
    while i < |lines|
      invariant i <= |lines| && (start.None? || 2 <= start.value <= i + 1)
      invariant ScanFrom(lines, i, start) == Bounds(lines)
    {
      if StartsWith(lines[i], StartMarker) {
        start := Some(i + 2);
      } else if StartsWith(lines[i], EndMarker) {
        end := Some(i - 1);
        return;
      }
      i := i + 1;
    }
  }

  // ---------------------------------------------------------------------
  // Extracting the payload

  /** `[line.removesuffix('\r') for line in lines]` */
  function DropCRs(lines: seq<string>): (r: seq<string>)
    ensures |r| == |lines|
    ensures forall i {:trigger r[i]} :: 0 <= i < |lines| ==> r[i] == DropCR(lines[i])
  {
    if lines == [] then [] else [DropCR(lines[0])] + DropCRs(lines[1..])
  }

  /** Lines each carrying a trailing carriage return. */
  function WithCRs(chunks: seq<string>): (r: seq<string>)
    ensures |r| == |chunks|
    ensures forall i :: 0 <= i < |chunks| ==> r[i] == chunks[i] + "\r"
  {
    if chunks == [] then [] else [chunks[0] + "\r"] + WithCRs(chunks[1..])
  }

  /** Removing the carriage returns gives back the chunks, whether or not
      the lines carried them. */
  lemma DropCRsOfLines(chunks: seq<string>)
    ensures DropCRs(WithCRs(chunks)) == chunks
    ensures (forall i :: 0 <= i < |chunks| ==> chunks[i] == [] || chunks[i][|chunks[i]| - 1] != '\r') ==>
      DropCRs(chunks) == chunks
  {
    var w := WithCRs(chunks);
    forall i | 0 <= i < |chunks|
      ensures DropCR(w[i]) == chunks[i]
    {
      assert w[i][..|w[i]| - 1] == chunks[i];
    }
  }

  /** What `extract_inference_result` ends with: the base64 text of the
      image, or the `RuntimeError` it raises. */
  datatype Extracted = Payload(b64: string) | NoStart | NoEnd

  /** The bounds, the slice `stdout[start:end]`, the carriage returns
      removed and the lines joined. */
  function Extract(stdout: seq<string>): Extracted {
    var (start, end) := Bounds(stdout);
    if start.None? then NoStart
    else if end.None? then NoEnd
    else Payload(Concat(DropCRs(Slice(stdout, start.value, end.value))))
  }

  /** The `RuntimeError` text for a failed extraction. */
  function Message(host: string, e: Extracted): string {
    if e.NoStart? then "Start for host " + host + " couldn't be found"
    else "End for host " + host + " couldn't be found"
  }

  /** `extract_inference_result` up to the base64 decoding. */
  method ExtractInferenceResult(stdout: seq<string>) returns (r: Extracted)
    ensures r == Extract(stdout)
  {
    var start, end := FindBounds(stdout);
    if start.None? {
      return NoStart;
    }
    if end.None? {
      return NoEnd;
    }
    var lines := Slice(stdout, start.value, end.value);
    lines := DropCRs(lines);
    return Payload(Concat(lines));
  }

  /** Extraction fails for a missing start exactly when there is no START
      line, or the first one comes after the first END line. */
  lemma NoStartIff(stdout: seq<string>)
    ensures var s, e := FirstIndex(stdout, 0, StartMarker), FirstIndex(stdout, 0, EndMarker);
      Extract(stdout) == NoStart <==> s.None? || (e.Some? && e.value < s.value)
  {
    BoundsMeaning(stdout);
    var s, e := FirstIndex(stdout, 0, StartMarker), FirstIndex(stdout, 0, EndMarker);
    var limit := if e.Some? then e.value else |stdout|;
    if s.Some? && e.Some? {
      MarkersExclusive(stdout[s.value]);
    }
    if s.Some? && s.value < limit {
      assert LastBelow(stdout, limit, StartMarker).Some?;
    }
  }

  /** Extraction fails for a missing end exactly when there is a START
      line and no END line. */
  lemma NoEndIff(stdout: seq<string>)
    ensures var s, e := FirstIndex(stdout, 0, StartMarker), FirstIndex(stdout, 0, EndMarker);
      Extract(stdout) == NoEnd <==> s.Some? && e.None?
  {
    BoundsMeaning(stdout);
    var s := FirstIndex(stdout, 0, StartMarker);
    if s.Some? && FirstIndex(stdout, 0, EndMarker).None? {
      assert LastBelow(stdout, |stdout|, StartMarker).Some?;
    }
  }

  /**
   * The dump as the workload prints it: a START line at `b` with no END
   * line before it, an END line at `e`, and neither marker on the lines in
   * between. The payload is `data`, the lines from 2 after `b` up to the
   * one before `e`, without carriage returns and joined.
   */
  lemma ExtractLayout(out: seq<string>, b: nat, e: nat, data: seq<string>)
    requires b < e < |out| && StartsWith(out[b], StartMarker)
    requires StartsWith(out[e], EndMarker)
    requires forall k :: 0 <= k < b ==> !StartsWith(out[k], EndMarker)
    requires forall k :: b < k < e ==> !StartsWith(out[k], StartMarker) && !StartsWith(out[k], EndMarker)
    requires Slice(out, b + 2, e - 1) == data
    ensures Extract(out) == Payload(Concat(DropCRs(data)))
  {
    MarkersExclusive(out[e]);
    ScanToStart(out, 0, b, None);
    ScanSkip(out, b + 1, e, Some(b + 2));
  }

  // ---------------------------------------------------------------------
  // Hosts and figures

  /** One entry of the experiment's `sims`: its name and its output lines. */
  datatype Sim = Sim(name: string, stdout: seq<string>)

  /** `[sim for sim in sims.keys() if sim.startswith("host.tvm_client.")]`,
      with each name's output alongside. */
  function TvmClients(sims: seq<Sim>): (r: seq<Sim>)
    ensures |r| <= |sims|
    ensures forall s :: s in r <==> s in sims && StartsWith(s.name, ClientPrefix)
  {
    if sims == [] then []
    else (if StartsWith(sims[0].name, ClientPrefix) then [sims[0]] else []) + TvmClients(sims[1..])
  }

  /** The selection keeps the order of the keys. */
  lemma {:induction false} TvmClientsAppend(a: seq<Sim>, b: seq<Sim>)
    ensures TvmClients(a + b) == TvmClients(a) + TvmClients(b)
    decreases |a|
  {
    if a == [] {
      assert a + b == b;
    } else {
      assert (a + b)[1..] == a[1..] + b;
      TvmClientsAppend(a[1..], b);
      AppendAssoc(if StartsWith(a[0].name, ClientPrefix) then [a[0]] else [], TvmClients(a[1..]), TvmClients(b));
    }
  }

  /** A figure: its number, its title and the image shown in it. */
  datatype Figure = Figure(number: int, title: string, image: string)

  function Title(host: string): string {
    "Inferred Image on Host " + host
  }

  /**
   * The figures drawn for `hosts` in order, numbered from `fig0`, and the
   * error that stops the loop at the first host whose extraction fails.
   */
  function Rendered(hosts: seq<Sim>, fig0: int): (r: (seq<Figure>, Option<string>))
    ensures |r.0| <= |hosts|
    ensures r.1.None? ==> |r.0| == |hosts|
    decreases |hosts|
  {
    if hosts == [] then ([], None)
    else
      var prev := Rendered(hosts[..|hosts| - 1], fig0);
      if prev.1.Some? then prev
      else
        var h := hosts[|hosts| - 1];
        match Extract(h.stdout)
        case Payload(img) => (prev.0 + [Figure(fig0 + |prev.0|, Title(h.name), img)], None)
        case _ => (prev.0, Some(Message(h.name, Extract(h.stdout))))
  }

  /** Figure `k` is the image of host `k`, numbered `fig0 + k` and titled
      with the host's name. */
  lemma {:induction false} RenderedFigure(hosts: seq<Sim>, fig0: int, k: nat)
    requires k < |Rendered(hosts, fig0).0|
    ensures Extract(hosts[k].stdout).Payload?
    ensures Rendered(hosts, fig0).0[k] == Figure(fig0 + k, Title(hosts[k].name), Extract(hosts[k].stdout).b64)
    decreases |hosts|
  {
    var front := hosts[..|hosts| - 1];
    var prev := Rendered(front, fig0);
    if k < |prev.0| {
      RenderedFigure(front, fig0, k);
      assert front[k] == hosts[k];
    }
  }

  /** The error is that of host number `|figures|`, the first whose
      extraction fails. */
  lemma {:induction false} RenderedError(hosts: seq<Sim>, fig0: int)
    requires Rendered(hosts, fig0).1.Some?
    ensures var r := Rendered(hosts, fig0);
      |r.0| < |hosts| && !Extract(hosts[|r.0|].stdout).Payload? &&
      r.1.value == Message(hosts[|r.0|].name, Extract(hosts[|r.0|].stdout))
    decreases |hosts|
  {
    var front := hosts[..|hosts| - 1];
    var prev := Rendered(front, fig0);
    if prev.1.Some? {
      RenderedError(front, fig0);
      assert front[|prev.0|] == hosts[|prev.0|];
    }
  }

  /** One more host: its figure is added, or its error stops the loop and
      the hosts after it change nothing. */
  lemma RenderedStep(hosts: seq<Sim>, fig0: int, i: nat, out: Extracted)
    requires i < |hosts| && Rendered(hosts[..i], fig0).1 == None && out == Extract(hosts[i].stdout)
    ensures var prev := Rendered(hosts[..i], fig0).0;
      out.Payload? ==> Rendered(hosts[..i + 1], fig0) == (prev + [Figure(fig0 + i, Title(hosts[i].name), out.b64)], None)
    ensures !out.Payload? ==> Rendered(hosts, fig0) == (Rendered(hosts[..i], fig0).0, Some(Message(hosts[i].name, out)))
  {
    assert hosts[..i + 1][..i] == hosts[..i];
    if !out.Payload? {
      RenderedAfterError(hosts, fig0, i + 1);
    }
  }

  /** Once a host has failed, later hosts change nothing. */
  lemma {:induction false} RenderedAfterError(hosts: seq<Sim>, fig0: int, i: nat)
    requires i <= |hosts| && Rendered(hosts[..i], fig0).1.Some?
    ensures Rendered(hosts, fig0) == Rendered(hosts[..i], fig0)
    decreases |hosts|
  {
    if i < |hosts| {
      var front := hosts[..|hosts| - 1];
      assert front[..i] == hosts[..i];
      RenderedAfterError(front, fig0, i);
    } else {
      assert hosts[..i] == hosts;
    }
  }

  /** The same loop read forwards, as `main` runs it: the hosts from `i`
      on, with `drawn` the figures already opened. */
  function RenderFrom(hosts: seq<Sim>, fig0: int, i: nat, drawn: seq<Figure>): (r: (seq<Figure>, Option<string>))
    requires i <= |hosts|
    ensures |drawn| <= |r.0| <= |drawn| + |hosts| - i
    decreases |hosts| - i
  {
    if i == |hosts| then (drawn, None)
    else
      match Extract(hosts[i].stdout)
      case Payload(img) => RenderFrom(hosts, fig0, i + 1, drawn + [Figure(fig0 + i, Title(hosts[i].name), img)])
      case _ => (drawn, Some(Message(hosts[i].name, Extract(hosts[i].stdout))))
  }

  /** One host forwards: its figure is added, or its error ends the loop. */
  lemma RenderFromStep(hosts: seq<Sim>, fig0: int, i: nat, drawn: seq<Figure>, out: Extracted)
    requires i < |hosts| && out == Extract(hosts[i].stdout)
    ensures out.Payload? ==>
      RenderFrom(hosts, fig0, i, drawn) == RenderFrom(hosts, fig0, i + 1, drawn + [Figure(fig0 + i, Title(hosts[i].name), out.b64)])
    ensures !out.Payload? ==> RenderFrom(hosts, fig0, i, drawn) == (drawn, Some(Message(hosts[i].name, out)))
  {
  }

  /** Run forwards from any point the backward reading reaches without an
      error, the loop ends as `Rendered` says. */
  lemma {:induction false} RenderFromRendered(hosts: seq<Sim>, fig0: int, i: nat)
    requires i <= |hosts| && Rendered(hosts[..i], fig0).1 == None
    ensures RenderFrom(hosts, fig0, i, Rendered(hosts[..i], fig0).0) == Rendered(hosts, fig0)
    decreases |hosts| - i
  {
    if i == |hosts| {
      assert hosts[..i] == hosts;
    } else {
      var out := Extract(hosts[i].stdout);
      RenderedStep(hosts, fig0, i, out);
      RenderFromStep(hosts, fig0, i, Rendered(hosts[..i], fig0).0, out);
      if out.Payload? {
        RenderFromRendered(hosts, fig0, i + 1);
      }
    }
  }

  /** The plotting state: the global `figure` counter and the figures
      opened so far. */
  class Plotter {
    var figure: int
    var figures: seq<Figure>

    /** `figure = 1` and no figure yet. */
    constructor ()
      ensures figure == 1 && figures == []
    {
      figure := 1;
      figures := [];
    }

    /** `render_result`: a new figure numbered `figure`, titled with the
        host, showing the image; the counter moves on. */
    method RenderResult(img: string, host: string)
      modifies this`figure, this`figures
      ensures figures == old(figures) + [Figure(old(figure), Title(host), img)]
      ensures figure == old(figure) + 1
    {
      figures := figures + [Figure(figure, Title(host), img)];
      figure := figure + 1;
    }
  }

  /** One round of the loop in `main`: extract the host's image and,
      when it is there, render it. */
  method ShowHost(p: Plotter, host: Sim) returns (out: Extracted)
    modifies p
    ensures out == Extract(host.stdout)
    ensures out.Payload? ==>
      p.figures == old(p.figures) + [Figure(old(p.figure), Title(host.name), out.b64)] && p.figure == old(p.figure) + 1
    ensures !out.Payload? ==> p.figures == old(p.figures) && p.figure == old(p.figure)
  {
    out := ExtractInferenceResult(host.stdout);
    if out.Payload? {
      p.RenderResult(out.b64, host.name);
    }
  }

  /** One pass of the `for host in hosts` loop, seen from the figures
      drawn since the loop began: `drawn` grows by the host's figure, or
      the loop stops with the host's message. */
  method RenderNext(p: Plotter, hosts: seq<Sim>, i: nat, ghost fig0: int, ghost figs0: seq<Figure>,
                    ghost drawn: seq<Figure>) returns (out: Extracted, ghost drawn': seq<Figure>)
    requires i < |hosts|
    requires p.figures == figs0 + drawn && p.figure == fig0 + i
    modifies p
    ensures out.Payload? ==> RenderFrom(hosts, fig0, i, drawn) == RenderFrom(hosts, fig0, i + 1, drawn')
    ensures !out.Payload? ==> RenderFrom(hosts, fig0, i, drawn) == (drawn, Some(Message(hosts[i].name, out)))
    ensures out.Payload? ==> p.figures == figs0 + drawn' && p.figure == fig0 + i + 1 && |drawn'| == |drawn| + 1
    ensures !out.Payload? ==> p.figures == figs0 + drawn && p.figure == fig0 + i && drawn' == drawn
  {
    ghost var before := p.figures;
    out := ShowHost(p, hosts[i]);
    RenderFromStep(hosts, fig0, i, drawn, out);
    drawn' := drawn;
    if out.Payload? {
      ghost var fig := Figure(fig0 + i, Title(hosts[i].name), out.b64);
      assert p.figures == before + [fig];
      AppendAssoc(figs0, drawn, [fig]);
      drawn' := drawn + [fig];
    }
  }

  /** The `for host in hosts` loop of `main`: extract and render each host
      in turn until one fails. */
  method RenderHosts(p: Plotter, hosts: seq<Sim>) returns (err: Option<string>)
    modifies p
    ensures var r := Rendered(hosts, old(p.figure));
      p.figures == old(p.figures) + r.0 && err == r.1 && p.figure == old(p.figure) + |r.0|
  {
    ghost var fig0, figs0 := p.figure, p.figures;
    var i := 0;
    ghost var drawn: seq<Figure> := [];
    assert hosts[..0] == [];
    RenderFromRendered(hosts, fig0, 0);
    while i < |hosts|
      invariant i <= |hosts|
      invariant RenderFrom(hosts, fig0, i, drawn) == Rendered(hosts, fig0)
      invariant p.figures == figs0 + drawn && p.figure == fig0 + i && |drawn| == i
    {
      var out;
      out, drawn := RenderNext(p, hosts, i, fig0, figs0, drawn);
      if !out.Payload? {
        err := Some(Message(hosts[i].name, out));
        assert Rendered(hosts, fig0) == (drawn, err);
        return;
      }
      i := i + 1;
    }
    assert Rendered(hosts, fig0) == (drawn, None);
    return None;
  }

  /** The body of `main` after loading the experiment: select the client
      hosts, then render them. */
  method ShowResults(p: Plotter, sims: seq<Sim>) returns (err: Option<string>)
    modifies p
    ensures var r := Rendered(TvmClients(sims), old(p.figure));
      p.figures == old(p.figures) + r.0 && err == r.1 && p.figure == old(p.figure) + |r.0|
  {
    var hosts := TvmClients(sims);
    err := RenderHosts(p, hosts);
  }
}
