// The marker dispatch of the JPEG front end. The LPN driver
// (`UpdateLpnState` in `driver.hpp`) and the functional simulator
// (`jpeg_decode_funcsim` in `func_sim.cc`) walk the image a byte at a time
// and pick a segment from the byte pair `(last_b, b)` through the same
// `if`/`else if` chain; the driver has one more branch, for scan data once
// `mcu_start` is set.
module JpegSegments {
  import opened MemReqs
  import opened JpegFrame

  datatype Segment =
    | Soi | Sof0 | Dqt | Dht | Eoi | Sos | ScanData | Sof2 | Dri | Rst | App | Com
    | Plain  // no branch is taken; the byte is only remembered as `last_b`

  /** Whether `b` after `0xFF` is a marker one of the branches handles. */
  predicate KnownMarker(b: Byte) {
    b == 0xD8 || b == 0xC0 || b == 0xDB || b == 0xC4 || b == 0xD9 || b == 0xDA
    || b == 0xC2 || b == 0xDD || b == 0xFE || (0xD0 <= b <= 0xD7) || (0xE0 <= b <= 0xEF)
  }

  /** The branch taken for byte `b` after `lastB`; `inScan` is `mcu_start`.
      SOI, SOF0, DQT, DHT, EOI and SOS are recognised before the scan data, the
      other markers after it. */
  function SegmentOf(lastB: Byte, b: Byte, inScan: bool): (r: Segment)
    ensures !inScan ==> (r != Plain <==> lastB == 0xFF && KnownMarker(b))
    ensures inScan ==> r != Plain && (r == ScanData <==> !(lastB == 0xFF && b in [0xD8, 0xC0, 0xDB, 0xC4, 0xD9, 0xDA]))
    ensures r == Rst ==> lastB == 0xFF && 0xD0 <= b <= 0xD7
    ensures r == App ==> lastB == 0xFF && 0xE0 <= b <= 0xEF
  {
    if lastB == 0xFF && b == 0xD8 then Soi
    else if lastB == 0xFF && b == 0xC0 then Sof0
    else if lastB == 0xFF && b == 0xDB then Dqt
    else if lastB == 0xFF && b == 0xC4 then Dht
    else if lastB == 0xFF && b == 0xD9 then Eoi
    else if lastB == 0xFF && b == 0xDA then Sos
    else if inScan then ScanData
    else if lastB == 0xFF && b == 0xC2 then Sof2
    else if lastB == 0xFF && b == 0xDD then Dri
    else if lastB == 0xFF && 0xD0 <= b <= 0xD7 then Rst
    else if lastB == 0xFF && 0xE0 <= b <= 0xEF then App
    else if lastB == 0xFF && b == 0xFE then Com
    else Plain
  }

  /** The frame components of a SOF0 segment starting at `s` (at its length
      word): `nc` triples from `s + 8` on, of which the third byte, the
      quantisation table, is skipped. */
  function Sof0Comps(buf: seq<Byte>, s: nat, nc: nat): (r: seq<Component>)
    requires s + 8 + 3 * nc <= |buf|
    ensures |r| == nc
    ensures forall x :: 0 <= x < nc ==> r[x].id == buf[s + 8 + 3 * x] && r[x].sampling == buf[s + 9 + 3 * x]
  {
    seq(nc, x requires 0 <= x < nc => Component(buf[s + 8 + 3 * x], buf[s + 9 + 3 * x]))
  }

  /** The `SOF0` header fields. */
  function Sof0Height(buf: seq<Byte>, s: nat): nat
    requires s + 5 <= |buf|
  {
    Be16(buf[s + 3], buf[s + 4])
  }

  function Sof0Width(buf: seq<Byte>, s: nat): nat
    requires s + 7 <= |buf|
  {
    Be16(buf[s + 5], buf[s + 6])
  }

  /** The mode read off a SOF0 segment, in terms of its bytes: monochrome
      exactly for one component, 4:2:0 exactly for components 1, 2, 3 with
      sampling bytes `0x22`, `0x11`, `0x11`. */
  lemma Sof0Mode(buf: seq<Byte>, s: nat, nc: nat)
    requires s + 8 + 3 * nc <= |buf|
    ensures Classify(Sof0Comps(buf, s, nc)) == Monochrome <==> nc == 1
    ensures Classify(Sof0Comps(buf, s, nc)) == YCbCr420 <==>
      (&& nc == 3 && buf[s + 8] == 1 && buf[s + 11] == 2 && buf[s + 14] == 3
       && buf[s + 9] == 0x22 && buf[s + 12] == 0x11 && buf[s + 15] == 0x11)
  {
    ClassifyBytes(Sof0Comps(buf, s, nc));
  }
}
