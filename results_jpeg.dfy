// The index logic of the JPEG result script: finding the base64 image
// dump between its begin and end markers in the simulated host's output,
// cleaning each of its lines, and turning the RGB565 pixels back into
// 8-bit channels. Base64 decoding and plotting are library calls and are
// not part of this model; it starts again from the decoded bytes.
module ResultsJpeg {
  import opened Arith
  import opened Wrappers
  import opened MemReqs
  import opened PyText
  import VtaSetup
  import JpegBm

  const BeginMarker: string := "image dump begin"
  const EndMarker: string := "image dump end"

  /** What the script gets out of the output: the picture's size and a
      payload, or the reason it stops. */
  datatype Extracted<P> =
    | Extracted(width: int, height: int, payload: P)
    | NoBegin
    | BadHeader
    | NoEnd

  /** Width and height, tokens 3 and 4 of the begin line; fewer tokens or
      tokens that are not numbers raise (`None`). */
  function Header(line: string): (r: Option<(int, int)>)
    ensures r.Some? ==> |Split(line)| >= 5
  {
    var parts := Split(line);
    if |parts| < 5 then None
    else
      match (PyInt(parts[3]), PyInt(parts[4]))
      case (Some(w), Some(h)) => Some((w, h))
      case _ => None
  }

  // ---------------------------------------------------------------------
  // `edit_line`

  /** The kernel notice the script cuts out, after its timestamp. */
  const Notice: string := "] random: crng init done"

  /** The end of the run of spaces that starts at `i`. */
  function SpacesFrom(s: string, i: nat): (k: nat)
    requires i <= |s|
    ensures i <= k <= |s| && (k < |s| ==> s[k] != ' ')
    decreases |s| - i
  {
    if i < |s| && s[i] == ' ' then SpacesFrom(s, i + 1) else i
  }

  /** The end of the run of decimal digits that starts at `i`. */
  function DigitsFrom(s: string, i: nat): (k: nat)
    requires i <= |s|
    ensures i <= k <= |s| && (k < |s| ==> !VtaSetup.IsDigit(s[k]))
    decreases |s| - i
  {
    if i < |s| && VtaSetup.IsDigit(s[i]) then DigitsFrom(s, i + 1) else i
  }

  /** Where `\[ *\d+(\.\d+)?` ends when it matches at the start of `s`:
      a bracket, the longest run of spaces, the longest run of digits and,
      if a dot and at least one digit follow, the longest run of digits
      after the dot. */
  function StampEnd(s: string): (r: Option<nat>)
    ensures r.Some? ==> 0 < r.value <= |s| && s[0] == '['
  {
    if s == [] || s[0] != '[' then None
    else
      var a := SpacesFrom(s, 1);
      var b := DigitsFrom(s, a);
      if b == a then None
      else if b < |s| && s[b] == '.' && DigitsFrom(s, b + 1) > b + 1 then Some(DigitsFrom(s, b + 1))
      else Some(b)
  }

  /**
   * The length of the match of `\[ *\d+(\.\d+)?\] random: crng init done`
   * at the start of `s`, if it matches there. No shorter run of spaces or
   * digits than the longest could let the rest match, so the longest runs
   * decide.
   */
  function MatchLen(s: string): (r: Option<nat>)
    ensures r.Some? ==> 0 < r.value <= |s| && s[0] == '['
  {
    match StampEnd(s)
    case None => None
    case Some(c) => if Notice <= s[c..] then Some(c + |Notice|) else None
  }

  /** `re.sub(pattern, '', s)`: every match, scanning left to right, is
      removed; the text after a match is scanned afresh. */
  function RemoveNotices(s: string): (r: string)
    ensures |r| <= |s|
    decreases |s|
  {
    if s == [] then []
    else
      match MatchLen(s)
      case Some(n) => RemoveNotices(s[n..])
      case None => [s[0]] + RemoveNotices(s[1..])
  }

  /** `edit_line`: one trailing carriage return dropped, then every kernel
      notice removed. */
  function EditLine(line: string): (r: string)
    ensures |r| <= |line|
  {
    RemoveNotices(DropCR(line))
  }

  /** A notice as the kernel prints it: a bracket, padding, the seconds,
      optionally a dot and the fraction, then the text. */
  predicate IsNotice(m: string, sp: string, secs: string, frac: string) {
    m == "[" + sp + secs + frac + Notice &&
    (forall i :: 0 <= i < |sp| ==> sp[i] == ' ') &&
    secs != [] && AllDigits(secs) &&
    (frac == [] || (frac[0] == '.' && |frac| > 1 && AllDigits(frac[1..])))
  }

  /** A run of spaces from `i` up to a non-space at `k` ends at `k`. */
  lemma {:induction false} SpacesFromOf(s: string, i: nat, k: nat)
    requires i <= k <= |s|
    requires forall j :: i <= j < k ==> s[j] == ' '
    requires k == |s| || s[k] != ' '
    ensures SpacesFrom(s, i) == k
    decreases k - i
  {
    if i < k {
      SpacesFromOf(s, i + 1, k);
    }
  }

  /** A run of digits from `i` up to a non-digit at `k` ends at `k`. */
  lemma {:induction false} DigitsFromOf(s: string, i: nat, k: nat)
    requires i <= k <= |s|
    requires forall j :: i <= j < k ==> VtaSetup.IsDigit(s[j])
    requires k == |s| || !VtaSetup.IsDigit(s[k])
    ensures DigitsFrom(s, i) == k
    decreases k - i
  {
    if i < k {
      DigitsFromOf(s, i + 1, k);
    }
  }

  /** A timestamp in brackets ends where its closing bracket starts. */
  lemma StampEndOf(sp: string, secs: string, frac: string, rest: string)
    requires forall i :: 0 <= i < |sp| ==> sp[i] == ' '
    requires secs != [] && AllDigits(secs)
    requires frac == [] || (frac[0] == '.' && |frac| > 1 && AllDigits(frac[1..]))
    requires rest != [] && rest[0] == ']'
    ensures StampEnd("[" + sp + secs + frac + rest) == Some(1 + |sp| + |secs| + |frac|)
  {
    var s := "[" + sp + secs + frac + rest;
    var a := 1 + |sp|;
    var b := a + |secs|;
    assert s[0] == '[';
    assert SpacesFrom(s, 1) == a by {
      forall j | 1 <= j < a
        ensures s[j] == ' '
      {
        assert s[j] == sp[j - 1];
      }
      assert s[a] == secs[0];
      SpacesFromOf(s, 1, a);
    }
    assert DigitsFrom(s, a) == b by {
      forall j | a <= j < b
        ensures VtaSetup.IsDigit(s[j])
      {
        assert s[j] == secs[j - a];
      }
      assert s[b] == (if frac == [] then rest[0] else frac[0]);
      DigitsFromOf(s, a, b);
    }
    if frac == [] {
      assert s[b] == ']';
    } else {
      var c := b + |frac|;
      assert s[b] == '.';
      assert DigitsFrom(s, b + 1) == c by {
        forall j | b + 1 <= j < c
          ensures VtaSetup.IsDigit(s[j])
        {
          assert s[j] == frac[j - b];
        }
        assert s[c] == rest[0];
        DigitsFromOf(s, b + 1, c);
      }
    }
  }

  /** A notice matches in full, whatever follows it. */
  lemma NoticeMatches(m: string, sp: string, secs: string, frac: string, y: string)
    requires IsNotice(m, sp, secs, frac)
    ensures MatchLen(m + y) == Some(|m|)
  {
    var head, tail := "[" + sp + secs + frac, Notice + y;
    AppendAssoc(head, Notice, y);
    assert tail[0] == Notice[0] == ']';
    StampEndOf(sp, secs, frac, tail);
    assert (m + y)[|head|..] == tail;
  }

  /** A first character other than a bracket starts no match and is kept. */
  lemma PlainCharKept(c: char, t: string, z: string)
    requires c != '['
    ensures RemoveNotices([c] + t + z) == [c] + RemoveNotices(t + z)
  {
    var s := [c] + t + z;
    assert s[0] == c && s[1..] == t + z;
    assert MatchLen(s).None?;
  }

  /** Text before a match that has no bracket is kept as it is. */
  lemma {:induction false} NoBracketKept(x: string, z: string)
    requires '[' !in x
    ensures RemoveNotices(x + z) == x + RemoveNotices(z)
    decreases |x|
  {
    if x == [] {
      assert x + z == z;
    } else {
      var c, t := x[0], x[1..];
      assert x == [c] + t;
      assert '[' !in t by {
        assert forall i :: 0 <= i < |t| ==> t[i] == x[i + 1];
      }
      NoBracketKept(t, z);
      PlainCharKept(c, t, z);
      AppendAssoc([c], t, RemoveNotices(z));
    }
  }

  /** A line of image data with a kernel notice spliced into it and a
      carriage return at its end gets back exactly its data. */
  lemma EditLineCutsNotice(x: string, m: string, sp: string, secs: string, frac: string, y: string)
    requires IsNotice(m, sp, secs, frac) && '[' !in x && '[' !in y
    ensures EditLine(x + m + y + "\r") == x + y
  {
    assert DropCR(x + m + y + "\r") == x + (m + y);
    NoBracketKept(x, m + y);
    NoticeMatches(m, sp, secs, frac, y);
    assert (m + y)[|m|..] == y;
    NoBracketKept(y, []);
    assert y + [] == y;
  }

  /** A line without a bracket (base64 text has none) loses only its
      carriage return. */
  lemma EditLineKeepsData(line: string)
    requires '[' !in line
    ensures EditLine(line) == DropCR(line)
  {
    var d := DropCR(line);
    assert forall c :: c in d ==> c in line;
    NoBracketKept(d, []);
    assert d + [] == d;
  }

  /** `list(map(edit_line, lines))` */
  function EditAll(lines: seq<string>): (r: seq<string>)
    ensures |r| == |lines|
  {
    if lines == [] then [] else [EditLine(lines[0])] + EditAll(lines[1..])
  }

  // ---------------------------------------------------------------------
  // Finding the dump

  /** The two searches and the header parse: the first begin line gives
      the size and `start_idx` (three lines further); the first end line
      at or after it, less one, is `end_idx`. */
  function Locate(stdout: seq<string>): (r: Extracted<(nat, nat)>)
    ensures r.NoBegin? <==> FirstIndex(stdout, 0, BeginMarker).None?
    ensures r.Extracted? ==> r.payload.0 <= r.payload.1 + 1 <= |stdout|
  {
    match FirstIndex(stdout, 0, BeginMarker)
    case None => NoBegin
    case Some(b) =>
      match Header(stdout[b])
      case None => BadHeader
      case Some(wh) =>
        match FirstIndex(stdout, b + 3, EndMarker)
        case None => NoEnd
        case Some(e) => Extracted(wh.0, wh.1, (b + 3, e - 1))
  }

  /** The script's outcome on `stdout`: the size and the cleaned lines
      between `start_idx` and `end_idx`. */
  function DumpOf(stdout: seq<string>): (r: Extracted<seq<string>>)
  {
    match Locate(stdout)
    case Extracted(w, h, (start, stop)) => Extracted(w, h, EditAll(Slice(stdout, start, stop)))
    case NoBegin => NoBegin
    case BadHeader => BadHeader
    case NoEnd => NoEnd
  }

  /** The script's two search loops and the header parse. */
  method LocateDump(stdout: seq<string>) returns (r: Extracted<(nat, nat)>)
    ensures r == Locate(stdout)
  {
    var b := FirstFrom(stdout, 0, BeginMarker);
    if b.None? {
      return NoBegin;
    }
    var header := Header(stdout[b.value]);
    if header.None? {
      return BadHeader;
    }
    var startIdx := b.value + 3;
    var e := FirstFrom(stdout, startIdx, EndMarker);
    if e.None? {
      return NoEnd;
    }
    return Extracted(header.value.0, header.value.1, (startIdx, e.value - 1));
  }

  /** The search, then `map(edit_line, ...)` over the lines found. */
  method ExtractDump(stdout: seq<string>) returns (r: Extracted<seq<string>>)
    ensures r == DumpOf(stdout)
  {
    var loc := LocateDump(stdout);
    match loc {
      case Extracted(w, h, (start, stop)) =>
        r := Extracted(w, h, EditAll(Slice(stdout, start, stop)));
      case NoBegin =>
        r := NoBegin;
      case BadHeader =>
        r := BadHeader;
      case NoEnd =>
        r := NoEnd;
    }
  }

  /** The begin line the workload echoes. */
  function BeginLine(w: nat, h: nat): string {
    BeginMarker + " " + VtaSetup.Decimal(w) + " " + VtaSetup.Decimal(h)
  }

  lemma DecimalNoSpace(n: nat)
    ensures ' ' !in VtaSetup.Decimal(n)
  {
    var d := VtaSetup.Decimal(n);
    assert forall i :: 0 <= i < |d| ==> VtaSetup.IsDigit(d[i]);
  }

  lemma MarkerSpelled()
    ensures BeginMarker == "image" + " " + "dump" + " " + "begin"
  {
  }

  /** The begin marker is three words. */
  lemma MarkerWords()
    ensures |Split(BeginMarker)| == 3
  {
    MarkerSpelled();
    SplitThree("image", "dump", "begin");
    SplitNoSpace("image");
  }

  /** The begin line reads back its width and height. */
  lemma HeaderOfBeginLine(w: nat, h: nat)
    ensures Header(BeginLine(w, h)) == Some((w, h))
  {
    var dw := VtaSetup.Decimal(w);
    var dh := VtaSetup.Decimal(h);
    var parts := Split(BeginLine(w, h));
    assert |parts| == 5 && parts[3] == dw && parts[4] == dh by {
      DecimalNoSpace(w);
      DecimalNoSpace(h);
      MarkerWords();
      SplitThree(BeginMarker, dw, dh);
    }
    assert PyInt(dw) == Some(w) by {
      PyIntDecimal(w, false);
      assert dw + "" == dw;
    }
    assert PyInt(dh) == Some(h) by {
      PyIntDecimal(h, false);
      assert dh + "" == dh;
    }
  }

  lemma BeginLineStarts(w: nat, h: nat)
    ensures StartsWith(BeginLine(w, h), BeginMarker)
  {
    var dw := VtaSetup.Decimal(w);
    var dh := VtaSetup.Decimal(h);
    assert BeginLine(w, h) == BeginMarker + (" " + dw + " " + dh);
  }

  /** Once the window is located, the payload is its lines cleaned. */
  lemma DumpOfLocated(out: seq<string>, w: int, h: int, start: nat, stop: nat, lines: seq<string>)
    requires Locate(out) == Extracted(w, h, (start, stop)) && Slice(out, start, stop) == lines
    ensures DumpOf(out) == Extracted(w, h, EditAll(lines))
  {
  }

  /**
   * A host output laid out as the workload prints it (earlier lines
   * without a begin marker, the begin line, two lines to skip, the data,
   * the echoed end command and the end line) yields the size and a window
   * holding exactly the data lines, provided no data line looks like the
   * end marker.
   */
  lemma LocateWorkloadOutput(pre: seq<string>, w: nat, h: nat, skip: seq<string>, data: seq<string>, echo: string, tail: seq<string>)
    requires |skip| == 2
    requires forall i :: 0 <= i < |pre| ==> !StartsWith(pre[i], BeginMarker)
    requires forall i :: 0 <= i < |data| ==> !StartsWith(data[i], EndMarker)
    requires !StartsWith(echo, EndMarker)
    ensures var out := pre + [BeginLine(w, h)] + skip + data + [echo, EndMarker] + tail;
      Locate(out) == Extracted(w, h, (|pre| + 3, |pre| + 3 + |data|)) &&
      Slice(out, |pre| + 3, |pre| + 3 + |data|) == data
  {
    BeginLineStarts(w, h);
    FindBlock(pre, BeginLine(w, h), skip, data, echo, EndMarker, tail, BeginMarker, EndMarker);
    HeaderOfBeginLine(w, h);
  }

  // ---------------------------------------------------------------------
  // Pixels

  /** The byte pairs of `bytes`, each read as a little-endian 16-bit
      value. */
  function Pairs(bytes: seq<Byte>): (r: seq<nat>)
    requires |bytes| % 2 == 0
    ensures |r| == |bytes| / 2
    ensures forall k :: 0 <= k < |r| ==> r[k] < U16
    decreases |bytes|
  {
    if bytes == [] then [] else [bytes[0] as nat + 256 * (bytes[1] as nat)] + Pairs(bytes[2..])
  }

  /** `np.frombuffer(bytes, dtype=np.uint16)` on a little-endian host; an
      odd number of bytes raises (`None`). */
  function Pixels(bytes: seq<Byte>): (r: Option<seq<nat>>)
    ensures r.Some? <==> |bytes| % 2 == 0
    ensures r.Some? ==> |r.value| == |bytes| / 2
  {
    if |bytes| % 2 != 0 then None else Some(Pairs(bytes))
  }

  /** Reading back the bytes the behavioural model writes gives its
      pixels. */
  lemma {:induction false} PixelsOfPixelBytes(px: seq<nat>)
    requires forall k :: 0 <= k < |px| ==> px[k] < U16
    ensures Pixels(JpegBm.PixelBytes(px)) == Some(px)
    decreases |px|
  {
    var bytes := JpegBm.PixelBytes(px);
    if px != [] {
      PixelsOfPixelBytes(px[1..]);
      assert bytes[2..] == JpegBm.PixelBytes(px[1..]);
      DivNat(px[0], 256);
      assert bytes[0] as nat + 256 * (bytes[1] as nat) == px[0];
      assert px == [px[0]] + px[1..];
    }
  }

  /** The unpacking of one pixel into channels 0, 1 and 2:
      `((p >> 11) & 0x1F) << 3`, `((p >> 5) & 0x3F) << 2` and
      `(p & 0x1F) << 3`. */
  function Unpack(p: nat): (c: (nat, nat, nat))
    ensures c.0 < 256 && c.1 < 256 && c.2 < 256
    ensures c.0 % 8 == 0 && c.1 % 4 == 0 && c.2 % 8 == 0
  {
    (((p / 2048) % 32) * 8, ((p / 32) % 64) * 4, (p % 32) * 8)
  }

  /** Unpacking the behavioural model's packing returns blue, green and
      red in channels 0, 1 and 2, each cut to its high bits. */
  lemma UnpackOfPack(r: Byte, g: Byte, b: Byte)
    ensures Unpack(JpegBm.Pack565(r, g, b)) == (b - b % 8, g - g % 4, r - r % 8)
  {
    var p := JpegBm.Pack565(r, g, b);
    assert p / 2048 < 32;
  }

  /** The channels of the pixel at row `y`, column `x` of a picture
      `width` pixels wide (black past the end of the pixels). */
  function PixelAt(px: seq<nat>, width: nat, y: nat, x: nat): (nat, nat, nat) {
    if y * width + x < |px| then Unpack(px[y * width + x]) else (0, 0, 0)
  }

  lemma CellInGrid(y: nat, x: nat, width: nat, height: nat)
    requires y < height && x < width
    ensures y * width + x < width * height
  {
    MulLe(y + 1, width, height, width);
  }

  /** In a picture with exactly `width * height` pixels every cell has
      its pixel. */
  lemma PixelAtInGrid(px: seq<nat>, width: nat, height: nat, y: nat, x: nat)
    requires |px| == width * height && y < height && x < width
    ensures y * width + x < |px| && PixelAt(px, width, y, x) == Unpack(px[y * width + x])
  {
    CellInGrid(y, x, width, height);
  }

  /**
   * The unpacking double loop: with exactly `width * height` pixels (the
   * script asserts it) and non-negative dimensions (`np.empty` refuses
   * others), row `y`, column `x` of the picture holds the channels of
   * pixel `y * width + x` (see `PixelAtInGrid`).
   */
  method UnpackImage(px: seq<nat>, width: int, height: int) returns (ok: bool, img: array2<(nat, nat, nat)>)
    ensures ok <==> |px| == width * height && width >= 0 && height >= 0
    ensures ok ==> img.Length0 == height && img.Length1 == width
    ensures ok ==> forall y, x :: 0 <= y < height && 0 <= x < width ==> img[y, x] == PixelAt(px, width, y, x)
  {
    if |px| != width * height || width < 0 || height < 0 {
      img := new (nat, nat, nat)[0, 0];
      return false, img;
    }
    img := new (nat, nat, nat)[height, width];
    var y := 0;
    while y < height
      invariant 0 <= y <= height
      invariant forall yy, x :: 0 <= yy < y && 0 <= x < width ==> img[yy, x] == PixelAt(px, width, yy, x)
    {
      var x := 0;
      while x < width
        invariant 0 <= x <= width
        invariant forall yy, xx :: 0 <= yy < y && 0 <= xx < width ==> img[yy, xx] == PixelAt(px, width, yy, xx)
        invariant forall xx :: 0 <= xx < x ==> img[y, xx] == PixelAt(px, width, y, xx)
      {
        CellInGrid(y, x, width, height);
        img[y, x] := Unpack(px[y * width + x]);
        assert img[y, x] == PixelAt(px, width, y, x);
        x := x + 1;
      }
      y := y + 1;
    }
    return true, img;
  }
}
