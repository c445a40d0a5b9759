// `setup.hpp`: reading an instruction-status trace into tokens for the
// VTA net. Each line is stripped of spaces, split on commas, and its
// fields 1-14 become the fields of one instruction token.
module VtaSetup {
  import opened Arith
  import opened Wrappers
  import opened LpnEngine
  import opened VtaTokens

  /** The mnemonics `collect_insns` knows; `LoadAcc` has no name. */
  const NameDict: map<string, Kind> := map[
    "compute" := Compute, "load" := Load, "store" := Store, "inp" := Inp,
    "wgt" := Wgt, "gemm" := Gemm, "empty" := Empty, "alu" := Alu,
    "sync" := Sync, "finish" := Finish, "loadUop" := LoadUop]

  /** No name translates to `LoadAcc`, so a trace cannot ask for an accumulator load. */
  lemma NoLoadAccName()
    ensures forall k :: k in NameDict ==> NameDict[k] != LoadAcc
    ensures "loadAcc" !in NameDict
  {
  }

  /** `translate(dict, key, 1)`: a name lookup; a missing name aborts. */
  function TranslateName(key: string): (r: Result<Kind>)
    ensures r.Success? <==> key in NameDict
    ensures r.Success? ==> r.value == NameDict[key] && r.value != LoadAcc
  {
    if key in NameDict then Success(NameDict[key]) else Failure("name not found")
  }

  // C `atoi`, without its undefined behaviour on overflow.

  predicate IsSpace(c: char) {
    c == ' ' || c == '\t' || c == '\n' || c == '\r' || c as int == 12 || c as int == 11
  }

  predicate IsDigit(c: char) {
    '0' <= c <= '9'
  }

  /** The longest prefix of `s` made of decimal digits. */
  function LeadingDigits(s: string): (r: string)
    ensures r <= s && (forall i :: 0 <= i < |r| ==> IsDigit(r[i]))
    ensures |r| < |s| ==> !IsDigit(s[|r|])
  {
    if s == [] || !IsDigit(s[0]) then [] else [s[0]] + LeadingDigits(s[1..])
  }

  /** The value of a string of decimal digits, most significant first. */
  function DigitsValue(s: string): (r: nat)
    decreases |s|
  {
    if s == [] then 0
    else 10 * DigitsValue(s[..|s| - 1]) + (if IsDigit(s[|s| - 1]) then (s[|s| - 1] as int - '0' as int) else 0)
  }

  function SkipSpaces(s: string): (r: string)
    ensures |r| <= |s| && r == s[|s| - |r|..] && (r == [] || !IsSpace(r[0]))
  {
    if s != [] && IsSpace(s[0]) then SkipSpaces(s[1..]) else s
  }

  /** `atoi(key)`: leading white space, an optional sign, then digits; 0 without digits. */
  function Atoi(s: string): int {
    var t := SkipSpaces(s);
    if t != [] && t[0] == '-' then -(DigitsValue(LeadingDigits(t[1..])) as int)
    else if t != [] && t[0] == '+' then DigitsValue(LeadingDigits(t[1..]))
    else DigitsValue(LeadingDigits(t))
  }

  /** The decimal spelling of a natural number. */
  function Decimal(n: nat): (r: string)
    ensures |r| >= 1 && forall i :: 0 <= i < |r| ==> IsDigit(r[i])
  {
    var c := ('0' as int + n % 10) as char;
    if n < 10 then [c] else Decimal(n / 10) + [c]
  }

  lemma {:induction false} DecimalValue(n: nat)
    ensures DigitsValue(Decimal(n)) == n
    decreases n
  {
    var c := ('0' as int + n % 10) as char;
    var r := Decimal(n);
    if n < 10 {
      assert r == [c];
      assert r[..0] == [];
    } else {
      DecimalValue(n / 10);
      assert r[..|r| - 1] == Decimal(n / 10);
    }
  }

  lemma {:induction false} AllDigitsLeading(s: string)
    requires forall i :: 0 <= i < |s| ==> IsDigit(s[i])
    ensures LeadingDigits(s) == s
    decreases |s|
  {
    if s != [] {
      AllDigitsLeading(s[1..]);
    }
  }

  /** `atoi` reads back the decimal spelling of a non-negative field. */
  lemma AtoiDecimal(n: nat)
    ensures Atoi(Decimal(n)) == n
  {
    var d := Decimal(n);
    AllDigitsLeading(d);
    DecimalValue(n);
    assert IsDigit(d[0]);
    assert !IsSpace(d[0]) && d[0] != '-' && d[0] != '+';
    assert SkipSpaces(d) == d;
    assert Atoi(d) == DigitsValue(LeadingDigits(d));
  }

  /** ... and of a negative one. */
  lemma AtoiNegDecimal(n: nat)
    requires n > 0
    ensures Atoi("-" + Decimal(n)) == -(n as int)
  {
    var d := Decimal(n);
    var m := "-" + d;
    AllDigitsLeading(d);
    DecimalValue(n);
    assert m[0] == '-' && !IsSpace(m[0]);
    assert SkipSpaces(m) == m;
    assert m[1..] == d;
  }

  /** `translate(dict, key, t)` with `t != 1`. */
  function TranslateInt(key: string): int {
    Atoi(key)
  }

  /** `regex_replace(s, regex(" "), "")` */
  function RemoveSpaces(s: string): (r: string)
    ensures |r| <= |s| && ' ' !in r
  {
    if s == [] then []
    else (if s[0] == ' ' then [] else [s[0]]) + RemoveSpaces(s[1..])
  }

  lemma {:induction false} RemoveSpacesAppend(a: string, b: string)
    ensures RemoveSpaces(a + b) == RemoveSpaces(a) + RemoveSpaces(b)
    decreases |a|
  {
    if a != [] {
      assert (a + b)[1..] == a[1..] + b;
      RemoveSpacesAppend(a[1..], b);
    } else {
      assert a + b == b;
    }
  }

  /** A string without spaces is left as it is. */
  lemma {:induction false} RemoveSpacesNoSpace(s: string)
    requires ' ' !in s
    ensures RemoveSpaces(s) == s
    decreases |s|
  {
    if s != [] {
      RemoveSpacesNoSpace(s[1..]);
      assert s == [s[0]] + s[1..];
    }
  }

  /** Removing spaces twice is removing them once. */
  lemma RemoveSpacesIdempotent(s: string)
    ensures RemoveSpaces(RemoveSpaces(s)) == RemoveSpaces(s)
  {
    RemoveSpacesNoSpace(RemoveSpaces(s));
  }

  /** Removing spaces keeps every other character, each as often as before. */
  lemma {:induction false} RemoveSpacesCounts(s: string)
    ensures multiset(RemoveSpaces(s)) == multiset(s)[' ' := 0]
    decreases |s|
  {
    if s != [] {
      RemoveSpacesCounts(s[1..]);
      assert s == [s[0]] + s[1..];
      assert multiset(s) == multiset([s[0]]) + multiset(s[1..]);
    }
  }

  /** `compact.find(",", from)`: the first comma at or after `from`, or -1 for `npos`. */
  function FindComma(c: string, from: nat): (r: int)
    requires from <= |c|
    ensures r == -1 || (from <= r < |c| && c[r] == ',')
    ensures forall i :: from <= i < (if r == -1 then |c| else r) ==> c[i] != ','
    decreases |c| - from
  {
    if from == |c| then -1
    else if c[from] == ',' then from
    else FindComma(c, from + 1)
  }

  /** The fields of `c` from `from` on: the comma-separated pieces, with the last one cut by `substr(last, last+1)`. */
  function SplitFrom(c: string, from: nat): (r: seq<string>)
    requires from <= |c|
    ensures |r| >= 1
    decreases |c| - from
  {
    var n := FindComma(c, from);
    if n == -1 then [c[from..if |c| <= 2 * from + 1 then |c| else 2 * from + 1]]
    else [c[from..n]] + SplitFrom(c, n + 1)
  }

  /** The plain comma split of `c` from `from` on: the reference the line splitting is compared with. */
  function Pieces(c: string, from: nat): (r: seq<string>)
    requires from <= |c|
    ensures |r| >= 1
    decreases |c| - from
  {
    var n := FindComma(c, from);
    if n == -1 then [c[from..]] else [c[from..n]] + Pieces(c, n + 1)
  }

  function JoinCommas(ps: seq<string>): string
    requires |ps| >= 1
  {
    if |ps| == 1 then ps[0] else ps[0] + "," + JoinCommas(ps[1..])
  }

  /** The plain split joins back to the line. */
  lemma {:induction false} PiecesJoin(c: string, from: nat)
    requires from <= |c|
    ensures JoinCommas(Pieces(c, from)) == c[from..]
    decreases |c| - from
  {
    var n := FindComma(c, from);
    if n != -1 {
      var rest := Pieces(c, n + 1);
      PiecesJoin(c, n + 1);
      var ps := [c[from..n]] + rest;
      assert Pieces(c, from) == ps;
      assert ps[1..] == rest;
      assert "," == [c[n]];
      assert c[from..] == c[from..n] + [c[n]] + c[n + 1..];
    }
  }

  /** No piece of the plain split holds a comma. */
  lemma {:induction false} PiecesNoComma(c: string, from: nat)
    requires from <= |c|
    ensures forall k :: 0 <= k < |Pieces(c, from)| ==> ',' !in Pieces(c, from)[k]
    decreases |c| - from
  {
    var n := FindComma(c, from);
    var ps := Pieces(c, from);
    if n == -1 {
      assert forall i :: 0 <= i < |c[from..]| ==> c[from..][i] == c[from + i];
    } else {
      PiecesNoComma(c, n + 1);
      assert forall i :: 0 <= i < |c[from..n]| ==> c[from..n][i] == c[from + i];
      forall k | 0 <= k < |ps|
        ensures ',' !in ps[k]
      {
        if k > 0 {
          assert ps[k] == Pieces(c, n + 1)[k - 1];
        }
      }
    }
  }

  /** The split as written agrees with the plain split except that its last field keeps at most `last + 1` characters. */
  lemma {:induction false} SplitFromTruncatesLast(c: string, from: nat)
    requires from <= |c|
    ensures TruncatedSplit(SplitFrom(c, from), Pieces(c, from), LastStart(c, from))
    decreases |c| - from
  {
    var n := FindComma(c, from);
    if n == -1 {
      LastFieldTruncated(c, from);
    } else {
      SplitFromTruncatesLast(c, n + 1);
      SplitsAtComma(c, from);
      TruncatedCons(c[from..n], SplitFrom(c, n + 1), Pieces(c, n + 1), LastStart(c, n + 1));
    }
  }

  /** At a comma both splits take the field before it and go on after it. */
  lemma SplitsAtComma(c: string, from: nat)
    requires from <= |c| && FindComma(c, from) != -1
    ensures var n := FindComma(c, from);
      && SplitFrom(c, from) == [c[from..n]] + SplitFrom(c, n + 1)
      && Pieces(c, from) == [c[from..n]] + Pieces(c, n + 1)
      && LastStart(c, from) == LastStart(c, n + 1)
  {
  }

  /** Without a further comma the one field left keeps at most `from + 1` characters. */
  lemma LastFieldTruncated(c: string, from: nat)
    requires from <= |c| && FindComma(c, from) == -1
    ensures TruncatedSplit(SplitFrom(c, from), Pieces(c, from), LastStart(c, from))
  {
    var end := if |c| <= 2 * from + 1 then |c| else 2 * from + 1;
    var x, y := c[from..end], c[from..];
    assert SplitFrom(c, from) == [x] && Pieces(c, from) == [y];
    assert LastStart(c, from) == from;
    assert x <= y && |x| == Min(|y|, from + 1);
  }

  /** `r` is the split `p` with its last field cut to at most `start + 1` characters. */
  ghost predicate TruncatedSplit(r: seq<string>, p: seq<string>, start: nat) {
    && |r| == |p| >= 1
    && (forall k :: 0 <= k < |r| - 1 ==> r[k] == p[k])
    && r[|r| - 1] <= p[|p| - 1]
    && |r[|r| - 1]| == Min(|p[|p| - 1]|, start + 1)
  }

  lemma TruncatedCons(x: string, r: seq<string>, p: seq<string>, start: nat)
    requires TruncatedSplit(r, p, start)
    ensures TruncatedSplit([x] + r, [x] + p, start)
  {
    var r2, p2 := [x] + r, [x] + p;
    assert r2[|r2| - 1] == r[|r| - 1] && p2[|p2| - 1] == p[|p| - 1];
    forall k | 0 <= k < |r2| - 1
      ensures r2[k] == p2[k]
    {
      if k > 0 {
        assert r2[k] == r[k - 1];
      }
    }
  }

  /** Where the last field of `c` starts, searching from `from`. */
  function LastStart(c: string, from: nat): (r: nat)
    requires from <= |c|
    ensures from <= r <= |c|
    decreases |c| - from
  {
    var n := FindComma(c, from);
    if n == -1 then from else LastStart(c, n + 1)
  }

  lemma SplitStep(c: string, last: nat, dict: seq<string>)
    requires last <= |c| && FindComma(c, last) != -1
    ensures dict + SplitFrom(c, last) == (dict + [c[last..FindComma(c, last)]]) + SplitFrom(c, FindComma(c, last) + 1)
  {
    var n := FindComma(c, last);
    var x, rest := c[last..n], SplitFrom(c, n + 1);
    assert SplitFrom(c, last) == [x] + rest;
    assert dict + ([x] + rest) == (dict + [x]) + rest;
  }

  /** The split loop of `collect_insns`. */
  method SplitLine(compact: string) returns (dict: seq<string>)
    ensures dict == SplitFrom(compact, 0)
  {
    dict := [];
    var last := 0;
    var next := FindComma(compact, last);
    while next != -1
      invariant 0 <= last <= |compact|
      invariant next == FindComma(compact, last)
      invariant dict + SplitFrom(compact, last) == SplitFrom(compact, 0)
      decreases |compact| - last
    {
      SplitStep(compact, last, dict);
      dict := dict + [compact[last..next]];
      last := next + 1;
      next := FindComma(compact, last);
    }
    var end := if |compact| <= 2 * last + 1 then |compact| else 2 * last + 1;
    dict := dict + [compact[last..end]];
  }

  /** The number of fields a line must have: field 14 is the last one read. */
  const NumFields: nat := 15

  /** One trace line as `collect_insns` turns it into an instruction token. */
  function ParseLine(line: string): Result<InsnFields>
  {
    var d := SplitFrom(RemoveSpaces(line), 0);
    if |d| < NumFields then Failure("too few fields")
    else
      var op := TranslateName(d[1]);
      var sub := TranslateName(d[2]);
      var ts := TranslateName(d[3]);
      if op.Failure? || sub.Failure? || ts.Failure? then Failure("name not found")
      else Success(InsnFields(op.value, sub.value, ts.value,
        TranslateInt(d[4]), TranslateInt(d[5]), TranslateInt(d[6]), TranslateInt(d[7]),
        TranslateInt(d[8]), TranslateInt(d[9]), TranslateInt(d[10]),
        TranslateInt(d[11]), TranslateInt(d[12]), TranslateInt(d[13]), TranslateInt(d[14])))
  }

  /** A line parses iff it has 15 fields whose fields 1-3 are known names; then fields 1-14 fill the token in order. */
  lemma ParseLineFields(line: string)
    ensures var r := ParseLine(line); var d := SplitFrom(RemoveSpaces(line), 0);
      && (r.Success? <==> |d| >= NumFields && d[1] in NameDict && d[2] in NameDict && d[3] in NameDict)
      && (r.Success? ==>
            && r.value.opcode == NameDict[d[1]] && r.value.subopcode == NameDict[d[2]] && r.value.tstype == NameDict[d[3]]
            && r.value.xsize == Atoi(d[4]) && r.value.ysize == Atoi(d[5])
            && r.value.uopBegin == Atoi(d[6]) && r.value.uopEnd == Atoi(d[7])
            && r.value.lp1 == Atoi(d[8]) && r.value.lp0 == Atoi(d[9])
            && r.value.useAluImm == Atoi(d[10])
            && r.value.popPrev == Atoi(d[11]) && r.value.popNext == Atoi(d[12])
            && r.value.pushPrev == Atoi(d[13]) && r.value.pushNext == Atoi(d[14]))
  {
  }

  /** The body of the `collect_insns` loop for one line: strip, split and translate. */
  method ReadLine(line: string) returns (r: Result<InsnFields>)
    ensures r == ParseLine(line)
  {
    var compact := RemoveSpaces(line);
    var dict := SplitLine(compact);
    if |dict| < NumFields {
      return Failure("too few fields");
    }
    var op := TranslateName(dict[1]);
    var sub := TranslateName(dict[2]);
    var ts := TranslateName(dict[3]);
    if op.Failure? || sub.Failure? || ts.Failure? {
      return Failure("name not found");
    }
    r := Success(InsnFields(op.value, sub.value, ts.value,
      TranslateInt(dict[4]), TranslateInt(dict[5]), TranslateInt(dict[6]), TranslateInt(dict[7]),
      TranslateInt(dict[8]), TranslateInt(dict[9]), TranslateInt(dict[10]),
      TranslateInt(dict[11]), TranslateInt(dict[12]), TranslateInt(dict[13]), TranslateInt(dict[14])));
  }

  /** The outcome of parsing each line, in file order. */
  function ParseAll(lines: seq<string>): (r: seq<Result<InsnFields>>)
    ensures |r| == |lines| && forall i :: 0 <= i < |lines| ==> r[i] == ParseLine(lines[i])
  {
    seq(|lines|, i requires 0 <= i < |lines| => ParseLine(lines[i]))
  }

  /** The tokens for the parsed lines `rs`, in order, up to the first line that aborts. */
  function Collect(rs: seq<Result<InsnFields>>): (r: (seq<Token<VtaTok>>, Option<nat>))
    ensures r.1.None? ==> |r.0| == |rs|
    ensures r.1.Some? ==> r.1.value == |r.0| < |rs| && rs[r.1.value].Failure?
    ensures forall i :: 0 <= i < |r.0| ==> rs[i].Success? && r.0[i] == Token(0, InsnTok(rs[i].value))
    decreases |rs|
  {
    if rs == [] then ([], None)
    else
      var rest := Collect(rs[..|rs| - 1]);
      var last := rs[|rs| - 1];
      if rest.1.Some? then rest
      else if last.Failure? then (rest.0, Some((|rs| - 1) as nat))
      else (rest.0 + [Token(0, InsnTok(last.value))], None)
  }

  /**
   * `collect_insns(tokens, file)` on the file's lines: one token with
   * timestamp 0 is appended per line, in file order; a line that names an
   * unknown mnemonic or has too few fields aborts, after the tokens of
   * the lines before it were appended.
   */
  method CollectInsns(tokens: seq<Token<VtaTok>>, lines: seq<string>) returns (out: seq<Token<VtaTok>>, failedAt: Option<nat>)
    ensures (out, failedAt) == (tokens + Collect(ParseAll(lines)).0, Collect(ParseAll(lines)).1)
  {
    ghost var rs := ParseAll(lines);
    var added: seq<Token<VtaTok>> := [];
    var i := 0;
    assert rs[..0] == [];
    while i < |lines|
      invariant 0 <= i <= |lines|
      invariant Collect(rs[..i]) == (added, None)
      decreases |lines| - i
    {
      var parsed := ReadLine(lines[i]);
      if parsed.Failure? {
        CollectedStops(rs, i);
        return tokens + added, Some(i);
      }
      CollectStep(rs, i);
      added := added + [Token(0, InsnTok(parsed.value))];
      i := i + 1;
    }
    assert rs[..i] == rs;
    return tokens + added, None;
  }

  /** A line that parses adds its token while no earlier line aborted. */
  lemma CollectStep(rs: seq<Result<InsnFields>>, i: nat)
    requires i < |rs| && Collect(rs[..i]).1.None? && rs[i].Success?
    ensures Collect(rs[..i + 1]) == (Collect(rs[..i]).0 + [Token(0, InsnTok(rs[i].value))], None)
  {
    assert rs[..i + 1][..i] == rs[..i];
  }

  /** Once a line aborts, no later line adds a token. */
  lemma {:induction false} CollectedStops(rs: seq<Result<InsnFields>>, i: nat)
    requires i < |rs| && Collect(rs[..i]).1.None? && rs[i].Failure?
    ensures Collect(rs) == (Collect(rs[..i]).0, Some(i))
    decreases |rs|
  {
    if i + 1 == |rs| {
      assert rs[..|rs| - 1] == rs[..i];
    } else {
      var front := rs[..|rs| - 1];
      assert front[..i] == rs[..i];
      CollectedStops(front, i);
    }
  }
}
