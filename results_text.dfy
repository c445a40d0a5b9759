// The Python string and list operations the result scripts rely on:
// `startswith`, `removesuffix('\r')`, slicing, `split(' ')`, `int()` and
// the search for the first line with a given prefix.
module PyText {
  import opened Arith
  import opened Wrappers
  import VtaSetup

  /** `s.startswith(prefix)` */
  predicate StartsWith(s: string, prefix: string) {
    prefix <= s
  }

  /** `s.removesuffix('\r')`: one trailing carriage return dropped. */
  function DropCR(s: string): (r: string)
    ensures s != [] && s[|s| - 1] == '\r' ==> r + "\r" == s
    ensures s == [] || s[|s| - 1] != '\r' ==> r == s
  {
    if s != [] && s[|s| - 1] == '\r' then s[..|s| - 1] else s
  }

  /** `xs[a:b]` for non-negative bounds: both clamped to the length, and
      empty when `a` is not below `b`. */
  function Slice<T>(xs: seq<T>, a: nat, b: nat): (r: seq<T>)
    ensures a < b <= |xs| ==> r == xs[a..b]
    ensures b <= a ==> r == []
    ensures |r| == Max(0, Min(b, |xs|) - a)
  {
    if b <= a || |xs| <= a then [] else xs[a..Min(b, |xs|)]
  }

  /** `''.join(parts)` */
  function Concat(parts: seq<string>): (r: string)
    ensures |parts| == 1 ==> r == parts[0]
  {
    if parts == [] then [] else parts[0] + Concat(parts[1..])
  }

  lemma {:induction false} ConcatAppend(a: seq<string>, b: seq<string>)
    ensures Concat(a + b) == Concat(a) + Concat(b)
    decreases |a|
  {
    if a == [] {
      assert a + b == b;
    } else {
      assert (a + b)[1..] == a[1..] + b;
      ConcatAppend(a[1..], b);
    }
  }

  /** The index of the first line at or after `from` that starts with
      `prefix`, if there is one. */
  function FirstIndex(lines: seq<string>, from: nat, prefix: string): (r: Option<nat>)
    ensures r.Some? ==> from <= r.value < |lines| && StartsWith(lines[r.value], prefix)
    ensures r.Some? ==> forall j :: from <= j < r.value ==> !StartsWith(lines[j], prefix)
    ensures r.None? ==> forall j :: from <= j < |lines| ==> !StartsWith(lines[j], prefix)
    decreases |lines| - from
  {
    if from >= |lines| then None
    else if StartsWith(lines[from], prefix) then Some(from)
    else FirstIndex(lines, from + 1, prefix)
  }

  /** A line that starts with `prefix`, with none before it from `from`
      on, is the one `FirstIndex` finds. */
  lemma FirstIndexAt(lines: seq<string>, from: nat, prefix: string, k: nat)
    requires from <= k < |lines| && StartsWith(lines[k], prefix)
    requires forall j :: from <= j < k ==> !StartsWith(lines[j], prefix)
    ensures FirstIndex(lines, from, prefix) == Some(k)
  {
  }

  /**
   * In lines laid out as `pre`, an opening line, two more, `data`, one
   * more and a closing line, the first opening line is the one after
   * `pre` and the first closing line from three lines after it is the
   * one after `data` and its follower, when `pre` has no opening line and
   * `data` and its follower no closing one.
   */
  lemma FindBlock(pre: seq<string>, open: string, skip: seq<string>, data: seq<string>, last: string,
                  close: string, tail: seq<string>, openPrefix: string, closePrefix: string)
    requires |skip| == 2 && StartsWith(open, openPrefix) && StartsWith(close, closePrefix)
    requires forall i :: 0 <= i < |pre| ==> !StartsWith(pre[i], openPrefix)
    requires forall i :: 0 <= i < |data| ==> !StartsWith(data[i], closePrefix)
    requires !StartsWith(last, closePrefix)
    ensures var out := pre + [open] + skip + data + [last, close] + tail;
      FirstIndex(out, 0, openPrefix) == Some(|pre|) &&
      FirstIndex(out, |pre| + 3, closePrefix) == Some(|pre| + 3 + |data| + 1) &&
      out[|pre|] == open &&
      Slice(out, |pre| + 3, |pre| + 3 + |data|) == data
  {
    var head := pre + [open] + skip;
    var body := data + [last, close] + tail;
    var out := head + body;
    assert out == pre + [open] + skip + data + [last, close] + tail;
    var b := |pre|;
    assert out[b] == open;
    forall j | 0 <= j < b
      ensures !StartsWith(out[j], openPrefix)
    {
      assert out[j] == pre[j];
    }
    FirstIndexAt(out, 0, openPrefix, b);
    var start := b + 3;
    var e := start + |data| + 1;
    assert out[e] == body[|data| + 1] == close;
    forall j | start <= j < e
      ensures !StartsWith(out[j], closePrefix)
    {
      assert out[j] == body[j - start];
      if j < e - 1 {
        assert body[j - start] == data[j - start];
      }
    }
    FirstIndexAt(out, start, closePrefix, e);
    assert out[start..e - 1] == data;
  }

  /** The `for i in range(from, len(lines))` loop that breaks at the
      first line starting with `prefix`. */
  method FirstFrom(lines: seq<string>, from: nat, prefix: string) returns (r: Option<nat>)
    ensures r == FirstIndex(lines, from, prefix)
  {
    var i := from;
    while i < |lines|
      invariant from <= i
      invariant FirstIndex(lines, from, prefix) == FirstIndex(lines, i, prefix)
      decreases |lines| - i
    {
      if StartsWith(lines[i], prefix) {
        return Some(i);
      }
      i := i + 1;
    }
    return None;
  }

  /** `s.split(' ')`: the pieces between single spaces, empty ones kept. */
  function Split(s: string): (r: seq<string>)
    ensures |r| >= 1
    decreases |s|
  {
    if s == [] then [[]]
    else
      var rest := Split(s[1..]);
      if s[0] == ' ' then [[]] + rest else [[s[0]] + rest[0]] + rest[1..]
  }

  function JoinSpaces(ps: seq<string>): string
    requires |ps| >= 1
  {
    if |ps| == 1 then ps[0] else ps[0] + " " + JoinSpaces(ps[1..])
  }

  /** The pieces join back to the string, and none holds a space. */
  lemma {:induction false} SplitJoin(s: string)
    ensures JoinSpaces(Split(s)) == s
    ensures forall k :: 0 <= k < |Split(s)| ==> ' ' !in Split(s)[k]
    decreases |s|
  {
    if s != [] {
      var rest := Split(s[1..]);
      SplitJoin(s[1..]);
      var r := Split(s);
      if s[0] == ' ' {
        assert r[1..] == rest;
        assert s == [] + " " + s[1..];
      } else {
        if |rest| == 1 {
          assert r == [[s[0]] + rest[0]];
        } else {
          assert r[1..] == rest[1..];
          assert JoinSpaces(rest) == rest[0] + " " + JoinSpaces(rest[1..]);
        }
        forall k | 0 <= k < |r|
          ensures ' ' !in r[k]
        {
          if k == 0 {
            assert ' ' !in rest[0];
          } else {
            assert r[k] == rest[k];
          }
        }
      }
    }
  }

  /** A string without a space is one piece. */
  lemma {:induction false} SplitNoSpace(s: string)
    requires ' ' !in s
    ensures Split(s) == [s]
    decreases |s|
  {
    if s != [] {
      SplitNoSpace(s[1..]);
      assert s == [s[0]] + s[1..];
    }
  }

  /** Splitting at a space splits the pieces on either side. */
  lemma {:induction false} SplitAppend(a: string, b: string)
    ensures Split(a + " " + b) == Split(a) + Split(b)
    decreases |a|
  {
    var s := a + " " + b;
    if a == [] {
      assert s[1..] == b;
    } else {
      assert s[1..] == a[1..] + " " + b;
      SplitAppend(a[1..], b);
      var rest := Split(a[1..]);
      assert Split(s[1..]) == rest + Split(b);
    }
  }

  /** Two spaces between a text and two words without spaces add the two
      words as pieces. */
  lemma SplitThree(a: string, x: string, y: string)
    requires ' ' !in x && ' ' !in y
    ensures Split(a + " " + x + " " + y) == Split(a) + [x, y]
  {
    SplitAppend(a + " " + x, y);
    SplitAppend(a, x);
    SplitNoSpace(x);
    SplitNoSpace(y);
  }

  /** Python's white space for `int()` in the ASCII range. */
  function Strip(s: string): (r: string)
    ensures |r| <= |s|
    ensures r != [] ==> !VtaSetup.IsSpace(r[0]) && !VtaSetup.IsSpace(r[|r| - 1])
    decreases |s|
  {
    if s == [] then []
    else if VtaSetup.IsSpace(s[0]) then Strip(s[1..])
    else if VtaSetup.IsSpace(s[|s| - 1]) then Strip(s[..|s| - 1])
    else s
  }

  predicate AllDigits(s: string) {
    forall i :: 0 <= i < |s| ==> VtaSetup.IsDigit(s[i])
  }

  /** `int(token)` on ASCII text: surrounding white space, an optional
      sign, then at least one digit and nothing else; anything else is
      `ValueError` (`None`) here. Python's `int()` also takes `_` between
      digits and strips a wider set of white space; such tokens are refused
      here. */
  function PyInt(tok: string): (r: Option<int>)
    ensures r.Some? ==> Strip(tok) != []
  {
    var t := Strip(tok);
    if t == [] then None
    else
      var sign := if t[0] == '-' then -1 else 1;
      var body := if t[0] == '-' || t[0] == '+' then t[1..] else t;
      if body != [] && AllDigits(body) then Some(sign * VtaSetup.DigitsValue(body)) else None
  }

  /** `int()` reads back a decimal number, with or without a trailing
      carriage return. */
  lemma PyIntDecimal(n: nat, cr: bool)
    ensures PyInt(VtaSetup.Decimal(n) + (if cr then "\r" else "")) == Some(n)
  {
    var d := VtaSetup.Decimal(n);
    var s := d + (if cr then "\r" else "");
    VtaSetup.DecimalValue(n);
    assert !VtaSetup.IsSpace(d[0]) && !VtaSetup.IsSpace(d[|d| - 1]);
    assert Strip(d) == d;
    if cr {
      assert s[0] == d[0] && s[..|s| - 1] == d;
    } else {
      assert s == d;
    }
    assert Strip(s) == d && AllDigits(d);
    assert d[0] != '-' && d[0] != '+';
  }

  /** A token without a digit is refused. */
  lemma PyIntNoDigitsFails(tok: string)
    requires forall i :: 0 <= i < |tok| ==> !VtaSetup.IsDigit(tok[i])
    ensures PyInt(tok) == None
  {
    var t := Strip(tok);
    StripIsInfix(tok);
    if t != [] {
      var body := if t[0] == '-' || t[0] == '+' then t[1..] else t;
      if body != [] {
        assert body[0] in tok;
      }
    }
  }

  /** What `Strip` keeps is a piece of the input. */
  lemma {:induction false} StripIsInfix(s: string)
    ensures forall c :: c in Strip(s) ==> c in s
    decreases |s|
  {
    if s != [] {
      if VtaSetup.IsSpace(s[0]) {
        StripIsInfix(s[1..]);
      } else if VtaSetup.IsSpace(s[|s| - 1]) {
        StripIsInfix(s[..|s| - 1]);
      }
    }
  }
}
