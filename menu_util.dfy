/** The menu's string helpers (source/arm11/menu/menu_util.c). A C string is
    modelled by the characters before its terminating NUL; a buffer the C code
    edits in place is an `array<char>` that holds the NUL. */
module MenuUtil {
  import opened Types

  function Min(a: int, b: int): int
  {
    if a <= b then a else b
  }

  function Max(a: int, b: int): int
  {
    if a >= b then a else b
  }

  // ---------------------------------------------------------------------
  // mallocpyString

  /** mallocpyString: a fresh NUL-terminated copy of `str`, or null when
      malloc fails (`allocOk` is malloc's outcome). */
  method MallocCopy(str: string, allocOk: bool) returns (r: array?<char>)
    requires '\0' !in str
    ensures allocOk <==> r != null
    ensures r != null ==> fresh(r) && r[..] == str + ['\0']
  {
    if !allocOk {
      return null;
    }
    r := new char[|str| + 1](k requires 0 <= k < |str| + 1 => if k < |str| then str[k] else '\0');
  }

  // ---------------------------------------------------------------------
  // truncateString

  /** truncateString: what `dest` holds afterwards, or None when it is left
      untouched (a negative `nsize`, or a zero one: snprintf with size 0
      writes nothing). Up to 3 characters `orig` is cut to `nsize - 1`
      characters; a string that fits is copied whole; otherwise its middle is
      replaced by "..." so that exactly `nsize` characters remain, the first
      `tpos` of them (at most `nsize - 3`) taken from the start. */
  function TruncateString(orig: string, nsize: int, tpos: int): (r: Option<string>)
    requires tpos >= 0
    ensures r.None? <==> nsize <= 0
    ensures r.Some? ==> |r.value| <= nsize
    ensures 0 < nsize <= 3 ==> r.Some? && |r.value| == Min(nsize - 1, |orig|) && r.value == orig[..|r.value|]
    ensures nsize > 3 && nsize >= |orig| ==> r == Some(orig)
    ensures nsize > 3 && nsize < |orig| ==>
      var t := Min(tpos, nsize - 3);
      r.Some? && |r.value| == nsize &&
      r.value[..t] == orig[..t] && r.value[t..t + 3] == "..." &&
      r.value[t + 3..] == orig[|orig| - (nsize - 3 - t)..]
  {
    var osize := |orig|;
    if nsize < 0 then None
    else if nsize <= 3 then
      (if nsize == 0 then None else Some(orig[..Min(nsize - 1, osize)]))
    else if nsize >= osize then Some(orig)
    else
      var t := if tpos + 3 > nsize then nsize - 3 else tpos;
      Some(orig[..t] + "..." + orig[osize - (nsize - (3 + t))..])
  }

  /** Truncating to a size of more than 3 twice is truncating once: the first
      result already fits. */
  lemma TruncateIdempotent(orig: string, nsize: int, tpos: int)
    requires tpos >= 0 && nsize > 3
    ensures TruncateString(TruncateString(orig, nsize, tpos).value, nsize, tpos) == TruncateString(orig, nsize, tpos)
  {
  }

  // ---------------------------------------------------------------------
  // formatBytes

  /** The decimal digits of `n`, as `%llu` prints them. */
  function Decimal(n: nat): (s: string)
    ensures |s| >= 1
    ensures forall k :: 0 <= k < |s| ==> '0' <= s[k] <= '9'
    ensures n > 0 ==> s[0] != '0'
  {
    if n < 10 then [DigitChar(n)] else Decimal(n / 10) + [DigitChar(n % 10)]
  }

  function DigitChar(d: nat): (c: char)
    requires d < 10
    ensures '0' <= c <= '9'
  {
    ['0', '1', '2', '3', '4', '5', '6', '7', '8', '9'][d]
  }

  function DigitValue(c: char): nat
  {
    if '0' <= c <= '9' then c as int - '0' as int else 0
  }

  /** The number a string of decimal digits denotes. */
  function DecimalValue(s: string): nat
  {
    if |s| == 0 then 0 else 10 * DecimalValue(s[..|s| - 1]) + DigitValue(s[|s| - 1])
  }

  /** Printing a number in decimal loses nothing. */
  lemma {:induction false} DecimalRoundTrip(n: nat)
    ensures DecimalValue(Decimal(n)) == n
  {
    if n >= 10 {
      DecimalRoundTrip(n / 10);
      var s := Decimal(n);
      assert s[..|s| - 1] == Decimal(n / 10);
      assert DigitValue(s[|s| - 1]) == n % 10;
      assert n == 10 * (n / 10) + n % 10;
    } else {
      assert DigitValue(DigitChar(n)) == n;
    }
  }

  function Pow(b: nat, k: nat): (p: nat)
    requires b >= 1
    ensures p >= 1
  {
    if k == 0 then 1 else b * Pow(b, k - 1)
  }

  lemma {:induction false} PowAdd(b: nat, i: nat, j: nat)
    requires b >= 1
    ensures Pow(b, i + j) == Pow(b, i) * Pow(b, j)
  {
    if i > 0 {
      PowAdd(b, i - 1, j);
      var p := Pow(b, i - 1);
      var q := Pow(b, j);
      assert Pow(b, i + j) == b * (p * q);
      assert b * (p * q) == (b * p) * q;
    }
  }

  /** A number below 10^k has at most k digits. */
  lemma {:induction false} DecimalLength(n: nat, k: nat)
    requires k >= 1 && n < Pow(10, k)
    ensures |Decimal(n)| <= k
  {
    if n >= 10 {
      assert k >= 2;
      assert Pow(10, k) == 10 * Pow(10, k - 1);
      DecimalLength(n / 10, k - 1);
    }
  }

  const Units: seq<string> := ["  Byte", " kiB", " MiB", " GiB"]

  /** `bytes * 100` as the u64 multiplication computes it. */
  function Hundredths(bytes: U64): U64
  {
    (bytes * 100) % U64Modulus
  }

  /** `x` shifted right by 10 bits `k` times: the value in the k-th unit
      above bytes. */
  function Shifted(x: nat, k: nat): nat
  {
    if k == 0 then x else Shifted(x, k - 1) / 1024
  }

  /** The unit formatBytes picks for `bytes` of 1024 or more: the first of
      kiB and MiB in which the hundredths are below 1024 * 100, else GiB. */
  function UnitScale(bytes: U64): (scale: nat)
    ensures 1 <= scale <= 3
    ensures scale < 3 ==> Shifted(Hundredths(bytes), scale) < 1024 * 100
    ensures forall k :: 1 <= k < scale ==> Shifted(Hundredths(bytes), k) >= 1024 * 100
  {
    var h := Hundredths(bytes);
    if Shifted(h, 1) < 1024 * 100 then 1
    else if Shifted(h, 2) < 1024 * 100 then 2
    else 3
  }

  /** The text formatBytes writes: the count and "  Byte" below 1024,
      otherwise the value in the chosen unit with one truncated decimal. */
  function BytesText(bytes: U64): string
  {
    if bytes < 1024 then Decimal(bytes) + Units[0]
    else
      var scale := UnitScale(bytes);
      var v := Shifted(Hundredths(bytes), scale);
      Decimal(v / 100) + "." + Decimal(v % 100 / 10) + Units[scale]
  }

  lemma {:induction false} ShiftedBelow(x: nat, k: nat)
    ensures Shifted(x, k) <= x
  {
    if k > 0 {
      ShiftedBelow(x, k - 1);
    }
  }

  /** The text always fits formatBytes' 32-byte buffer with its NUL. */
  lemma BytesTextFits(bytes: U64)
    ensures |BytesText(bytes)| < 32
  {
    PowAdd(10, 10, 10);
    assert Pow(10, 10) == 10_000_000_000;
    if bytes < 1024 {
      DecimalLength(bytes, 20);
    } else {
      var scale := UnitScale(bytes);
      var v := Shifted(Hundredths(bytes), scale);
      ShiftedBelow(Hundredths(bytes), scale);
      DecimalLength(v / 100, 20);
      DecimalLength(v % 100 / 10, 20);
    }
  }

  /** Without wrap-around in `bytes * 100`, the printed value of 1024 bytes or
      more has an integer part of at least 1, and below 1024 unless it is in
      GiB. */
  lemma IntegerPartRange(bytes: U64)
    requires bytes >= 1024 && bytes * 100 < U64Modulus
    ensures var v := Shifted(Hundredths(bytes), UnitScale(bytes));
      v / 100 >= 1 && (UnitScale(bytes) < 3 ==> v / 100 < 1024)
  {
    var h := Hundredths(bytes);
    assert h == bytes * 100;
    var scale := UnitScale(bytes);
    if scale >= 2 {
      assert Shifted(h, scale - 1) >= 1024 * 100;
    }
  }

  /** The wrap-around of `bytes * 100`: a size just above 2^64 / 100 bytes
      is printed as "0.0 kiB". */
  lemma BytesTextWrapExample()
    ensures BytesText(184_467_440_737_095_517) == "0.0 kiB"
  {
    assert Hundredths(184_467_440_737_095_517) == 84;
  }

  /** formatBytes. */
  method FormatBytes(bytes: U64) returns (s: string)
    ensures s == BytesText(bytes)
    ensures |s| < 32
  {
    BytesTextFits(bytes);
    if bytes < 1024 {
      s := Decimal(bytes) + Units[0];
    } else {
      var scale := 1;
      var bytes100: nat := Hundredths(bytes) / 1024;
      while bytes100 >= 1024 * 100 && scale < 3
        invariant 1 <= scale <= 3
        invariant bytes100 == Shifted(Hundredths(bytes), scale)
        invariant forall k :: 1 <= k < scale ==> Shifted(Hundredths(bytes), k) >= 1024 * 100
        decreases 3 - scale
      {
        scale := scale + 1;
        bytes100 := bytes100 / 1024;
      }
      s := Decimal(bytes100 / 100) + "." + Decimal(bytes100 % 100 / 10) + Units[scale];
    }
  }

  // ---------------------------------------------------------------------
  // keysToString

  /** The button names of HID bits 0 to 11. */
  const KeyNames: seq<string> := ["A", "B", "SELECT", "START", "RIGHT", "LEFT", "UP", "DOWN", "R", "L", "X", "Y"]

  predicate Pressed(keys: bv32, i: nat)
    requires i < 32
  {
    keys & (1 << i) != 0
  }

  /** The names of the pressed buttons among bits 0 to n-1, in bit order. */
  function PressedNames(keys: bv32, n: nat): seq<string>
    requires n <= 12
  {
    if n == 0 then []
    else PressedNames(keys, n - 1) + (if Pressed(keys, n - 1) then [KeyNames[n - 1]] else [])
  }

  /** "[a]+[b]+...". */
  function Joined(names: seq<string>): string
  {
    if |names| == 0 then ""
    else Joined(names[..|names| - 1]) + (if |names| > 1 then "+" else "") + "[" + names[|names| - 1] + "]"
  }

  /** The text keysToString writes for `keys`. */
  function KeysText(keys: bv32): string
  {
    var names := PressedNames(keys, 12);
    if |names| == 0 then "(no buttons)" else Joined(names)
  }

  /** keysToString. */
  method KeysToString(keys: bv32) returns (s: string)
    ensures s == KeysText(keys)
  {
    s := "";
    var first := true;
    for i := 0 to 12
      invariant s == Joined(PressedNames(keys, i))
      invariant first <==> |PressedNames(keys, i)| == 0
    {
      JoinedStep(keys, i);
      if keys & (1 << i) != 0 {
        s := s + (if first then "" else "+") + "[" + KeyNames[i] + "]";
        first := false;
      }
    }
    if first {
      s := s + "(no buttons)";
    }
  }

  /** One more bit examined adds "[name]", after a "+" unless it is the first. */
  lemma JoinedStep(keys: bv32, i: nat)
    requires i < 12
    ensures !Pressed(keys, i) ==> Joined(PressedNames(keys, i + 1)) == Joined(PressedNames(keys, i))
    ensures Pressed(keys, i) ==>
      Joined(PressedNames(keys, i + 1)) ==
      Joined(PressedNames(keys, i)) + (if |PressedNames(keys, i)| == 0 then "" else "+") + "[" + KeyNames[i] + "]"
    ensures |PressedNames(keys, i + 1)| == |PressedNames(keys, i)| + (if Pressed(keys, i) then 1 else 0)
  {
    var names := PressedNames(keys, i + 1);
    if Pressed(keys, i) {
      assert names[..|names| - 1] == PressedNames(keys, i);
    } else {
      assert names == PressedNames(keys, i);
    }
  }

  lemma {:induction false} PressedNamesLow(keys: bv32, n: nat)
    requires n <= 12
    ensures PressedNames(keys, n) == PressedNames(keys & 0xFFF, n)
  {
    if n > 0 {
      PressedNamesLow(keys, n - 1);
      var b: bv32 := 1 << (n - 1);
      assert b & 0xFFF == b by {
        assert n - 1 < 12;
      }
      assert (keys & 0xFFF) & b == keys & b;
    }
  }

  /** Bits 12 and above do not show. */
  lemma HighBitsIgnored(keys: bv32)
    ensures KeysText(keys) == KeysText(keys & 0xFFF)
  {
    PressedNamesLow(keys, 12);
  }

  lemma {:induction false} NoPressedNames(keys: bv32, n: nat)
    requires n <= 12
    ensures |PressedNames(keys, n)| == 0 <==> forall i :: 0 <= i < n ==> !Pressed(keys, i)
  {
    if n > 0 {
      NoPressedNames(keys, n - 1);
    }
  }

  /** "(no buttons)" is written exactly when none of bits 0 to 11 is set. */
  lemma NoButtonsIff(keys: bv32)
    ensures KeysText(keys) == "(no buttons)" <==> forall i :: 0 <= i < 12 ==> !Pressed(keys, i)
  {
    NoPressedNames(keys, 12);
    var names := PressedNames(keys, 12);
    if |names| > 0 {
      var s := Joined(names);
      assert s[|s| - 1] == ']';
    }
  }

  // ---------------------------------------------------------------------
  // stringGetHeight and stringGetWidth

  /** strchr(s + from, '\n'): the index of the first newline at or after
      `from`, or -1. */
  function FindNewline(s: string, from: nat): (r: int)
    requires from <= |s|
    ensures r >= -1
    ensures r == -1 ==> '\n' !in s[from..]
    ensures r >= 0 ==> from <= r < |s| && s[r] == '\n' && '\n' !in s[from..r]
    decreases |s| - from
  {
    if from == |s| then -1
    else if s[from] == '\n' then from
    else FindNewline(s, from + 1)
  }

  /** The index of the last newline in `s`, or -1. */
  function LastNewline(s: string): (j: int)
    ensures -1 <= j < |s|
    ensures j >= 0 ==> s[j] == '\n'
    ensures forall k :: j < k < |s| ==> s[k] != '\n'
  {
    if |s| == 0 then -1
    else if s[|s| - 1] == '\n' then |s| - 1
    else LastNewline(s[..|s| - 1])
  }

  /** The lines of `s`: the pieces between its newlines. */
  function Lines(s: string): (ls: seq<string>)
    ensures |ls| >= 1
    decreases |s|
  {
    var j := LastNewline(s);
    if j < 0 then [s] else Lines(s[..j]) + [s[j + 1..]]
  }

  lemma LastNewlineIs(s: string, j: nat)
    requires j < |s| && s[j] == '\n' && '\n' !in s[j + 1..]
    ensures LastNewline(s) == j
  {
  }

  /** Cutting before a newline adds the piece after the previous one as a line. */
  lemma LinesExtend(s: string, prev: int, lf: nat)
    requires lf <= |s|
    requires -1 <= prev < lf && (prev >= 0 ==> s[prev] == '\n')
    requires '\n' !in s[prev + 1..lf]
    ensures prev < 0 ==> Lines(s[..lf]) == [s[..lf]]
    ensures prev >= 0 ==> Lines(s[..lf]) == Lines(s[..prev]) + [s[prev + 1..lf]]
  {
    var t := s[..lf];
    if prev < 0 {
      assert t == s[prev + 1..lf];
    } else {
      assert t[prev + 1..] == s[prev + 1..lf];
      LastNewlineIs(t, prev);
      assert t[..prev] == s[..prev];
    }
  }

  /** stringGetHeight: one more than the number of newlines. */
  method StringGetHeight(s: string) returns (height: nat)
    ensures height == 1 + multiset(s)['\n']
  {
    height := 1;
    var lf := FindNewline(s, 0);
    while lf != -1
      invariant -1 <= lf < |s|
      invariant lf == -1 ==> height == 1 + multiset(s)['\n']
      invariant lf >= 0 ==> s[lf] == '\n' && height == 1 + multiset(s[..lf])['\n']
      decreases if lf < 0 then 0 else |s| + 1 - lf
    {
      var next := FindNewline(s, lf + 1);
      if next == -1 {
        assert s == s[..lf] + [s[lf]] + s[lf + 1..];
      } else {
        assert s[..next] == s[..lf] + [s[lf]] + s[lf + 1..next];
      }
      height := height + 1;
      lf := next;
    }
    assert lf == -1;
  }

  /** The height is the number of lines. */
  lemma {:induction false} HeightIsLineCount(s: string)
    ensures |Lines(s)| == 1 + multiset(s)['\n']
    decreases |s|
  {
    var j := LastNewline(s);
    if j >= 0 {
      HeightIsLineCount(s[..j]);
      assert s == s[..j] + [s[j]] + s[j + 1..];
      assert multiset(s[j + 1..])['\n'] == 0;
    } else {
      assert '\n' !in multiset(s);
    }
  }

  /** The widest line. */
  function Widest(ls: seq<string>): nat
    requires |ls| >= 1
  {
    if |ls| == 1 then |ls[0]| else Max(Widest(ls[..|ls| - 1]), |ls[|ls| - 1]|)
  }

  lemma WidestSnoc(ls: seq<string>, x: string)
    requires |ls| >= 1
    ensures Widest(ls + [x]) == Max(Widest(ls), |x|)
  {
    assert (ls + [x])[..|ls|] == ls;
  }

  /** Widest is the length of the longest line: every line fits in it and
      some line reaches it. */
  lemma {:induction false} WidestIsLongest(ls: seq<string>)
    requires |ls| >= 1
    ensures forall k :: 0 <= k < |ls| ==> |ls[k]| <= Widest(ls)
    ensures exists k :: 0 <= k < |ls| && |ls[k]| == Widest(ls)
  {
    if |ls| > 1 {
      var init := ls[..|ls| - 1];
      WidestIsLongest(init);
      assert forall k :: 0 <= k < |ls| - 1 ==> init[k] == ls[k];
      if Widest(ls) == |ls[|ls| - 1]| {
        assert |ls[|ls| - 1]| == Widest(ls);
      } else {
        var k :| 0 <= k < |init| && |init[k]| == Widest(init);
        assert |ls[k]| == Widest(ls);
      }
    } else {
      assert |ls[0]| == Widest(ls);
    }
  }

  /** What stringGetWidth measures: the first line's length, and each later
      line's length plus one, since its segment is counted from the newline
      before it. */
  function MeasuredWidth(ls: seq<string>): (w: nat)
    requires |ls| >= 1
    ensures |ls[0]| <= w
    ensures forall k :: 1 <= k < |ls| ==> |ls[k]| + 1 <= w
  {
    if |ls| == 1 then |ls[0]|
    else
      var w := Max(MeasuredWidth(ls[..|ls| - 1]), |ls[|ls| - 1]| + 1);
      assert forall k :: 0 <= k < |ls| - 1 ==> ls[..|ls| - 1][k] == ls[k];
      w
  }

  /** The line ending at `lf`, after the newline at `prev`, widens the
      measured width to its segment `lf - prev`, newline included. */
  lemma MeasuredStep(s: string, prev: nat, lf: nat)
    requires prev < lf <= |s| && (lf == |s| || s[lf] == '\n') && s[prev] == '\n'
    requires '\n' !in s[prev + 1..lf]
    ensures MeasuredWidth(Lines(s[..lf])) == Max(MeasuredWidth(Lines(s[..prev])), lf - prev)
  {
    LinesExtend(s, prev, lf);
    var ls := Lines(s[..prev]) + [s[prev + 1..lf]];
    assert ls[..|ls| - 1] == Lines(s[..prev]);
  }

  /** The same step for the widest line: the new line is `lf - prev - 1` wide. */
  lemma WidestStep(s: string, prev: nat, lf: nat)
    requires prev < lf <= |s| && (lf == |s| || s[lf] == '\n') && s[prev] == '\n'
    requires '\n' !in s[prev + 1..lf]
    ensures Widest(Lines(s[..lf])) == Max(Widest(Lines(s[..prev])), lf - prev - 1)
  {
    LinesExtend(s, prev, lf);
    WidestSnoc(Lines(s[..prev]), s[prev + 1..lf]);
  }

  /** Before the first newline there is one line, `lf` wide by either measure. */
  lemma FirstLineWidth(s: string, lf: nat)
    requires lf <= |s| && (lf == |s| || s[lf] == '\n') && '\n' !in s[..lf]
    ensures MeasuredWidth(Lines(s[..lf])) == lf == Widest(Lines(s[..lf]))
  {
    LinesExtend(s, -1, lf);
  }

  /** stringGetWidth as written. */
  method StringGetWidth(s: string) returns (width: nat)
    ensures width == MeasuredWidth(Lines(s))
  {
    width := 0;
    var oldLf := 0;
    ghost var first := true;
    var lf := FindNewline(s, 0);
    while lf != -1
      invariant -1 <= lf < |s| && 0 <= oldLf <= |s|
      invariant first ==> oldLf == 0 && width == 0
      invariant first && lf == -1 ==> '\n' !in s
      invariant first && lf >= 0 ==> s[lf] == '\n' && '\n' !in s[..lf]
      invariant !first ==> oldLf < |s| && s[oldLf] == '\n' && width == MeasuredWidth(Lines(s[..oldLf]))
      invariant !first && lf == -1 ==> '\n' !in s[oldLf + 1..]
      invariant !first && lf >= 0 ==> oldLf < lf && s[lf] == '\n' && '\n' !in s[oldLf + 1..lf]
      decreases if lf < 0 then 0 else |s| + 1 - lf
    {
      if first {
        FirstLineWidth(s, lf);
      } else {
        MeasuredStep(s, oldLf, lf);
      }
      if lf - oldLf > width {
        width := lf - oldLf;
      }
      oldLf := lf;
      first := false;
      lf := FindNewline(s, lf + 1);
    }
    assert s[..|s|] == s;
    if first {
      FirstLineWidth(s, |s|);
    } else {
      MeasuredStep(s, oldLf, |s|);
    }
    if |s| - oldLf > width {
      width := |s| - oldLf;
    }
  }

  /** The example that shows the extra column: "a\nb" is measured 2 wide
      although no line is wider than 1. */
  lemma WidthOvercountExample()
    ensures Lines("a\nb") == ["a", "b"]
    ensures MeasuredWidth(Lines("a\nb")) == 2 && Widest(Lines("a\nb")) == 1
  {
    LastNewlineIs("a\nb", 1);
    assert "a\nb"[..1] == "a";
    assert LastNewline("a") == -1;
  }

  /** stringGetWidth with each segment measured from the character after
      the newline: the width of the widest line. */
  method StringGetWidthCorrected(s: string) returns (width: nat)
    ensures width == Widest(Lines(s))
  {
    width := 0;
    var start := 0;
    ghost var first := true;
    ghost var prevLf: nat := 0;
    var lf := FindNewline(s, 0);
    while lf != -1
      invariant -1 <= lf < |s| && 0 <= start <= |s|
      invariant first ==> start == 0 && width == 0
      invariant first && lf == -1 ==> '\n' !in s
      invariant first && lf >= 0 ==> s[lf] == '\n' && '\n' !in s[..lf]
      invariant !first ==> prevLf < |s| && start == prevLf + 1 && s[prevLf] == '\n' && width == Widest(Lines(s[..prevLf]))
      invariant !first && lf == -1 ==> '\n' !in s[start..]
      invariant !first && lf >= 0 ==> start <= lf && s[lf] == '\n' && '\n' !in s[start..lf]
      decreases if lf < 0 then 0 else |s| + 1 - lf
    {
      if first {
        FirstLineWidth(s, lf);
      } else {
        WidestStep(s, prevLf, lf);
      }
      if lf - start > width {
        width := lf - start;
      }
      start := lf + 1;
      prevLf := lf;
      first := false;
      lf := FindNewline(s, lf + 1);
    }
    assert s[..|s|] == s;
    if first {
      FirstLineWidth(s, |s|);
    } else {
      WidestStep(s, prevLf, |s|);
    }
    if |s| - start > width {
      width := |s| - start;
    }
  }

  /** A single line is measured exactly, as a newline-free string's strlen. */
  lemma WidthOfOneLine(s: string)
    requires '\n' !in s
    ensures MeasuredWidth(Lines(s)) == |s| == Widest(Lines(s))
  {
  }

  // ---------------------------------------------------------------------
  // stringWordWrap

  /** The NUL-terminated string held in `a` starts at index 0 and ends at `n`. */
  ghost predicate TerminatedAt(a: array<char>, n: nat)
    reads a
  {
    n < a.Length && a[n] == '\0' && '\0' !in a[..n]
  }

  /** `after` differs from `before` only where a space became a newline. */
  predicate SpacesToNewlines(before: seq<char>, after: seq<char>)
  {
    |before| == |after| &&
    forall k :: 0 <= k < |before| ==> after[k] == before[k] || (before[k] == ' ' && after[k] == '\n')
  }

  /** A line the wrapper may leave: shorter than `llen`, or a single word
      with no space to break it at. */
  predicate LineFits(l: string, llen: int)
  {
    |l| < llen || ' ' !in l
  }

  /* The proofs about the wrapper work on positions of one buffer rather
     than on slices of it: `NewlineBefore(s, m)` is the last newline before
     `m`, `FitsBetween(s, lo, hi)` says the characters in [lo, hi) make a
     fitting line, and `WrappedTo(s, m)` says every line of `s[..m]` fits.
     `WrappedToIffEveryLineFits` ties the last to `Lines`. */

  /** The last newline in `s[..m]`, or -1. */
  function NewlineBefore(s: string, m: nat): (j: int)
    requires m <= |s|
    ensures -1 <= j < m
    ensures j >= 0 ==> s[j] == '\n'
    ensures forall k :: j < k < m ==> s[k] != '\n'
  {
    if m == 0 then -1 else if s[m - 1] == '\n' then m - 1 else NewlineBefore(s, m - 1)
  }

  predicate FitsBetween(s: string, lo: nat, hi: nat, llen: int)
    requires lo <= hi <= |s|
  {
    hi - lo < llen || forall k :: lo <= k < hi ==> s[k] != ' '
  }

  predicate WrappedTo(s: string, m: nat, llen: int)
    requires m <= |s|
    decreases m
  {
    var j := NewlineBefore(s, m);
    FitsBetween(s, j + 1, m, llen) && (j < 0 || WrappedTo(s, j, llen))
  }

  /** `NewlineBefore` is pinned down by its contract. */
  lemma NewlineBeforeIs(s: string, m: nat, j: int)
    requires -1 <= j < m <= |s| && (j >= 0 ==> s[j] == '\n')
    requires forall k :: j < k < m ==> s[k] != '\n'
    ensures NewlineBefore(s, m) == j
  {
  }

  lemma FitsBetweenIsLineFits(s: string, lo: nat, hi: nat, llen: int)
    requires lo <= hi <= |s|
    ensures FitsBetween(s, lo, hi, llen) == LineFits(s[lo..hi], llen)
  {
    if ' ' in s[lo..hi] {
      var k :| 0 <= k < hi - lo && s[lo..hi][k] == ' ';
      assert s[lo + k] == ' ';
    }
  }

  /** Every line in `ls` fits. */
  predicate EveryLineFits(ls: seq<string>, llen: int)
  {
    forall k :: 0 <= k < |ls| ==> LineFits(ls[k], llen)
  }

  lemma EveryLineFitsSnoc(ls: seq<string>, l: string, llen: int)
    ensures EveryLineFits(ls + [l], llen) <==> EveryLineFits(ls, llen) && LineFits(l, llen)
  {
    assert (ls + [l])[|ls|] == l;
    assert forall k :: 0 <= k < |ls| ==> (ls + [l])[k] == ls[k];
  }

  /** The lines of `s[..m]`: those before its last newline, then the rest. */
  lemma LinesBefore(s: string, m: nat)
    requires m <= |s|
    ensures var j := NewlineBefore(s, m);
      Lines(s[..m]) == (if j < 0 then [] else Lines(s[..j])) + [s[j + 1..m]]
  {
    var j := NewlineBefore(s, m);
    LinesExtend(s, j, m);
    if j < 0 {
      assert s[..m] == s[j + 1..m];
    }
  }

  /** `WrappedTo` says that each of the lines `Lines` splits `s[..m]` into
      fits. */
  lemma {:induction false} WrappedToIffEveryLineFits(s: string, m: nat, llen: int)
    requires m <= |s|
    ensures WrappedTo(s, m, llen) <==> EveryLineFits(Lines(s[..m]), llen)
    decreases m
  {
    var j := NewlineBefore(s, m);
    LinesBefore(s, m);
    FitsBetweenIsLineFits(s, j + 1, m, llen);
    if j >= 0 {
      WrappedToIffEveryLineFits(s, j, llen);
    }
    EveryLineFitsSnoc(if j < 0 then [] else Lines(s[..j]), s[j + 1..m], llen);
  }

  /** The wrapper's position in the buffer: the buffer as changed so far,
      the last line break `brk` and the last space `spc` (-1 for none). */
  datatype WrapState = WrapState(buf: string, brk: int, spc: int)

  /** One turn of the stringWordWrap loop at a character `s[p]` other than
      the NUL.  A space ends a measured segment: when the segment since
      `brk` is longer than `llen`, the last space becomes a newline, or,
      with no space since `brk`, this space does.  A newline starts a new
      line.  `checkAtNewline` selects the corrected loop, which also
      measures the line an existing newline ends; the source does not. */
  function WrapStep(s: string, p: nat, brk: int, spc: int, llen: int, checkAtNewline: bool): (r: WrapState)
    requires p < |s| && -1 <= brk < p && -1 <= spc < p
    ensures |r.buf| == |s| && -1 <= r.brk <= p && -1 <= r.spc <= p
    ensures forall k :: p < k < |s| ==> r.buf[k] == s[k]
  {
    var c := s[p];
    if c == ' ' then
      if p - brk > llen then
        if spc > brk then WrapState(s[spc := '\n'], spc, p)
        else WrapState(s[p := '\n'], p, spc)
      else WrapState(s, brk, p)
    else if c == '\n' then
      if checkAtNewline && p - brk > llen && spc > brk then WrapState(s[spc := '\n'], p, spc)
      else WrapState(s, p, spc)
    else WrapState(s, brk, spc)
  }

  /** The turn at the terminator `n`: the last space becomes a break when
      the final segment is overlong. */
  function WrapEnd(s: string, n: nat, brk: int, spc: int, llen: int): (r: string)
    requires -1 <= brk < n < |s| && -1 <= spc < n
    ensures |r| == |s|
  {
    if n - brk > llen && spc > brk then s[spc := '\n'] else s
  }

  /** The stringWordWrap loop from position `p` on, up to the first NUL. */
  function WrapFrom(s: string, p: nat, brk: int, spc: int, llen: int, checkAtNewline: bool): (r: string)
    requires p <= |s| && -1 <= brk < p && -1 <= spc < p
    ensures |r| == |s|
    decreases |s| - p
  {
    if p == |s| then s
    else if s[p] == '\0' then WrapEnd(s, p, brk, spc, llen)
    else
      var st := WrapStep(s, p, brk, spc, llen, checkAtNewline);
      WrapFrom(st.buf, p + 1, st.brk, st.spc, llen, checkAtNewline)
  }

  /** stringWordWrap as written, on the whole buffer. */
  function Wrap(s: string, llen: int): (r: string)
    ensures |r| == |s|
  {
    WrapFrom(s, 0, -1, -1, llen, false)
  }

  /** stringWordWrap with the length check also made at existing newlines. */
  function WrapCorrected(s: string, llen: int): (r: string)
    ensures |r| == |s|
  {
    WrapFrom(s, 0, -1, -1, llen, true)
  }

  /** Only spaces change, into newlines: the length, every other character
      and the terminator are kept. */
  lemma {:induction false} WrapFromChangesOnlySpaces(s: string, p: nat, brk: int, spc: int, llen: int, checkAtNewline: bool)
    requires p <= |s| && -1 <= brk < p && -1 <= spc < p
    requires spc > brk ==> s[spc] == ' '
    ensures SpacesToNewlines(s, WrapFrom(s, p, brk, spc, llen, checkAtNewline))
    decreases |s| - p
  {
    if p < |s| && s[p] != '\0' {
      var st := WrapStep(s, p, brk, spc, llen, checkAtNewline);
      WrapFromChangesOnlySpaces(st.buf, p + 1, st.brk, st.spc, llen, checkAtNewline);
    }
  }

  lemma WrapChangesOnlySpaces(s: string, llen: int)
    ensures SpacesToNewlines(s, Wrap(s, llen))
    ensures SpacesToNewlines(s, WrapCorrected(s, llen))
  {
    WrapFromChangesOnlySpaces(s, 0, -1, -1, llen, false);
    WrapFromChangesOnlySpaces(s, 0, -1, -1, llen, true);
  }

  /** A string shorter than `llen` never has a segment to break. */
  lemma {:induction false} WrapFromShortUnchanged(s: string, p: nat, brk: int, spc: int, llen: int,
                                                   checkAtNewline: bool, n: nat)
    requires p <= |s| && -1 <= brk < p && -1 <= spc < p
    requires p <= n < |s| && s[n] == '\0' && n < llen
    ensures WrapFrom(s, p, brk, spc, llen, checkAtNewline) == s
    decreases |s| - p
  {
    if p < |s| && s[p] != '\0' {
      var st := WrapStep(s, p, brk, spc, llen, checkAtNewline);
      WrapFromShortUnchanged(st.buf, p + 1, st.brk, st.spc, llen, checkAtNewline, n);
    }
  }

  lemma WrapShortUnchanged(s: string, llen: int, n: nat)
    requires n < |s| && s[n] == '\0' && n < llen
    ensures Wrap(s, llen) == s && WrapCorrected(s, llen) == s
  {
    WrapFromShortUnchanged(s, 0, -1, -1, llen, false, n);
    WrapFromShortUnchanged(s, 0, -1, -1, llen, true, n);
  }

  /** Writing at or after `hi` leaves the piece [lo, hi) as it was. */
  lemma FitsBetweenFrame(s: string, lo: nat, hi: nat, i: nat, c: char, llen: int)
    requires lo <= hi <= i < |s|
    ensures FitsBetween(s[i := c], lo, hi, llen) == FitsBetween(s, lo, hi, llen)
  {
    forall k | lo <= k < hi
      ensures s[i := c][k] == s[k]
    {
    }
  }

  /** Writing at or after `m` leaves the lines of `s[..m]` as they were. */
  lemma {:induction false} WrappedToFrame(s: string, m: nat, i: nat, c: char, llen: int)
    requires m <= i < |s|
    ensures WrappedTo(s[i := c], m, llen) == WrappedTo(s, m, llen)
    decreases m
  {
    var j := NewlineBefore(s, m);
    NewlineBeforeIs(s[i := c], m, j);
    FitsBetweenFrame(s, j + 1, m, i, c, llen);
    if j >= 0 {
      WrappedToFrame(s, j, i, c, llen);
    }
  }

  /** Closing the line that runs from after `brk` (a newline, or the start)
      to `lf` keeps every line fitting. */
  lemma WrappedToClose(s: string, brk: int, lf: nat, llen: int)
    requires -1 <= brk < lf <= |s|
    requires brk >= 0 ==> s[brk] == '\n' && WrappedTo(s, brk, llen)
    requires forall k :: brk < k < lf ==> s[k] != '\n'
    requires FitsBetween(s, brk + 1, lf, llen)
    ensures WrappedTo(s, lf, llen)
  {
    NewlineBeforeIs(s, lf, brk);
  }

  /** Turning the character at `q` into a newline closes the fitting line
      that runs from after `brk` to `q`. */
  lemma BreakAt(s: string, brk: int, q: nat, llen: int)
    requires -1 <= brk < q < |s|
    requires brk >= 0 ==> s[brk] == '\n' && WrappedTo(s, brk, llen)
    requires forall k :: brk < k < q ==> s[k] != '\n'
    requires FitsBetween(s, brk + 1, q, llen)
    ensures s[q := '\n'][q] == '\n' && WrappedTo(s[q := '\n'], q, llen)
  {
    var t := s[q := '\n'];
    if brk >= 0 {
      WrappedToFrame(s, brk, q, '\n', llen);
    }
    FitsBetweenFrame(s, brk + 1, q, q, '\n', llen);
    WrappedToClose(t, brk, q, llen);
  }

  /* The lemmas below each spell out what the loop knows at position `p`:
     the lines closed up to `brk` fit, no newline follows `brk`, the last
     space `spc` (when after `brk`) ends a fitting piece, and no space
     follows the later of the two. */

  /** A space after an overlong segment, with a space since the last break:
      the earlier space becomes the break. */
  lemma BreakAtLastSpace(s: string, p: nat, brk: int, spc: int, llen: int)
    requires -1 <= brk < spc < p < |s| && s[p] == ' '
    requires brk >= 0 ==> s[brk] == '\n' && WrappedTo(s, brk, llen)
    requires forall k :: brk < k < p ==> s[k] != '\n'
    requires s[spc] == ' ' && FitsBetween(s, brk + 1, spc, llen)
    requires forall k :: spc < k < p ==> s[k] != ' '
    ensures var t := s[spc := '\n'];
      && t[spc] == '\n' && WrappedTo(t, spc, llen)
      && (forall k :: spc < k < p + 1 ==> t[k] != '\n')
      && t[p] == ' ' && FitsBetween(t, spc + 1, p, llen)
  {
    BreakAt(s, brk, spc, llen);
  }

  /** A space after an overlong segment with no space since the last
      break: this space becomes the break. */
  lemma BreakAtThisSpace(s: string, p: nat, brk: int, llen: int)
    requires -1 <= brk < p < |s|
    requires brk >= 0 ==> s[brk] == '\n' && WrappedTo(s, brk, llen)
    requires forall k :: brk < k < p ==> s[k] != '\n'
    requires forall k :: brk < k < p ==> s[k] != ' '
    ensures s[p := '\n'][p] == '\n' && WrappedTo(s[p := '\n'], p, llen)
  {
    BreakAt(s, brk, p, llen);
  }

  /** A newline after an overlong segment, in the corrected loop: the last
      space becomes a break, and the newline closes the word after it. */
  lemma BreakBeforeNewline(s: string, p: nat, brk: int, spc: int, llen: int)
    requires -1 <= brk < spc < p < |s| && s[p] == '\n'
    requires brk >= 0 ==> s[brk] == '\n' && WrappedTo(s, brk, llen)
    requires forall k :: brk < k < p ==> s[k] != '\n'
    requires FitsBetween(s, brk + 1, spc, llen)
    requires forall k :: spc < k < p ==> s[k] != ' '
    ensures var t := s[spc := '\n'];
      t[p] == '\n' && WrappedTo(t, p, llen)
  {
    BreakAt(s, brk, spc, llen);
    WrappedToClose(s[spc := '\n'], spc, p, llen);
  }

  /** A newline that ends a fitting line, or one with no space to break at. */
  lemma CloseAtNewline(s: string, p: nat, brk: int, spc: int, llen: int)
    requires -1 <= brk < p < |s| && -1 <= spc < p && s[p] == '\n'
    requires brk >= 0 ==> s[brk] == '\n' && WrappedTo(s, brk, llen)
    requires forall k :: brk < k < p ==> s[k] != '\n'
    requires forall k :: Max(brk, spc) < k < p ==> s[k] != ' '
    requires p - brk <= llen || spc <= brk
    ensures WrappedTo(s, p, llen)
  {
    WrappedToClose(s, brk, p, llen);
  }

  /** At the terminator the last line is closed, and it fits. */
  lemma WrapLastLine(s: string, n: nat, brk: int, spc: int, llen: int)
    requires -1 <= brk < n < |s| && -1 <= spc < n
    requires brk >= 0 ==> s[brk] == '\n' && WrappedTo(s, brk, llen)
    requires forall k :: brk < k < n ==> s[k] != '\n'
    requires spc > brk ==> s[spc] == ' ' && FitsBetween(s, brk + 1, spc, llen)
    requires forall k :: Max(brk, spc) < k < n ==> s[k] != ' '
    ensures WrappedTo(WrapEnd(s, n, brk, spc, llen), n, llen)
  {
    if n - brk > llen && spc > brk {
      BreakAt(s, brk, spc, llen);
      WrappedToClose(s[spc := '\n'], spc, n, llen);
    } else {
      WrappedToClose(s, brk, n, llen);
    }
  }

  /** What the loop knows at position `p`, gathered in one place. */
  predicate WrapInv(s: string, p: nat, brk: int, spc: int, llen: int)
  {
    && -1 <= brk < p <= |s| && -1 <= spc < p
    && (brk >= 0 ==> s[brk] == '\n' && WrappedTo(s, brk, llen))
    && (forall k :: brk < k < p ==> s[k] != '\n')
    && (spc > brk ==> s[spc] == ' ' && FitsBetween(s, brk + 1, spc, llen))
    && (forall k :: Max(brk, spc) < k < p ==> s[k] != ' ')
  }

  /** One turn of the loop keeps what it knows, except at a newline the
      source does not measure. */
  lemma WrapStepKeeps(s: string, p: nat, brk: int, spc: int, llen: int, checkAtNewline: bool)
    requires WrapInv(s, p, brk, spc, llen) && p < |s|
    requires checkAtNewline || s[p] != '\n'
    ensures var st := WrapStep(s, p, brk, spc, llen, checkAtNewline);
      WrapInv(st.buf, p + 1, st.brk, st.spc, llen)
  {
    var c := s[p];
    if c == ' ' {
      if p - brk > llen {
        if spc > brk {
          BreakAtLastSpace(s, p, brk, spc, llen);
        } else {
          BreakAtThisSpace(s, p, brk, llen);
        }
      }
    } else if c == '\n' {
      if checkAtNewline && p - brk > llen && spc > brk {
        BreakBeforeNewline(s, p, brk, spc, llen);
      } else {
        CloseAtNewline(s, p, brk, spc, llen);
      }
    }
  }

  /** From a state where the loop's facts hold, the rest of the loop leaves
      every line of the string fitting, provided the source's loop meets no
      newline. */
  lemma {:induction false} WrapFromFits(s: string, p: nat, brk: int, spc: int, llen: int,
                                         checkAtNewline: bool, n: nat)
    requires WrapInv(s, p, brk, spc, llen) && p <= n < |s|
    requires s[n] == '\0' && forall k :: p <= k < n ==> s[k] != '\0'
    requires checkAtNewline || forall k :: p <= k < n ==> s[k] != '\n'
    ensures WrappedTo(WrapFrom(s, p, brk, spc, llen, checkAtNewline), n, llen)
    decreases n - p
  {
    if p == n {
      WrapLastLine(s, n, brk, spc, llen);
      assert WrapFrom(s, p, brk, spc, llen, checkAtNewline) == WrapEnd(s, n, brk, spc, llen);
    } else {
      WrapStepKeeps(s, p, brk, spc, llen, checkAtNewline);
      var st := WrapStep(s, p, brk, spc, llen, checkAtNewline);
      WrapFromFits(st.buf, p + 1, st.brk, st.spc, llen, checkAtNewline, n);
    }
  }

  /** The source's wrapper makes every line of the string fit when the text
      has no newline of its own. */
  lemma WrapFits(s: string, llen: int, n: nat)
    requires n < |s| && s[n] == '\0' && '\0' !in s[..n] && '\n' !in s[..n]
    ensures EveryLineFits(Lines(Wrap(s, llen)[..n]), llen)
  {
    assert forall k :: 0 <= k < n ==> s[k] == s[..n][k];
    WrapFromFits(s, 0, -1, -1, llen, false, n);
    WrappedToIffEveryLineFits(Wrap(s, llen), n, llen);
  }

  /** The corrected wrapper makes every line fit, newlines or not. */
  lemma WrapCorrectedFits(s: string, llen: int, n: nat)
    requires n < |s| && s[n] == '\0' && '\0' !in s[..n]
    ensures EveryLineFits(Lines(WrapCorrected(s, llen)[..n]), llen)
  {
    assert forall k :: 0 <= k < n ==> s[k] == s[..n][k];
    WrapFromFits(s, 0, -1, -1, llen, true, n);
    WrappedToIffEveryLineFits(WrapCorrected(s, llen), n, llen);
  }

  /** "a bc\n" with lines of fewer than 3 characters: the source never
      measures the line its own newline ends, so "a bc" stays unbroken
      although it has a space; the corrected loop breaks it there. */
  lemma NewlineOverrunExample()
    ensures Wrap("a bc\n\0", 3) == "a bc\n\0"
    ensures Lines("a bc\n") == ["a bc", ""] && !LineFits("a bc", 3)
    ensures WrapCorrected("a bc\n\0", 3) == "a\nbc\n\0"
  {
    LastNewlineIs("a bc\n", 4);
    assert "a bc\n"[..4] == "a bc";
    assert LastNewline("a bc") == -1;
    assert "a bc"[1] == ' ';
  }

  /** stringWordWrap: breaks the string in `a` into lines of fewer than
      `llen` characters where it can, by turning spaces into newlines.  The
      ghost `n` is the string's length. */
  method StringWordWrap(a: array<char>, llen: int, ghost n: nat)
    requires TerminatedAt(a, n)
    modifies a
    ensures a[..] == Wrap(old(a[..]), llen)
  {
    var lastBrk := -1;
    var lastSpc := -1;
    var p := 0;
    while true
      invariant 0 <= p <= n < a.Length && a[n] == '\0'
      invariant forall k :: p <= k < n ==> a[k] != '\0'
      invariant -1 <= lastBrk < p && -1 <= lastSpc < p
      invariant Wrap(old(a[..]), llen) == WrapFrom(a[..], p, lastBrk, lastSpc, llen, false)
      decreases n - p
    {
      ghost var before := a[..];
      var c := a[p];
      if c == '\0' || c == ' ' {
        if p - lastBrk > llen {
          if lastSpc > lastBrk {
            a[lastSpc] := '\n';
            assert a[..] == before[lastSpc := '\n'];
            lastBrk := lastSpc;
            lastSpc := p;
          } else if a[p] != '\0' {
            a[p] := '\n';
            assert a[..] == before[p := '\n'];
            lastBrk := p;
          }
        } else if a[p] != '\0' {
          lastSpc := p;
        }
      } else if a[p] == '\n' {
        lastBrk := p;
      }
      if c == '\0' {
        break;
      }
      p := p + 1;
    }
  }
}
