/** ffmpeg timestamps and duration comparison (videos.go; main.go has identical copies of
    `ParseTime` and `FormatTime`). Parsed timestamps are exact integer centiseconds rather
    than float64 seconds. */
module Timestamps {
  import opened Wrappers
  import opened Text

  const MaxInt64: int := 0x7FFF_FFFF_FFFF_FFFF
  const MinInt64: int := -0x8000_0000_0000_0000

  /** The white space Go's scanner skips before a verb. A newline is not skipped by
      `Sscanf`; it stops the scan, which is what a non-space, non-digit character does too. */
  predicate IsScanSpace(c: char)
  {
    var n := c as int;
    || n == 0x09 || n == 0x0B || n == 0x0C || n == 0x0D || n == 0x20
    || n == 0x85 || n == 0xA0 || n == 0x1680 || (0x2000 <= n <= 0x200A)
    || n == 0x2028 || n == 0x2029 || n == 0x202F || n == 0x205F || n == 0x3000
  }

  /** The first position at or after `i` that is not scan space. */
  function SkipSpaces(s: string, i: nat): (j: nat)
    requires i <= |s|
    ensures i <= j <= |s|
    ensures j < |s| ==> !IsScanSpace(s[j])
    decreases |s| - i
  {
    if i < |s| && IsScanSpace(s[i]) then SkipSpaces(s, i + 1) else i
  }

  /** The end of the run of decimal digits starting at `i`. */
  function DigitRunEnd(s: string, i: nat): (j: nat)
    requires i <= |s|
    ensures i <= j <= |s|
    ensures forall k :: i <= k < j ==> IsDigit(s[k])
    ensures j < |s| ==> !IsDigit(s[j])
    decreases |s| - i
  {
    if i < |s| && IsDigit(s[i]) then DigitRunEnd(s, i + 1) else i
  }

  /** One `%d` verb into a Go `int`: skip space, an optional sign, at least one digit, and
      the value must fit in 64 bits. Returns the value and the position after it. */
  function ScanInt(s: string, i: nat): (r: Option<(int, nat)>)
    requires i <= |s|
    ensures r.Some? ==> i < r.value.1 <= |s|
    ensures r.Some? ==> MinInt64 <= r.value.0 <= MaxInt64
  {
    var p := SkipSpaces(s, i);
    var signed := p < |s| && (s[p] == '+' || s[p] == '-');
    var q := if signed then p + 1 else p;
    var e := DigitRunEnd(s, q);
    if e == q then None
    else
      var magnitude: int := RunValue(s, q, e);
      var v: int := if signed && s[p] == '-' then -magnitude else magnitude;
      if MinInt64 <= v <= MaxInt64 then Some((v, e)) else None
  }

  /** The value of the digits `s[i..j]`, most significant first. */
  function RunValue(s: string, i: nat, j: nat): nat
    requires i <= j <= |s|
    requires forall k :: i <= k < j ==> IsDigit(s[k])
    decreases j - i
  {
    if j == i then 0 else RunValue(s, i, j - 1) * 10 + DigitValue(s[j - 1])
  }

  /** `RunValue` reads the same value as `DigitsValue` of the slice. */
  lemma {:induction false} RunValueSlice(s: string, i: nat, j: nat)
    requires i <= j <= |s| && AllDigits(s[i..j])
    ensures forall k :: i <= k < j ==> IsDigit(s[k])
    ensures RunValue(s, i, j) == DigitsValue(s[i..j])
    decreases j - i
  {
    assert forall k :: i <= k < j ==> s[k] == s[i..j][k - i];
    if j > i {
      assert s[i..j][..j - 1 - i] == s[i..j - 1];
      RunValueSlice(s, i, j - 1);
    }
  }

  /** `s` holds, from `i` on, an integer as `%d` reads it: scan space up to `p`, an
      optional sign up to `q`, then the whole digit run `s[q..e]`, whose value, negated
      after a '-', is `v`. */
  ghost predicate ReadsInt(s: string, i: nat, p: nat, q: nat, e: nat, v: int)
  {
    && i <= p <= q < e <= |s|
    && (forall k :: i <= k < p ==> IsScanSpace(s[k]))
    && !IsScanSpace(s[p])
    && (q == p || (q == p + 1 && (s[p] == '+' || s[p] == '-')))
    && AllDigits(s[q..e]) && (e == |s| || !IsDigit(s[e]))
    && var d: int := DigitsValue(s[q..e]);
       v == (if q == p + 1 && s[p] == '-' then -d else d)
  }

  /** What `SkipSpaces` passes over is all scan space. */
  lemma {:induction false} SkipSpacesOver(s: string, i: nat)
    requires i <= |s|
    ensures forall k :: i <= k < SkipSpaces(s, i) ==> IsScanSpace(s[k])
    decreases |s| - i
  {
    if i < |s| && IsScanSpace(s[i]) {
      SkipSpacesOver(s, i + 1);
    }
  }

  /** Scan space up to a character that is not ends where that character is. */
  lemma {:induction false} SkipSpacesTo(s: string, i: nat, p: nat)
    requires i <= p < |s| && !IsScanSpace(s[p])
    requires forall k :: i <= k < p ==> IsScanSpace(s[k])
    ensures SkipSpaces(s, i) == p
    decreases p - i
  {
    if i < p {
      SkipSpacesTo(s, i + 1, p);
    }
  }

  /** A `%d` that succeeds read an integer: its value and end are those of the digit
      run after the skipped space and optional sign. */
  lemma ScanIntReads(s: string, i: nat)
    requires i <= |s| && ScanInt(s, i).Some?
    ensures exists p, q :: ReadsInt(s, i, p, q, ScanInt(s, i).value.1, ScanInt(s, i).value.0)
  {
    var p := SkipSpaces(s, i);
    SkipSpacesOver(s, i);
    var signed := p < |s| && (s[p] == '+' || s[p] == '-');
    var q := if signed then p + 1 else p;
    var e := DigitRunEnd(s, q);
    assert AllDigits(s[q..e]) by {
      assert forall k :: 0 <= k < e - q ==> s[q..e][k] == s[q + k];
    }
    RunValueSlice(s, q, e);
    assert ReadsInt(s, i, p, q, e, ScanInt(s, i).value.0);
  }

  /** Wherever `s` holds an integer, `%d` reads it: its value and end when the value
      fits in 64 bits, nothing otherwise. */
  lemma ReadsIntScans(s: string, i: nat, p: nat, q: nat, e: nat, v: int)
    requires ReadsInt(s, i, p, q, e, v)
    ensures ScanInt(s, i) == if MinInt64 <= v <= MaxInt64 then Some((v, e)) else None
  {
    SkipSpacesTo(s, i, p);
    if q == p {
      assert s[p] == s[q..e][0];
    }
    DigitRunFrom(s, q, e - q);
    RunValueSlice(s, q, e);
  }

  /** One element of a scan format: a `%d` verb or a literal character. */
  datatype FormatItem = IntVerb | Literal(c: char)

  /** The format `"%d:%d:%d.%d"`. */
  const TimestampFormat: seq<FormatItem> :=
    [IntVerb, Literal(':'), IntVerb, Literal(':'), IntVerb, Literal('.'), IntVerb]

  /** The number of `%d` verbs in a format. */
  function CountVerbs(format: seq<FormatItem>): nat
  {
    if |format| == 0 then 0 else (if format[0] == IntVerb then 1 else 0) + CountVerbs(format[1..])
  }

  /** `fmt.Sscanf` restricted to `%d` verbs and literals: the values assigned before the
      first mismatch, in order, at most one per verb. Later verbs leave their variables
      untouched. */
  function Scanf(format: seq<FormatItem>, s: string, pos: nat): (r: seq<int>)
    requires pos <= |s|
    ensures |r| <= CountVerbs(format)
    ensures forall k :: 0 <= k < |r| ==> MinInt64 <= r[k] <= MaxInt64
    decreases |format| + |s| - pos
  {
    if |format| == 0 then []
    else match format[0]
      case Literal(c) =>
        if pos < |s| && s[pos] == c then Scanf(format[1..], s, pos + 1) else []
      case IntVerb =>
        match ScanInt(s, pos)
        case None => []
        case Some((v, next)) => [v] + Scanf(format[1..], s, next)
  }

  /** The k-th scanned value, or the zero the Go variable was declared with. */
  function Field(values: seq<int>, k: nat): int
  {
    if k < |values| then values[k] else 0
  }

  /** A Go `int` result: the 64-bit two's-complement value congruent to `x`. Go's `+` and
      `*` on `int` wrap, and wrapping each step gives the same value as wrapping once. */
  function Wrap64(x: int): (r: int)
    ensures MinInt64 <= r <= MaxInt64
    ensures (x - r) % 0x1_0000_0000_0000_0000 == 0
    ensures MinInt64 <= x <= MaxInt64 ==> r == x
  {
    (x - MinInt64) % 0x1_0000_0000_0000_0000 + MinInt64
  }

  /** `ParseTime_FF` (and main.go's `ParseTime`): hours, minutes, seconds and a two-digit
      fraction, as a total number of centiseconds. The whole seconds are summed in Go's
      64-bit `int`, so they wrap; the fraction is added after the conversion to float. */
  function ParseTimeFF(ts: string): (r: int)
    ensures Scanf(TimestampFormat, ts, 0) == [] ==> r == 0
    ensures 100 * MinInt64 + MinInt64 <= r <= 100 * MaxInt64 + MaxInt64
  {
    var v := Scanf(TimestampFormat, ts, 0);
    Field(v, 3) + 100 * Wrap64(Field(v, 2) + 60 * Field(v, 1) + 3600 * Field(v, 0))
  }

  /** `r` reads "H:MM:SS" for `n` seconds: digit fields separated by ':', the minutes and
      seconds fields two digits below 60, and the three fields weighing back to `n`. */
  predicate IsClockOf(r: string, n: nat)
  {
    && |r| >= 8 && r[|r| - 6] == ':' && r[|r| - 3] == ':'
    && AllDigits(r[..|r| - 6]) && AllDigits(r[|r| - 5..|r| - 3]) && AllDigits(r[|r| - 2..])
    && DigitsValue(r[|r| - 5..|r| - 3]) < 60 && DigitsValue(r[|r| - 2..]) < 60
    && DigitsValue(r[..|r| - 6]) * 3600 + DigitsValue(r[|r| - 5..|r| - 3]) * 60
       + DigitsValue(r[|r| - 2..]) == n
  }

  /** `FormatTime` of a whole, non-negative number of seconds: zero-padded hours, minutes
      and seconds separated by ':'. */
  function FormatTime(n: nat): (r: string)
    ensures IsClockOf(r, n)
  {
    var r := Pad2(n / 3600) + ":" + Pad2((n / 60) % 60) + ":" + Pad2(n % 60);
    FormattedFields(n, r);
    r
  }

  /** The three padded fields of `n`, joined by ':', read as `n` seconds. */
  lemma FormattedFields(n: nat, r: string)
    requires r == Pad2(n / 3600) + ":" + Pad2((n / 60) % 60) + ":" + Pad2(n % 60)
    ensures IsClockOf(r, n)
  {
    ClockArithmetic(n);
    ClockSlices(Pad2(n / 3600), Pad2((n / 60) % 60), Pad2(n % 60));
  }

  /** Hours, minutes and seconds weigh back to the total. */
  lemma ClockArithmetic(n: nat)
    ensures (n / 3600) * 3600 + ((n / 60) % 60) * 60 + n % 60 == n
  {
    var q := n / 60;
    assert n == q * 60 + n % 60;
    assert q == (q / 60) * 60 + q % 60;
    assert q / 60 == n / 3600 by {
      assert n == (q / 60) * 3600 + (q % 60) * 60 + n % 60;
      assert 0 <= (q % 60) * 60 + n % 60 < 3600;
    }
  }

  /** The three fields of "H:MM:SS" can be cut back out of it. */
  lemma ClockSlices(h: string, m: string, sec: string)
    requires |m| == 2 && |sec| == 2
    ensures var r := h + ":" + m + ":" + sec;
            && |r| == |h| + 6
            && r[..|r| - 6] == h && r[|r| - 6] == ':'
            && r[|r| - 5..|r| - 3] == m && r[|r| - 3] == ':'
            && r[|r| - 2..] == sec
  {
  }

  /** A run of digits `d` at `s[i..j]` that is not followed by another digit is a whole
      digit run, and its value is that of `d`. */
  lemma DigitsAt(s: string, i: nat, j: nat, d: string)
    requires j == i + |d| <= |s| && s[i..j] == d && AllDigits(d)
    requires j == |s| || !IsDigit(s[j])
    ensures DigitRunEnd(s, i) == j
    ensures RunValue(s, i, j) == DigitsValue(d)
  {
    DigitRunFrom(s, i, |d|);
    RunValueSlice(s, i, j);
  }

  lemma {:induction false} DigitRunFrom(s: string, i: nat, k: nat)
    requires i + k <= |s| && AllDigits(s[i..i + k])
    requires i + k == |s| || !IsDigit(s[i + k])
    ensures DigitRunEnd(s, i) == i + k
    decreases k
  {
    if k > 0 {
      assert s[i] == s[i..i + k][0];
      assert s[i + 1..i + k] == s[i..i + k][1..];
      DigitRunFrom(s, i + 1, k - 1);
    }
  }

  /** Where the pieces of "H:M:S" followed by `rest` sit: the fields end at `p1`, `p2`
      and `p3`. */
  lemma ClockLayout(h: string, m: string, sec: string, rest: string, s: string,
                    p1: nat, p2: nat, p3: nat)
    requires s == h + ":" + m + ":" + sec + rest
    requires p1 == |h| && p2 == p1 + 1 + |m| && p3 == p2 + 1 + |sec|
    ensures |s| == p3 + |rest|
    ensures s[0..p1] == h && s[p1] == ':' && s[p1 + 1..p2] == m && s[p2] == ':'
    ensures s[p2 + 1..p3] == sec
    ensures rest != [] ==> s[p3] == rest[0]
  {
    if rest != [] {
      assert s[p3] == (h + ":" + m + ":" + sec + rest)[|h + ":" + m + ":" + sec|];
    }
  }

  /** What the timestamp scan reads from "H:M:S" followed by `rest`, which starts at `p`. */
  lemma ScanClock(h: string, m: string, sec: string, rest: string, s: string, p: nat)
    requires s == h + ":" + m + ":" + sec + rest && p == |h| + |m| + |sec| + 2
    requires |h| >= 1 && |m| >= 1 && |sec| >= 1
    requires AllDigits(h) && AllDigits(m) && AllDigits(sec)
    requires DigitsValue(h) <= MaxInt64 && DigitsValue(m) <= MaxInt64 && DigitsValue(sec) <= MaxInt64
    requires rest == [] || !IsDigit(rest[0])
    ensures p <= |s|
    ensures Scanf(TimestampFormat, s, 0)
            == [DigitsValue(h), DigitsValue(m), DigitsValue(sec)] + Scanf(TimestampFormat[5..], s, p)
  {
    var p1 := |h|;
    var p2 := p1 + 1 + |m|;
    ClockText(h, m, sec, rest, s, p1, p2, p);
    ClockValues(s, p1, p2, p, DigitsValue(h), DigitsValue(m), DigitsValue(sec));
  }

  /** The fields of "H:M:S" followed by `rest` are whole digit runs separated by ':'. */
  lemma ClockText(h: string, m: string, sec: string, rest: string, s: string,
                  p1: nat, p2: nat, p3: nat)
    requires s == h + ":" + m + ":" + sec + rest
    requires p1 == |h| && p2 == p1 + 1 + |m| && p3 == p2 + 1 + |sec|
    requires AllDigits(h) && AllDigits(m) && AllDigits(sec)
    requires rest == [] || !IsDigit(rest[0])
    ensures p3 <= |s| && s[p1] == ':' && s[p2] == ':'
    ensures DigitRunEnd(s, 0) == p1 && RunValue(s, 0, p1) == DigitsValue(h)
    ensures DigitRunEnd(s, p1 + 1) == p2 && RunValue(s, p1 + 1, p2) == DigitsValue(m)
    ensures DigitRunEnd(s, p2 + 1) == p3 && RunValue(s, p2 + 1, p3) == DigitsValue(sec)
  {
    ClockLayout(h, m, sec, rest, s, p1, p2, p3);
    DigitsAt(s, 0, p1, h);
    DigitsAt(s, p1 + 1, p2, m);
    DigitsAt(s, p2 + 1, p3, sec);
  }

  /** `ClockFormat` for the timestamp format, with the values of the three runs given. */
  lemma ClockValues(s: string, p1: nat, p2: nat, p3: nat, vh: int, vm: int, vs: int)
    requires 0 < p1 && p1 + 1 < p2 && p2 + 1 < p3 <= |s| && s[p1] == ':' && s[p2] == ':'
    requires DigitRunEnd(s, 0) == p1 && RunValue(s, 0, p1) == vh <= MaxInt64
    requires DigitRunEnd(s, p1 + 1) == p2 && RunValue(s, p1 + 1, p2) == vm <= MaxInt64
    requires DigitRunEnd(s, p2 + 1) == p3 && RunValue(s, p2 + 1, p3) == vs <= MaxInt64
    ensures Scanf(TimestampFormat, s, 0) == [vh, vm, vs] + Scanf(TimestampFormat[5..], s, p3)
  {
    ClockFormat(TimestampFormat, s, p1, p2, p3);
  }

  /** The first five items of a "%d:%d:%d" format read three digit runs separated by ':'. */
  lemma ClockFormat(f: seq<FormatItem>, s: string, p1: nat, p2: nat, p3: nat)
    requires |f| >= 5 && f[0] == IntVerb && f[1] == Literal(':') && f[2] == IntVerb
    requires f[3] == Literal(':') && f[4] == IntVerb
    requires 0 < p1 && p1 + 1 < p2 && p2 + 1 < p3 <= |s| && s[p1] == ':' && s[p2] == ':'
    requires DigitRunEnd(s, 0) == p1 && DigitRunEnd(s, p1 + 1) == p2 && DigitRunEnd(s, p2 + 1) == p3
    requires RunValue(s, 0, p1) <= MaxInt64 && RunValue(s, p1 + 1, p2) <= MaxInt64
    requires RunValue(s, p2 + 1, p3) <= MaxInt64
    ensures Scanf(f, s, 0)
            == [RunValue(s, 0, p1), RunValue(s, p1 + 1, p2), RunValue(s, p2 + 1, p3)]
               + Scanf(f[5..], s, p3)
  {
    assert f[1..][1..] == f[2..] && f[2..][1..] == f[3..];
    assert f[3..][1..] == f[4..] && f[4..][1..] == f[5..];
    ScanRunAt(f[4..], f[5..], s, p2 + 1, p3);
    ScanLiteralStep(f[3..], s, p2);
    ScanRunAt(f[2..], f[3..], s, p1 + 1, p2);
    ScanLiteralStep(f[1..], s, p1);
    ScanRunAt(f, f[1..], s, 0, p1);
    var t5 := Scanf(f[5..], s, p3);
    var vh, vm, vs := RunValue(s, 0, p1), RunValue(s, p1 + 1, p2), RunValue(s, p2 + 1, p3);
    Cons3(vh, vm, vs, t5);
  }

  lemma Cons3(a: int, b: int, c: int, t: seq<int>)
    ensures [a] + ([b] + ([c] + t)) == [a, b, c] + t
  {
  }

  /** A `%d` item reads a whole run of digits. */
  lemma ScanRunAt(format: seq<FormatItem>, tail: seq<FormatItem>, s: string, i: nat, j: nat)
    requires |format| > 0 && format[0] == IntVerb && format[1..] == tail
    requires i < j <= |s| && DigitRunEnd(s, i) == j && RunValue(s, i, j) <= MaxInt64
    ensures Scanf(format, s, i) == [RunValue(s, i, j)] + Scanf(tail, s, j)
  {
    assert SkipSpaces(s, i) == i;
    ScanIntStep(format, s, i);
  }

  /** One unfolding of `Scanf` at a `%d` that succeeds. */
  lemma ScanIntStep(format: seq<FormatItem>, s: string, pos: nat)
    requires pos <= |s| && |format| > 0 && format[0] == IntVerb && ScanInt(s, pos).Some?
    ensures Scanf(format, s, pos)
            == [ScanInt(s, pos).value.0] + Scanf(format[1..], s, ScanInt(s, pos).value.1)
  {
  }

  /** One unfolding of `Scanf` at a literal that matches. */
  lemma ScanLiteralStep(format: seq<FormatItem>, s: string, pos: nat)
    requires pos < |s| && |format| > 0 && format[0] == Literal(s[pos])
    ensures Scanf(format, s, pos) == Scanf(format[1..], s, pos + 1)
  {
  }

  /** Where matching one format item at `p` ends: after the character of a literal that
      matches, after the integer a `%d` reads; nothing when the item does not match. */
  function ItemEnd(item: FormatItem, s: string, p: nat): Option<nat>
    requires p <= |s|
  {
    match item
    case Literal(c) => if p < |s| && s[p] == c then Some(p + 1) else None
    case IntVerb =>
      match ScanInt(s, p)
      case None => None
      case Some((_, next)) => Some(next)
  }

  /** How a scan of `format` from `pos` went: the items before the last position of `at`
      matched one after another from `at[0] == pos`, and the next item, if any, did
      not; `r` holds, in order, the value read by each `%d` among the matched items,
      the one before which `n` verbs came at index `n`. */
  ghost predicate ScanTrace(format: seq<FormatItem>, s: string, pos: nat, at: seq<nat>, r: seq<int>)
  {
    && 1 <= |at| <= |format| + 1 && at[0] == pos
    && (forall j :: 0 <= j < |at| ==> at[j] <= |s|)
    && (forall j :: 0 <= j < |at| - 1 ==> ItemEnd(format[j], s, at[j]) == Some(at[j + 1]))
    && (|at| - 1 == |format| || ItemEnd(format[|at| - 1], s, at[|at| - 1]).None?)
    && |r| == CountVerbs(format[..|at| - 1])
    && (forall j :: 0 <= j < |at| - 1 && format[j] == IntVerb ==>
          CountVerbs(format[..j]) < |r|
          && ScanInt(s, at[j]) == Some((r[CountVerbs(format[..j])], at[j + 1])))
  }

  /** `Scanf` returns the values of the `%d` verbs, in order, up to the first literal
      that does not match or `%d` that fails, and nothing after it. */
  lemma {:induction false} ScanfTrace(format: seq<FormatItem>, s: string, pos: nat)
    returns (at: seq<nat>)
    requires pos <= |s|
    ensures ScanTrace(format, s, pos, at, Scanf(format, s, pos))
    decreases |format| + |s| - pos
  {
    at := [pos];
    if |format| > 0 {
      match format[0]
      case Literal(c) =>
        if pos < |s| && s[pos] == c {
          var rest := ScanfTrace(format[1..], s, pos + 1);
          TraceCons(format, s, pos, pos + 1, rest, Scanf(format[1..], s, pos + 1), []);
          assert [] + Scanf(format[1..], s, pos + 1) == Scanf(format, s, pos);
          at := [pos] + rest;
        }
      case IntVerb =>
        match ScanInt(s, pos)
        case None =>
        case Some((v, next)) =>
          var rest := ScanfTrace(format[1..], s, next);
          TraceCons(format, s, pos, next, rest, Scanf(format[1..], s, next), [v]);
          at := [pos] + rest;
    }
  }

  /** A matched first item in front of the trace of the rest of the format. */
  lemma TraceCons(format: seq<FormatItem>, s: string, pos: nat, next: nat, at: seq<nat>,
                  r: seq<int>, head: seq<int>)
    requires |format| > 0 && pos <= |s| && ItemEnd(format[0], s, pos) == Some(next)
    requires ScanTrace(format[1..], s, next, at, r)
    requires format[0] == IntVerb ==> head == [ScanInt(s, pos).value.0]
    requires format[0] != IntVerb ==> head == []
    ensures ScanTrace(format, s, pos, [pos] + at, head + r)
  {
    var at', r' := [pos] + at, head + r;
    var tail := format[1..];
    forall j | 0 <= j < |at'| - 1
      ensures ItemEnd(format[j], s, at'[j]) == Some(at'[j + 1])
    {
      if j > 0 {
        assert format[j] == tail[j - 1];
      }
    }
    if |at'| - 1 < |format| {
      assert format[|at'| - 1] == tail[|at| - 1];
    }
    CountVerbsHead(format, |at'| - 1);
    forall j | 0 <= j < |at'| - 1 && format[j] == IntVerb
      ensures CountVerbs(format[..j]) < |r'|
              && ScanInt(s, at'[j]) == Some((r'[CountVerbs(format[..j])], at'[j + 1]))
    {
      if j == 0 {
        assert format[..0] == [];
      } else {
        assert format[j] == tail[j - 1];
        CountVerbsHead(format, j);
        assert r'[CountVerbs(format[..j])] == r[CountVerbs(tail[..j - 1])];
      }
    }
  }

  /** The verbs among the first `m` items: the first item's, then those among the next
      `m - 1`. */
  lemma CountVerbsHead(format: seq<FormatItem>, m: nat)
    requires 0 < m <= |format|
    ensures CountVerbs(format[..m])
            == (if format[0] == IntVerb then 1 else 0) + CountVerbs(format[1..][..m - 1])
  {
    assert format[..m][1..] == format[1..][..m - 1];
  }

  /** Formatting then parsing a whole number of seconds gives it back (as centiseconds):
      the missing fraction leaves the last field at zero. */
  lemma FormatParseRoundTrip(n: nat)
    requires n <= MaxInt64
    ensures ParseTimeFF(FormatTime(n)) == 100 * n
  {
    var h, m, sec := Pad2(n / 3600), Pad2((n / 60) % 60), Pad2(n % 60);
    var s := FormatTime(n);
    assert s == h + ":" + m + ":" + sec + "";
    ScanClock(h, m, sec, "", s, |s|);
    var v := Scanf(TimestampFormat, s, 0);
    assert Scanf(TimestampFormat[5..], s, |s|) == [];
    assert v == [n / 3600, (n / 60) % 60, n % 60];
    ClockArithmetic(n);
  }

  /** ffmpeg's usual status timestamp, "HH:MM:SS.cc", parses to its exact centiseconds. */
  lemma ParseFullTimestamp(n: nat, cc: nat)
    requires n <= MaxInt64 && cc < 100
    ensures ParseTimeFF(FormatTime(n) + "." + Pad2(cc)) == 100 * n + cc
  {
    FullTimestampFields(n, cc);
    ClockArithmetic(n);
    ParseFields(FormatTime(n) + "." + Pad2(cc), n / 3600, (n / 60) % 60, n % 60, cc);
  }

  /** Four scanned fields whose whole seconds fit in 64 bits weigh exactly. */
  lemma ParseFields(ts: string, h: int, m: int, sec: int, c: int)
    requires Scanf(TimestampFormat, ts, 0) == [h, m, sec, c]
    requires MinInt64 <= sec + 60 * m + 3600 * h <= MaxInt64
    ensures ParseTimeFF(ts) == 100 * (sec + 60 * m + 3600 * h) + c
  {
  }

  /** The four fields scanned from "HH:MM:SS.cc". */
  lemma FullTimestampFields(n: nat, cc: nat)
    requires n / 3600 <= MaxInt64 && cc < 100
    ensures Scanf(TimestampFormat, FormatTime(n) + "." + Pad2(cc), 0)
            == [n / 3600, (n / 60) % 60, n % 60, cc]
  {
    var h, m, sec, c := Pad2(n / 3600), Pad2((n / 60) % 60), Pad2(n % 60), Pad2(cc);
    assert FormatTime(n) == h + ":" + m + ":" + sec;
    ClockAndFraction(h, m, sec, c, FormatTime(n) + "." + c);
  }

  /** "H:M:S.c" scans as its four digit fields. */
  lemma ClockAndFraction(h: string, m: string, sec: string, c: string, s: string)
    requires s == h + ":" + m + ":" + sec + "." + c
    requires |h| >= 1 && |m| >= 1 && |sec| >= 1 && |c| >= 1
    requires AllDigits(h) && AllDigits(m) && AllDigits(sec) && AllDigits(c)
    requires DigitsValue(h) <= MaxInt64 && DigitsValue(m) <= MaxInt64
    requires DigitsValue(sec) <= MaxInt64 && DigitsValue(c) <= MaxInt64
    ensures Scanf(TimestampFormat, s, 0)
            == [DigitsValue(h), DigitsValue(m), DigitsValue(sec), DigitsValue(c)]
  {
    var p3 := |h| + |m| + |sec| + 2;
    ClockPart(h, m, sec, c, s, p3);
    FractionPart(h + ":" + m + ":" + sec, c, s, p3);
    Append4(DigitsValue(h), DigitsValue(m), DigitsValue(sec), DigitsValue(c),
            Scanf(TimestampFormat[5..], s, p3));
  }

  lemma ClockPart(h: string, m: string, sec: string, c: string, s: string, p3: nat)
    requires s == h + ":" + m + ":" + sec + "." + c && p3 == |h| + |m| + |sec| + 2
    requires |h| >= 1 && |m| >= 1 && |sec| >= 1
    requires AllDigits(h) && AllDigits(m) && AllDigits(sec)
    requires DigitsValue(h) <= MaxInt64 && DigitsValue(m) <= MaxInt64 && DigitsValue(sec) <= MaxInt64
    ensures p3 <= |s|
    ensures Scanf(TimestampFormat, s, 0)
            == [DigitsValue(h), DigitsValue(m), DigitsValue(sec)] + Scanf(TimestampFormat[5..], s, p3)
  {
    assert s == h + ":" + m + ":" + sec + ("." + c);
    ScanClock(h, m, sec, "." + c, s, p3);
  }

  lemma FractionPart(head: string, c: string, s: string, p3: nat)
    requires s == head + "." + c && p3 == |head|
    requires |c| >= 1 && AllDigits(c) && DigitsValue(c) <= MaxInt64
    ensures p3 <= |s| && Scanf(TimestampFormat[5..], s, p3) == [DigitsValue(c)]
  {
    assert s == head + ("." + c);
    TailAfter(head, "." + c, s, p3);
    FractionTail(s, p3, c);
  }

  lemma Append4(a: int, b: int, c: int, d: int, t: seq<int>)
    requires t == [d]
    ensures [a, b, c] + t == [a, b, c, d]
  {
  }

  lemma TailAfter(head: string, tail: string, s: string, p: nat)
    requires s == head + tail && p == |head|
    ensures s[p..] == tail
  {
  }

  /** The last two items of the timestamp format read ".cc" to the end of the text. */
  lemma FractionTail(s: string, p: nat, c: string)
    requires p + 1 + |c| == |s| && s[p..] == "." + c
    requires |c| >= 1 && AllDigits(c) && DigitsValue(c) <= MaxInt64
    ensures Scanf(TimestampFormat[5..], s, p) == [DigitsValue(c)]
  {
    var f := TimestampFormat;
    assert s[p] == s[p..][0];
    assert s[p + 1..p + 1 + |c|] == s[p..][1..];
    DigitsAt(s, p + 1, |s|, c);
    assert f[5..][1..] == f[6..] && f[6..][1..] == f[7..] && f[7..] == [];
    ScanLiteralStep(f[5..], s, p);
    ScanRunAt(f[6..], f[7..], s, p + 1, |s|);
  }

  /** ffmpeg prints "time=N/A" before the first frame; that parses as zero. */
  lemma NotAvailableIsZero()
    ensures ParseTimeFF("N/A") == 0
  {
    assert SkipSpaces("N/A", 0) == 0;
    assert DigitRunEnd("N/A", 0) == 0;
  }

  /** `DurationsRoughlyEqual`: the video pipeline's tolerance of one second. */
  function DurationsRoughlyEqual(a: real, b: real): (r: bool)
    ensures r <==> a - 1.0 < b < a + 1.0
  {
    (if a - b < 0.0 then b - a else a - b) < 1.0
  }

  /** main.go's `DurationsEqual`: a tenth of a second. */
  function DurationsEqual(a: real, b: real): (r: bool)
    ensures r <==> a - 0.1 < b < a + 0.1
  {
    (if a - b < 0.0 then b - a else a - b) < 0.1
  }

  /** Both tolerances are symmetric and reflexive, and the legacy one is the tighter. */
  lemma ToleranceFacts(a: real, b: real)
    ensures DurationsRoughlyEqual(a, b) == DurationsRoughlyEqual(b, a)
    ensures DurationsEqual(a, b) == DurationsEqual(b, a)
    ensures DurationsRoughlyEqual(a, a) && DurationsEqual(a, a)
    ensures DurationsEqual(a, b) ==> DurationsRoughlyEqual(a, b)
    ensures DurationsRoughlyEqual(a, a + 0.5) && !DurationsEqual(a, a + 0.5)
  {
  }
}
