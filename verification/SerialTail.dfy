/**
 The bounded console tail of crates/vmcell-artifact-validator/src/classify.rs: the newest non-empty
 lines under a line count, a per-line byte cap and a total byte budget.
 */
module SerialTail {
  import opened Basics
  import opened Text
  import opened Utf8

  const SERIAL_TAIL_LINES: nat := 20
  const SERIAL_TAIL_MAX_LINE_BYTES: nat := 512
  const SERIAL_TAIL_MAX_BYTES: nat := 4096
  const TRUNCATION_MARKER: string := "\U{2026} truncated, "
  const ELIDED_SUFFIX: string := " bytes elided"

  /** The number of octets of a Rust `str`. */
  function Len(s: string): nat {
    |Bytes(s)|
  }

  function Digit(n: nat): char
    requires n < 10
  {
    ('0' as int + n) as char
  }

  function Decimal(n: nat): (s: string)
    ensures s != []
  {
    if n < 10 then [Digit(n)] else Decimal(n / 10) + [Digit(n % 10)]
  }

  /** The number a string of decimal digits stands for. */
  function ReadDecimal(s: string): int {
    if s == [] then 0 else 10 * ReadDecimal(s[..|s| - 1]) + (s[|s| - 1] as int - '0' as int)
  }

  /** A count is written in decimal digits, without leading zeros, that read back as the count. */
  lemma {:induction false} DecimalReadsBack(n: nat)
    ensures ReadDecimal(Decimal(n)) == n
    ensures forall i :: 0 <= i < |Decimal(n)| ==> '0' <= Decimal(n)[i] <= '9'
    ensures |Decimal(n)| > 1 ==> Decimal(n)[0] != '0'
  {
    if n < 10 {
      assert ReadDecimal([]) == 0;
      assert [Digit(n)][..0] == [];
    } else {
      DecimalReadsBack(n / 10);
      var s := Decimal(n / 10);
      assert Decimal(n)[..|s|] == s;
      if |s| == 1 {
        assert s[..0] == [];
      }
    }
  }

  // ---------------------------------------------------------------------------------------------
  // What the tail quotes
  // ---------------------------------------------------------------------------------------------

  /** How many leading characters of an over-long line are quoted. */
  function Kept(line: string): (k: nat)
    ensures k <= |line|
  {
    Fitting(line, SERIAL_TAIL_MAX_LINE_BYTES)
  }

  /** A line as quoted: whole, or its longest whole-character head plus the count of elided bytes. */
  function Capped(line: string): string {
    if Len(line) <= SERIAL_TAIL_MAX_LINE_BYTES then line
    else
      var k := Kept(line);
      line[..k] + TRUNCATION_MARKER + Decimal(Len(line[k..])) + ELIDED_SUFFIX
  }

  /** The console's lines, trailing whitespace dropped, the empty ones left out. */
  function NonEmpty(lines: seq<string>): (l: seq<string>)
    ensures forall i :: 0 <= i < |l| ==> l[i] != []
  {
    if lines == [] then []
    else
      var last := TrimEnd(lines[|lines| - 1]);
      NonEmpty(lines[..|lines| - 1]) + if last == [] then [] else [last]
  }

  /** Line by line: a line of nothing but whitespace is left out, any other loses its trailing whitespace. */
  lemma {:induction false} NonEmptyByLine(a: seq<string>, b: seq<string>, line: string)
    ensures NonEmpty(a + b) == NonEmpty(a) + NonEmpty(b)
    ensures NonEmpty([line])
         == if forall i :: 0 <= i < |line| ==> IsWhitespace(line[i]) then [] else [TrimEnd(line)]
    decreases |b|
  {
    hide IsWhitespace;
    assert [line][..0] == [] && NonEmpty([]) == [];
    if b == [] {
      assert a + b == a;
    } else {
      NonEmptyByLine(a, b[..|b| - 1], line);
      assert (a + b)[..|a + b| - 1] == a + b[..|b| - 1];
    }
  }

  function QuotedAll(lines: seq<string>): (q: seq<string>)
    ensures |q| == |lines| && forall i :: 0 <= i < |q| ==> q[i] == Capped(lines[i])
  {
    seq(|lines|, i requires 0 <= i < |lines| => Capped(lines[i]))
  }

  function Total(quoted: seq<string>): nat {
    if quoted == [] then 0 else Len(quoted[0]) + Total(quoted[1..])
  }

  /** The last `j` lines, quoted. */
  function Newest(lines: seq<string>, j: nat): seq<string>
    requires j <= |lines|
  {
    QuotedAll(lines[|lines| - j..])
  }

  ghost predicate WithinBounds(lines: seq<string>, j: nat) {
    j <= |lines| && j <= 20 && Total(Newest(lines, j)) <= 4096
  }

  // ---------------------------------------------------------------------------------------------
  // The program
  // ---------------------------------------------------------------------------------------------

  /**
   A line within the cap is quoted whole; any other as its longest whole-character head within the cap,
   the marker, and the count of the octets left out.
   */
  method CapLine(line: string) returns (quoted: string)
    ensures quoted == Capped(line)
    ensures Len(line) <= 512 ==> quoted == line
    ensures Len(line) > 512 ==>
              exists k, count ::
                && 0 <= k < |line| && Len(line[..k]) <= 512 < Len(line[..k + 1])
                && ReadDecimal(count) == Len(line[k..])
                && quoted == line[..k] + "\U{2026} truncated, " + count + " bytes elided"
  {
    hide Bytes, Fitting, Get, Decimal;
    var bytes := Bytes(line);
    if |bytes| <= SERIAL_TAIL_MAX_LINE_BYTES {
      return line;
    }
    var end: nat := SERIAL_TAIL_MAX_LINE_BYTES;
    while end > 0 && !IsBoundary(bytes, end)
      invariant end <= SERIAL_TAIL_MAX_LINE_BYTES
      invariant forall i: nat :: end < i <= SERIAL_TAIL_MAX_LINE_BYTES ==> !IsBoundary(bytes, i)
    {
      end := end - 1;
    }
    BoundaryBelow(line, SERIAL_TAIL_MAX_LINE_BYTES, end);
    SplitLen(line, Kept(line));
    var head := Get(line, end);
    quoted := (if head.Some? then head.value else "") + TRUNCATION_MARKER + Decimal(|bytes| - end) + ELIDED_SUFFIX;
    CappedShape(line);
  }

  lemma CappedShape(line: string)
    requires Len(line) > SERIAL_TAIL_MAX_LINE_BYTES
    ensures var k, count := Kept(line), Decimal(Len(line[Kept(line)..]));
            && k < |line| && Len(line[..k]) <= 512 < Len(line[..k + 1]) && ReadDecimal(count) == Len(line[k..])
            && Capped(line) == line[..k] + "\U{2026} truncated, " + count + " bytes elided"
  {
    HeadIsFull(line);
    DecimalReadsBack(Len(line[Kept(line)..]));
    hide Bytes, Kept, Decimal, ReadDecimal;
  }

  lemma SplitLen(s: string, k: nat)
    requires k <= |s|
    ensures Len(s) == Len(s[..k]) + Len(s[k..])
  {
    assert s == s[..k] + s[k..];
    BytesConcat(s[..k], s[k..]);
  }

  method Tail(log: string) returns (tail: seq<string>)
    ensures WithinBounds(NonEmpty(Lines(log)), |tail|)
    ensures tail == Newest(NonEmpty(Lines(log)), |tail|)
    ensures forall j: nat :: WithinBounds(NonEmpty(Lines(log)), j) ==> j <= |tail|
    ensures NonEmpty(Lines(log)) != [] && Len(log) < 0x1_0000_0000_0000_0000 ==> tail != []
  {
    hide Len, Capped, Lines, Newest, Total, TrimEnd;
    var raw := Lines(log);
    ghost var lines := NonEmpty(raw);
    var newestFirst: seq<string> := [];
    var budget: nat := SERIAL_TAIL_MAX_BYTES;
    var i := |raw|;
    assert raw[..i] == raw;
    NothingConsumed(lines);
    ghost var full := false;
    while i > 0 && |newestFirst| < SERIAL_TAIL_LINES
      invariant i <= |raw| && !full
      invariant Consumed(lines, NonEmpty(raw[..i]), newestFirst, budget)
    {
      i := i - 1;
      assert raw[..i + 1][..i] == raw[..i];
      var line := TrimEnd(raw[i]);
      if line == "" {
        continue;
      }
      var quoted := CapLine(line);
      ConsumeOne(lines, NonEmpty(raw[..i]), line, newestFirst, budget);
      if Len(quoted) > budget {
        full := true;
        break;
      }
      budget := budget - Len(quoted);
      newestFirst := newestFirst + [quoted];
    }
    tail := Reversed(newestFirst);
    TailIsLongest(lines, |tail|, full);
    if lines != [] && Len(log) < 0x1_0000_0000_0000_0000 {
      NewestLineFits(log);
    }
  }

  function Reversed(s: seq<string>): (r: seq<string>)
    ensures |r| == |s| && forall i :: 0 <= i < |s| ==> r[i] == s[|s| - 1 - i]
  {
    seq(|s|, i requires 0 <= i < |s| => s[|s| - 1 - i])
  }

  /** Loop state: `left` lines still to look at, the rest quoted newest first, the budget spent. */
  ghost predicate Consumed(lines: seq<string>, left: seq<string>, newestFirst: seq<string>, budget: nat) {
    && left <= lines && |lines| == |left| + |newestFirst|
    && |newestFirst| <= SERIAL_TAIL_LINES
    && Reversed(newestFirst) == Newest(lines, |newestFirst|)
    && budget + Total(Newest(lines, |newestFirst|)) == SERIAL_TAIL_MAX_BYTES
  }

  lemma NothingConsumed(lines: seq<string>)
    ensures Consumed(lines, lines, [], SERIAL_TAIL_MAX_BYTES)
  {
  }

  lemma ConsumeOne(lines: seq<string>, left: seq<string>, line: string, newestFirst: seq<string>, budget: nat)
    requires Consumed(lines, left + [line], newestFirst, budget)
    ensures |newestFirst| + 1 <= |lines|
    ensures Total(Newest(lines, |newestFirst| + 1)) == Len(Capped(line)) + SERIAL_TAIL_MAX_BYTES - budget
    ensures Len(Capped(line)) <= budget && |newestFirst| < SERIAL_TAIL_LINES ==>
              Consumed(lines, left, newestFirst + [Capped(line)], budget - Len(Capped(line)))
  {
    hide Capped, Len, Newest, Total;
    var j := |newestFirst|;
    NewestPush(lines, left, line, j);
    NewestStep(lines, j);
    assert Reversed(newestFirst + [Capped(line)]) == [Capped(line)] + Reversed(newestFirst);
  }

  lemma NewestPush(lines: seq<string>, left: seq<string>, line: string, j: nat)
    requires left + [line] <= lines && |lines| == |left| + 1 + j
    ensures lines[|lines| - (j + 1)] == line
    ensures Newest(lines, j + 1) == [Capped(line)] + Newest(lines, j)
  {
    hide Capped;
    assert lines[|left|] == (left + [line])[|left|];
  }

  // ---------------------------------------------------------------------------------------------
  // The tail is as long as the bounds allow
  // ---------------------------------------------------------------------------------------------

  lemma NewestStep(lines: seq<string>, j: nat)
    requires j < |lines|
    ensures Total(Newest(lines, j + 1)) == Len(Capped(lines[|lines| - (j + 1)])) + Total(Newest(lines, j))
  {
    hide Capped, Len;
    assert Newest(lines, j + 1)[1..] == Newest(lines, j);
  }

  lemma {:induction false} TotalMonotone(lines: seq<string>, j: nat, k: nat)
    requires j <= k <= |lines|
    ensures Total(Newest(lines, j)) <= Total(Newest(lines, k))
    decreases k
  {
    hide Newest, Total, Capped, Len;
    if j == k {
    } else {
      TotalMonotone(lines, j, k - 1);
      NewestStep(lines, k - 1);
    }
  }

  lemma TailIsLongest(lines: seq<string>, j: nat, full: bool)
    requires j <= |lines|
    requires full ==> j < |lines| && Total(Newest(lines, j + 1)) > SERIAL_TAIL_MAX_BYTES
    requires !full ==> j == |lines| || j == SERIAL_TAIL_LINES
    ensures forall k: nat :: WithinBounds(lines, k) ==> k <= j
  {
    hide Newest, Total;
    forall k: nat | WithinBounds(lines, k) ensures k <= j {
      if k > j && full {
        TotalMonotone(lines, j + 1, k);
      }
    }
  }

  // ---------------------------------------------------------------------------------------------
  // One line always fits, and a truncated head is nearly full
  // ---------------------------------------------------------------------------------------------

  function Pow10(d: nat): nat {
    if d == 0 then 1 else 10 * Pow10(d - 1)
  }

  lemma {:induction false} DecimalLength(n: nat, d: nat)
    requires d > 0 && n < Pow10(d)
    ensures Len(Decimal(n)) <= d
    decreases d
  {
    if n < 10 {
      AsciiLen([Digit(n)]);
    } else {
      DecimalLength(n / 10, d - 1);
      BytesConcat(Decimal(n / 10), [Digit(n % 10)]);
      AsciiLen([Digit(n % 10)]);
    }
  }

  lemma {:induction false} AsciiLen(s: string)
    requires forall i :: 0 <= i < |s| ==> s[i] as int < 0x80
    ensures Len(s) == |s|
  {
    if s == [] {
    } else {
      AsciiLen(s[1..]);
    }
  }

  /** The truncation marker's octets: a three-octet ellipsis and twelve ASCII characters. */
  lemma MarkerLen()
    ensures Len(TRUNCATION_MARKER) == 15 && Len(ELIDED_SUFFIX) == 13
  {
    AsciiLen(TRUNCATION_MARKER[1..]);
    AsciiLen(ELIDED_SUFFIX);
    assert Bytes(TRUNCATION_MARKER) == Encode('\U{2026}') + Bytes(TRUNCATION_MARKER[1..]);
  }

  /**
   A truncated line keeps its longest whole-character head within 512 bytes, which is at least 509,
   and the elided count is the rest. No Rust string reaches 2^63 bytes, so it quotes to at most 559.
   */
  lemma CappedLine(line: string)
    requires SERIAL_TAIL_MAX_LINE_BYTES < Len(line)
    ensures Kept(line) < |line|
    ensures 509 <= Len(line[..Kept(line)]) <= 512 < Len(line[..Kept(line) + 1])
    ensures Len(line[..Kept(line)]) + Len(line[Kept(line)..]) == Len(line)
    ensures Len(line) < 0x8000_0000_0000_0000 ==> Len(Capped(line)) <= 559
  {
    HeadIsFull(line);
    hide Kept, Bytes, Capped;
    SplitLen(line, Kept(line));
    if Len(line) < 0x8000_0000_0000_0000 {
      TwentyDigits();
      CappedLen(line, 19);
    }
  }

  lemma HeadIsFull(line: string)
    requires SERIAL_TAIL_MAX_LINE_BYTES < Len(line)
    ensures Kept(line) < |line|
    ensures 509 <= Len(line[..Kept(line)]) <= 512 < Len(line[..Kept(line) + 1])
  {
    KeptIsLongest(line);
    hide Kept, Bytes;
    assert line[..|line|] == line;
  }

  /** The cap is on the quoted head: a quoted line is within 512 bytes exactly when the line itself is. */
  lemma CapHolds(line: string)
    ensures Len(Capped(line)) <= SERIAL_TAIL_MAX_LINE_BYTES <==> Len(line) <= SERIAL_TAIL_MAX_LINE_BYTES
  {
    if Len(line) > SERIAL_TAIL_MAX_LINE_BYTES {
      HeadIsFull(line);
      CappedParts(line);
    }
  }

  function Repeated(c: char, n: nat): (s: string)
    ensures |s| == n && forall i :: 0 <= i < n ==> s[i] == c
  {
    seq(n, i => c)
  }

  /** One byte over the cap, quoted at 541 bytes. */
  lemma OneOverTheCap()
    ensures Len(Repeated('a', 513)) == 513 && Len(Capped(Repeated('a', 513))) == 541
  {
    var line := Repeated('a', 513);
    AsciiLen(line);
    KeptOfAscii(line);
    hide Repeated, Kept, Bytes;
    CappedParts(line);
    AsciiLen(line[..512]);
    AsciiLen(line[512..]);
    AsciiLen("1");
    assert Decimal(1) == "1";
  }

  lemma KeptOfAscii(line: string)
    requires |line| > 512 && forall i :: 0 <= i < |line| ==> line[i] as int < 0x80
    ensures Kept(line) == 512
  {
    KeptIsLongest(line);
    hide Kept, Bytes;
    AsciiLen(line);
    AsciiLen(line[..Kept(line)]);
    if Kept(line) < |line| {
      AsciiLen(line[..Kept(line) + 1]);
    }
  }

  lemma KeptIsLongest(line: string)
    ensures Len(line[..Kept(line)]) <= 512
    ensures Kept(line) < |line| ==> 512 < Len(line[..Kept(line) + 1]) <= Len(line[..Kept(line)]) + 4
  {
    hide Fitting, Bytes;
    FittingIsLongest(line, SERIAL_TAIL_MAX_LINE_BYTES);
  }

  /** The quoted form of an over-long line is its head, 28 bytes of marker and the decimal count. */
  lemma CappedParts(line: string)
    requires SERIAL_TAIL_MAX_LINE_BYTES < Len(line)
    ensures var count := Len(Decimal(Len(line[Kept(line)..])));
            Len(Capped(line)) == Len(line[..Kept(line)]) + 28 + count && count >= 1
  {
    hide Kept, Decimal, Bytes;
    var k := Kept(line);
    var count := Decimal(Len(line[k..]));
    MarkerLen();
    BytesConcat(line[..k] + TRUNCATION_MARKER + count, ELIDED_SUFFIX);
    BytesConcat(line[..k] + TRUNCATION_MARKER, count);
    BytesConcat(line[..k], TRUNCATION_MARKER);
    LenPositive(count);
  }

  lemma LenPositive(s: string)
    requires s != []
    ensures Len(s) >= 1
  {
  }

  lemma CappedLen(line: string, digits: nat)
    requires Len(line[..Kept(line)]) <= 512 < Len(line)
    requires digits > 0 && Len(line[Kept(line)..]) < Pow10(digits)
    ensures Len(Capped(line)) <= 540 + digits
  {
    hide Kept, Decimal, Bytes, Capped, Pow10;
    DecimalLength(Len(line[Kept(line)..]), digits);
    CappedParts(line);
  }

  lemma TwentyDigits()
    ensures Pow10(19) == 10_000_000_000_000_000_000 && Pow10(20) == 100_000_000_000_000_000_000
  {
    assert Pow10(5) == 100_000;
    assert Pow10(10) == 10_000_000_000;
    assert Pow10(15) == 1_000_000_000_000_000;
  }

  lemma LenMonotone(s: string, from: nat, to: nat)
    requires from <= to <= |s|
    ensures Len(s[from..to]) <= Len(s)
  {
    SplitLen(s, to);
    SplitLen(s[..to], from);
    assert s[..to][from..] == s[from..to];
  }

  lemma HeadLineLen(s: string, n: nat)
    requires n <= |s|
    ensures Len(StripCarriageReturn(s[..n])) <= Len(s)
  {
    hide Len;
    var line := s[..n];
    var kept := |StripCarriageReturn(line)|;
    assert s[0..n] == line && line[0..kept] == StripCarriageReturn(line);
    LenMonotone(s, 0, n);
    LenMonotone(line, 0, kept);
  }

  lemma LastLine(s: string)
    requires IndexOf(s, '\n') == |s|
    ensures Lines(s) == if s == [] then [] else [s]
  {
    hide StripCarriageReturn, IndexOf;
  }

  lemma FirstLineAndRest(s: string, n: nat)
    requires n == IndexOf(s, '\n') < |s|
    ensures Lines(s) == [StripCarriageReturn(s[..n])] + Lines(s[n + 1..])
  {
    hide StripCarriageReturn, IndexOf;
  }

  lemma {:induction false} LineLen(s: string, i: nat)
    requires i < |Lines(s)|
    ensures Len(Lines(s)[i]) <= Len(s)
    decreases |s|
  {
    hide Len, IndexOf, StripCarriageReturn, Lines;
    var n := IndexOf(s, '\n');
    if n == |s| {
      LastLine(s);
    } else if i == 0 {
      FirstLineAndRest(s, n);
      HeadLineLen(s, n);
    } else {
      FirstLineAndRest(s, n);
      LineLen(s[n + 1..], i - 1);
      LenMonotone(s, n + 1, |s|);
      assert s[n + 1..|s|] == s[n + 1..];
    }
  }

  lemma {:induction false} NonEmptyFrom(lines: seq<string>) returns (i: nat)
    requires NonEmpty(lines) != []
    ensures i < |lines| && NonEmpty(lines)[|NonEmpty(lines)| - 1] == TrimEnd(lines[i])
  {
    i := |lines| - 1;
    if TrimEnd(lines[i]) == [] {
      i := NonEmptyFrom(lines[..|lines| - 1]);
    }
  }

  /** The newest non-empty line is no longer than the console. */
  lemma NewestLineLen(log: string)
    requires NonEmpty(Lines(log)) != []
    ensures var lines := NonEmpty(Lines(log)); Len(lines[|lines| - 1]) <= Len(log)
  {
    hide Len, Lines, NonEmpty;
    var i := NonEmptyFrom(Lines(log));
    var raw, line := Lines(log)[i], TrimEnd(Lines(log)[i]);
    LineLen(log, i);
    LenMonotone(raw, 0, |line|);
    assert raw[0..|line|] == line;
  }

  lemma CappedFits(line: string)
    requires Len(line) < 0x1_0000_0000_0000_0000
    ensures Len(Capped(line)) <= SERIAL_TAIL_MAX_BYTES
  {
    if Len(line) > SERIAL_TAIL_MAX_LINE_BYTES {
      HeadIsFull(line);
      hide Bytes, Capped, Kept;
      SplitLen(line, Kept(line));
      TwentyDigits();
      CappedLen(line, 20);
    }
  }

  lemma NewestOne(lines: seq<string>)
    requires lines != []
    ensures Total(Newest(lines, 1)) == Len(Capped(lines[|lines| - 1]))
  {
    hide Len, Capped;
    NewestStep(lines, 0);
    assert Newest(lines, 0) == [];
  }

  lemma NewestLineFits(log: string)
    requires NonEmpty(Lines(log)) != [] && Len(log) < 0x1_0000_0000_0000_0000
    ensures WithinBounds(NonEmpty(Lines(log)), 1)
  {
    hide Len, Lines, NonEmpty, Capped, Newest, Total;
    var lines := NonEmpty(Lines(log));
    NewestLineLen(log);
    CappedFits(lines[|lines| - 1]);
    NewestOne(lines);
  }
}
