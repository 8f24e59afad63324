/** Printing and reading unsigned numbers (printnum in 410kern/stdio/doprnt.c, 410kern/stdlib/strtoul.c). */
module NumText {
  import opened Bits

  const MAXBUF: nat := 32  // the bits of a long
  const WORD_RANGE: nat := 0x1_0000_0000
  const DIGS: string := "0123456789abcdef"
  const NUL: char := 0 as char

  /** The value of a digit character, letters in either case from 10 on; -1 for other characters. */
  function DigitOf(c: char): int {
    if '0' <= c <= '9' then c as int - '0' as int
    else if 'a' <= c <= 'z' then c as int - 'a' as int + 10
    else if 'A' <= c <= 'Z' then c as int - 'A' as int + 10
    else -1
  }

  function IsDigit(c: char, base: int): bool { 0 <= DigitOf(c) < base }

  function IsSpace(c: char): bool {
    c == ' ' || c == 12 as char || c == '\n' || c == '\r' || c == '\t' || c == 11 as char
  }

  /** The number that a string of digits stands for. */
  function Value(s: string, base: int): int {
    if s == [] then 0 else Mul(Value(s[..|s| - 1], base), base) + DigitOf(s[|s| - 1])
  }

  function Power(base: int, n: nat): int { if n == 0 then 1 else Mul(base, Power(base, n - 1)) }

  // ---------------------------------------------------------------- arithmetic

  lemma ValueAppend(s: string, c: char, base: int)
    ensures Value(s + [c], base) == Mul(Value(s, base), base) + DigitOf(c)
  {
  }

  lemma {:induction false} ValuePrepend(c: char, s: string, base: int)
    ensures Value([c] + s, base) == Mul(DigitOf(c), Power(base, |s|)) + Value(s, base)
  {
    hide DigitOf, Mul;
    if s == [] {
      assert [c] + s == [] + [c];
      ValueAppend([], c, base);
      MulUnits(DigitOf(c), base);
    } else {
      var init, last := s[..|s| - 1], s[|s| - 1];
      ValuePrepend(c, init, base);
      ValueAppend([c] + init, last, base);
      assert [c] + s == [c] + init + [last];
      MulOverSum(DigitOf(c), Power(base, |init|), Value(init, base), base);
    }
  }

  lemma MulUnits(x: int, y: int)
    ensures Mul(x, 1) == x && Mul(0, y) == 0
  {
  }

  lemma MulOverSum(d: int, p: int, v: int, base: int)
    ensures Mul(Mul(d, p) + v, base) == Mul(d, Mul(base, p)) + Mul(v, base)
  {
  }

  /** One digit split off the low end. */
  lemma SplitDigit(whole: int, u: int, base: int, p: int, v: int, q: int, r: int)
    requires whole == Mul(u, p) + v && u == base * q + r
    ensures whole == Mul(q, Mul(base, p)) + (Mul(r, p) + v)
  {
  }

  lemma Halved(u: nat, base: nat, limit: nat)
    requires u < 2 * limit && base >= 2
    ensures u / base < limit && u == base * (u / base) + u % base
  {
    var q := u / base;
    assert u == base * q + u % base;
    MulMonotone(2, base, q);
  }

  lemma WrapStep(x: int, b: int, d: int, m: nat)
    requires m > 0
    ensures ((x % m) * b + d) % m == (x * b + d) % m
  {
    var q, r := x / m, x % m;
    assert x == m * q + r;
    assert x * b == (m * q) * b + r * b;
    assert (m * q) * b == m * (q * b);
    WrapParts(r * b + d, m, q * b);
  }

  lemma WrapParts(y: int, m: nat, k: int)
    requires m > 0
    ensures (m * k + y) % m == y % m
  {
    var q, r := y / m, y % m;
    assert m * k + y == m * (k + q) + r by { assert m * (k + q) == m * k + m * q; }
    DivModUnique(m * k + y, m, k + q, r);
    DivModUnique(y, m, q, r);
  }

  // ---------------------------------------------------------------- printnum

  /** The text of u: its digits, at most 32 of them, in lower case, the first not 0 unless u is 0. */
  ghost predicate Printed(out: string, u: nat, base: nat) {
    1 <= |out| <= MAXBUF && (forall i :: 0 <= i < |out| ==> IsDigit(out[i], base) && out[i] in DIGS) &&
    Value(out, base) == u && (out[0] == '0' ==> |out| == 1)
  }

  lemma DigsOk(d: nat, base: nat)
    requires d < base <= 16
    ensures DigitOf(DIGS[d]) == d && IsDigit(DIGS[d], base) && DIGS[d] in DIGS && (DIGS[d] == '0' <==> d == 0)
  {
  }

  function LowDigit(u: nat, base: nat): char
    requires 2 <= base <= 16
  {
    DIGS[u % base]
  }

  /** The digits written so far, text, and what is left of the number, u. */
  ghost predicate Writing(num: nat, base: nat, u: nat, p: int, text: string) {
    -1 <= p < MAXBUF && |text| == MAXBUF - 1 - p && u < Pow2(p + 1) && Mul(u, Power(base, |text|)) + Value(text, base) == num &&
    (forall i :: 0 <= i < |text| ==> IsDigit(text[i], base) && text[i] in DIGS) && (num == 0 ==> u == 0)
  }

  lemma WritingStarts(num: nat, base: nat)
    requires num < WORD_RANGE
    ensures Writing(num, base, num, MAXBUF - 1, [])
  {
    WordPowers();
    hide Pow2;
  }

  lemma WritingGoesOn(num: nat, base: nat, u: nat, p: int, text: string)
    requires 2 <= base <= 16 && p >= 0 && Writing(num, base, u, p, text)
    ensures Writing(num, base, Div(u, base), p - 1, [LowDigit(u, base)] + text)
  {
    hide DigitOf, Value, Mul, IsDigit, Pow2;
    var d := u % base;
    var text' := [LowDigit(u, base)] + text;
    DoublePow(p);
    Halved(u, base, Pow2(p));
    DigsOk(d, base);
    ValuePrepend(DIGS[d], text, base);
    SplitDigit(num, u, base, Power(base, |text|), Value(text, base), u / base, d);
    ZeroOver(base);
    forall i | 0 <= i < |text'| ensures IsDigit(text'[i], base) && text'[i] in DIGS {
      if i > 0 {
        assert text'[i] == text[i - 1];
      }
    }
  }

  lemma ZeroOver(base: nat)
    requires base > 0
    ensures 0 / base == 0
  {
  }

  lemma LastDigit(u: nat, base: nat)
    requires 2 <= base <= 16
    ensures Div(u, base) == 0 && LowDigit(u, base) == '0' ==> u == 0
  {
  }

  /** Builds the digits backwards in a 32-character buffer and hands them to putc in order. */
  method Printnum(num: nat, base: nat) returns (out: string)
    requires num < WORD_RANGE && 2 <= base <= 16
    ensures Printed(out, num, base)
  {
    hide Writing, Value, IsDigit, DigitOf, Printed, Pow2, Mul, Div, LowDigit;
    var buf := new char[MAXBUF];
    var p: int := MAXBUF - 1;
    var u: nat := num;
    ghost var text: string := [];
    WritingStarts(num, base);
    while true
      invariant 0 <= p < MAXBUF && buf[p + 1..] == text && Writing(num, base, u, p, text)
      invariant u == 0 ==> text == []
      decreases p
    {
      WritingGoesOn(num, base, u, p, text);
      LastDigit(u, base);
      ghost var before := u;
      buf[p] := LowDigit(u, base);
      text := [LowDigit(u, base)] + text;
      assert buf[p..] == text;
      p := p - 1;
      u := Div(u, base);
      if u == 0 {
        assert text[0] == '0' ==> |text| == 1;
        break;
      }
      StillRoom(num, base, u, p, text);
    }
    WritingEnds(num, base, p, text);
    out := PutAll(buf, p);
  }

  /** Hands the characters after place p to putc, one by one. */
  method PutAll(buf: array<char>, last: int) returns (out: string)
    requires -1 <= last < buf.Length
    ensures out == buf[last + 1..]
  {
    out := [];
    var p := last + 1;
    while p != buf.Length
      invariant last + 1 <= p <= buf.Length && out == buf[last + 1..p]
      decreases buf.Length - p
    {
      out := out + [buf[p]];
      p := p + 1;
    }
  }

  lemma StillRoom(num: nat, base: nat, u: nat, p: int, text: string)
    requires Writing(num, base, u, p, text) && u != 0
    ensures 0 <= p < MAXBUF
  {
  }

  lemma WritingEnds(num: nat, base: nat, p: int, text: string)
    requires Writing(num, base, 0, p, text) && |text| >= 1 && (text[0] == '0' ==> |text| == 1)
    ensures -1 <= p < MAXBUF && Printed(text, num, base)
  {
  }

  // ---------------------------------------------------------------- strtoul

  ghost predicate CString(s: string) { NUL in s }

  ghost predicate HexPrefix(s: string, i: nat) {
    i + 1 < |s| && s[i] == '0' && (s[i + 1] == 'x' || s[i + 1] == 'X')
  }

  /** Where the digits begin and in what base they are read, after skipping leading space up to place i. */
  ghost predicate Begins(s: string, base: int, i: nat, start: nat, radix: int) {
    i < |s| && (forall k :: 0 <= k < i ==> IsSpace(s[k])) && !IsSpace(s[i]) &&
    (if (base == 16 || base == 0) && HexPrefix(s, i) then start == i + 2 && radix == 16
     else start == i && radix == if base != 0 then base else if s[i] == '0' then 8 else 10)
  }

  /** The digits run from start to end, where something else stands, and v is their value modulo 2^32. */
  ghost predicate Parsed(s: string, base: int, i: nat, start: nat, radix: int, end: nat, v: int) {
    Begins(s, base, i, start, radix) && start <= end < |s| && (forall k :: start <= k < end ==> IsDigit(s[k], radix)) &&
    !IsDigit(s[end], radix) && v == Value(s[start..end], radix) % WORD_RANGE
  }

  method Strtoul(s: string, base: int) returns (v: nat, end: nat, ghost i: nat, ghost start: nat, ghost radix: int)
    requires CString(s)
    ensures Parsed(s, base, i, start, radix, end, v)
  {
    hide Value, IsDigit, IsSpace;
    ghost var nul :| 0 <= nul < |s| && s[nul] == NUL;
    NulStops();
    var p := 0;
    while IsSpace(s[p])
      decreases nul - p
      invariant p <= nul && forall k :: 0 <= k < p ==> IsSpace(s[k])
    {
      p := p + 1;
    }
    i := p;
    var b := base;
    if (b == 16 || b == 0) && s[p] == '0' && (s[p + 1] == 'x' || s[p + 1] == 'X') {
      p := p + 2;
      b := 16;
    }
    if b == 0 {
      if s[p] == '0' {
        b := 8;
      } else {
        b := 10;
      }
    }
    start, radix := p, b;
    assert Begins(s, base, i, start, radix);
    v := 0;
    EmptyValue(b);
    while true
      invariant start <= p <= nul && (forall k :: start <= k < p ==> IsDigit(s[k], b)) && b == radix
      invariant s[start..p] + [] == s[start..p] && v == Value(s[start..p], b) % WORD_RANGE
      decreases nul - p
    {
      var c := s[p];
      ReadDigit(s, start, p, b, v);
      if '0' <= c <= '9' && c as int - '0' as int < b {
        v := (v * b + (c as int - '0' as int)) % WORD_RANGE;
      } else if 'a' <= c <= 'z' && c as int - 'a' as int + 10 < b {
        v := (v * b + (c as int - 'a' as int + 10)) % WORD_RANGE;
      } else if 'A' <= c <= 'Z' && c as int - 'A' as int + 10 < b {
        v := (v * b + (c as int - 'A' as int + 10)) % WORD_RANGE;
      } else {
        break;
      }
      p := p + 1;
    }
    end := p;
  }

  lemma NulStops()
    ensures !IsSpace(NUL) && (forall b :: !IsDigit(NUL, b)) && NUL != '0' && NUL != 'x' && NUL != 'X'
  {
  }

  lemma EmptyValue(base: int)
    ensures Value([], base) == 0
  {
  }

  lemma ReadDigit(s: string, start: nat, p: nat, b: int, v: nat)
    requires start <= p < |s| && v == Value(s[start..p], b) % WORD_RANGE
    ensures IsDigit(s[p], b) <==> 0 <= DigitOf(s[p]) < b
    ensures (v * b + DigitOf(s[p])) % WORD_RANGE == Value(s[start..p + 1], b) % WORD_RANGE
  {
    assert s[start..p + 1] == s[start..p] + [s[p]];
    ValueAppend(s[start..p], s[p], b);
    WrapStep(Value(s[start..p], b), b, DigitOf(s[p]), WORD_RANGE);
  }

  // ---------------------------------------------------------------- round trips

  /** Digits that a NUL ends are read to the end, and give their value. */
  lemma ReadsAll(pre: string, out: string, base: int, i: nat, start: nat, radix: int, end: nat, v: int)
    requires Parsed(pre + out + [NUL], base, i, start, radix, end, v) && start == |pre|
    requires forall k :: 0 <= k < |out| ==> IsDigit(out[k], radix)
    ensures end == |pre| + |out| && v == Value(out, radix) % WORD_RANGE
  {
  }

  /** A number's text is not preceded by space, so reading begins with its first character. */
  lemma BeginsHere(s: string, base: int, i: nat, start: nat, radix: int)
    requires Begins(s, base, i, start, radix) && !IsSpace(s[0])
    ensures i == 0
  {
  }

  lemma SmallValue(u: nat)
    requires u < WORD_RANGE
    ensures u % WORD_RANGE == u
  {
  }

  lemma PrintedCharacters(out: string, u: nat, base: nat)
    requires Printed(out, u, base)
    ensures forall k :: 0 <= k < |out| ==> '0' <= out[k] <= '9' || 'a' <= out[k] <= 'f'
  {
    assert forall k :: 0 <= k < |DIGS| ==> '0' <= DIGS[k] <= '9' || 'a' <= DIGS[k] <= 'f';
  }

  /** Reading back a printed number gives the number, and stops at the NUL. */
  lemma RoundTrip(out: string, u: nat, base: nat, i: nat, start: nat, radix: int, end: nat, v: int)
    requires Printed(out, u, base) && u < WORD_RANGE && 2 <= base <= 16
    requires Parsed(out + [NUL], base, i, start, radix, end, v)
    ensures v == u && end == |out|
  {
    hide Value;
    DigitsAreNotSpace(out, base);
    NoPrefix(out, u, base);
    BeginsHere(out + [NUL], base, i, start, radix);
    hide IsSpace, HexPrefix, IsDigit;
    assert [] + out == out;
    ReadsAll([], out, base, i, start, radix, end, v);
    SmallValue(u);
  }

  lemma DigitsAreNotSpace(out: string, base: nat)
    requires forall i :: 0 <= i < |out| ==> IsDigit(out[i], base) && out[i] in DIGS
    ensures forall i :: 0 <= i < |out| ==> !IsSpace(out[i]) && out[i] != 'x' && out[i] != 'X'
  {
  }

  lemma NoPrefix(out: string, u: nat, base: nat)
    requires Printed(out, u, base)
    ensures !HexPrefix(out + [NUL], 0)
  {
  }

  /** Base 0 reads a printed decimal number too: it begins with 0 only when it is 0, and 0 is 0 in octal. */
  lemma DecimalGuessed(out: string, u: nat, i: nat, start: nat, radix: int, end: nat, v: int)
    requires Printed(out, u, 10) && u < WORD_RANGE && Parsed(out + [NUL], 0, i, start, radix, end, v)
    ensures v == u && end == |out|
  {
    hide Value;
    DigitsAreNotSpace(out, 10);
    NoPrefix(out, u, 10);
    BeginsHere(out + [NUL], 0, i, start, radix);
    ZeroText();
    hide IsSpace, HexPrefix, IsDigit;
    assert [] + out == out;
    if out[0] == '0' {
      assert out == ['0'];
    }
    ReadsAll([], out, 0, i, start, radix, end, v);
    SmallValue(u);
  }

  lemma ZeroText()
    ensures IsDigit('0', 8) && Value(['0'], 8) == 0 && Value(['0'], 10) == 0
  {
  }

  /** A printed hexadecimal number after 0x or 0X is read back in base 16, and in base 0. */
  lemma HexRoundTrip(out: string, u: nat, x: char, base: int, i: nat, start: nat, radix: int, end: nat, v: int)
    requires Printed(out, u, 16) && u < WORD_RANGE && (x == 'x' || x == 'X') && (base == 16 || base == 0)
    requires Parsed(['0', x] + out + [NUL], base, i, start, radix, end, v)
    ensures v == u && end == 2 + |out|
  {
    hide Value;
    var s := ['0', x] + out + [NUL];
    ZeroText();
    ZeroNoSpace();
    assert s[0] == '0' && s[1] == x;
    BeginsHere(s, base, i, start, radix);
    hide IsSpace, IsDigit;
    ReadsAll(['0', x], out, base, i, start, radix, end, v);
    SmallValue(u);
  }

  lemma ZeroNoSpace()
    ensures !IsSpace('0')
  {
  }

  // ---------------------------------------------------------------- other spellings

  function Upper(c: char): char { if 'a' <= c <= 'z' then (c as int - 32) as char else c }

  /** The text is the printed one, with any of its letters in upper case. */
  ghost predicate SameLetters(text: string, out: string) {
    |text| == |out| && forall k :: 0 <= k < |out| ==> text[k] == out[k] || text[k] == Upper(out[k])
  }

  ghost predicate Blank(ws: string) { forall k :: 0 <= k < |ws| ==> ws[k] in " \t\n\r\U{B}\U{C}" }

  /** How a number may be marked for a base: not at all, as octal by a 0, or as hexadecimal by 0x or 0X. */
  ghost predicate Marks(head: string, base: int, radix: nat) {
    (head == "" && 2 <= radix <= 16 && base == radix) || (head == "" && base == 0 && radix == 10) ||
    (head == "0" && base == 0 && radix == 8) || ((head == "0x" || head == "0X") && (base == 0 || base == 16) && radix == 16)
  }

  lemma UpperDigit(c: char, radix: nat)
    requires c in DIGS && IsDigit(c, radix)
    ensures DigitOf(Upper(c)) == DigitOf(c) && !IsSpace(c) && !IsSpace(Upper(c)) && (Upper(c) == '0' <==> c == '0')
    ensures Upper(c) != 'x' && Upper(c) != 'X' && c != 'x' && c != 'X'
  {
  }

  lemma {:induction false} SameValue(s: string, t: string, base: int)
    requires |s| == |t| && forall k :: 0 <= k < |s| ==> DigitOf(s[k]) == DigitOf(t[k])
    ensures Value(s, base) == Value(t, base)
  {
    hide DigitOf, Mul;
    if s != [] {
      SameValue(s[..|s| - 1], t[..|t| - 1], base);
    }
  }

  lemma BlankIsSpace(ws: string)
    requires Blank(ws)
    ensures forall k :: 0 <= k < |ws| ==> IsSpace(ws[k])
  {
  }

  /** What the spelling of a printed number shares with it. */
  lemma Spelled(text: string, out: string, u: nat, radix: nat)
    requires SameLetters(text, out) && Printed(out, u, radix) && 2 <= radix <= 16
    ensures |text| > 0 && Value(text, radix) == u && (text[0] == '0' ==> text == "0")
    ensures forall k :: 0 <= k < |text| ==>
      IsDigit(text[k], radix) && !IsSpace(text[k]) && text[k] != 'x' && text[k] != 'X'
  {
    hide DigitOf, IsSpace, Value, Upper;
    forall k | 0 <= k < |out|
      ensures DigitOf(text[k]) == DigitOf(out[k]) && !IsSpace(text[k]) && text[k] != 'x' && text[k] != 'X'
      ensures text[k] == '0' <==> out[k] == '0'
    {
      UpperDigit(out[k], radix);
    }
    SameValue(text, out, radix);
  }

  /** Reading passes over the blanks and no further. */
  lemma BlanksPassed(s: string, n: nat, base: int, i: nat, start: nat, radix: int)
    requires Begins(s, base, i, start, radix) && n < |s| && !IsSpace(s[n]) && forall k :: 0 <= k < n ==> IsSpace(s[k])
    ensures i == n
  {
    hide IsSpace;
  }

  /** Without a mark the digits are read where they begin, in the base asked for; only 0 itself is taken for octal. */
  lemma Unmarked(s: string, text: string, n: nat, base: int, radix: nat, start: nat, r: int)
    requires Begins(s, base, n, start, r) && Marks("", base, radix) && |text| > 0 && n + |text| < |s|
    requires s[n] == text[0] && s[n + 1] != 'x' && s[n + 1] != 'X' && (text[0] == '0' ==> text == "0")
    ensures start == n && (r == radix || (text == "0" && r == 8))
  {
    hide IsSpace;
  }

  lemma ZeroInFront(text: string, radix: nat)
    requires radix > 0
    ensures Value("0" + text, radix) == Value(text, radix) && IsDigit('0', radix) && !IsSpace('0')
  {
    ValuePrepend('0', text, radix);
    hide Value;
  }

  /** A base that is given is the base used, and only for 16 may 0x stand in front of the digits: in any other base
      the text 0x is read as 0, and reading stops at the x. */
  lemma GivenBase(s: string, base: int, i: nat, start: nat, radix: int, end: nat, v: int)
    requires Parsed(s, base, i, start, radix, end, v) && base != 0
    ensures radix == base && (base != 16 ==> start == i)
    ensures 2 <= base < 16 && HexPrefix(s, i) ==> v == 0 && end == i + 1
  {
    if 2 <= base < 16 && HexPrefix(s, i) {
      assert IsDigit(s[i], base) && !IsDigit(s[i + 1], base);
      assert s[start..end] == [] + ['0'];
      ValueAppend([], '0', base);
    }
  }

  /** Whatever blanks stand in front, however its base is marked, and in whichever case its letters are, a printed
      number is read back, and reading stops right after it. */
  lemma AnySpelling(ws: string, head: string, text: string, out: string, u: nat, base: int, i: nat, start: nat,
      radix: nat, r: int, end: nat, v: int)
    requires Blank(ws) && Marks(head, base, radix) && SameLetters(text, out) && Printed(out, u, radix) && u < WORD_RANGE
    requires Parsed(ws + head + text + [NUL], base, i, start, r, end, v)
    ensures v == u && end == |ws| + |head| + |text|
  {
    hide Value, IsDigit, IsSpace, Printed, SameLetters, Blank;
    var s, n := ws + head + text + [NUL], |ws|;
    BlankIsSpace(ws);
    Spelled(text, out, u, radix);
    ZeroInFront(text, radix);
    assert s[n] == (head + text)[0];
    BlanksPassed(s, n, base, i, start, r);
    SmallValue(u);
    if head == "" {
      assert s == ws + text + [NUL] && s[n + 1] == (text + [NUL])[1];
      Unmarked(s, text, n, base, radix, start, r);
      ZeroText();
      ReadsAll(ws, text, base, i, start, r, end, v);
    } else if head == "0" {
      assert s == ws + ("0" + text) + [NUL] && s[n + 1] == text[0];
      ReadsAll(ws, "0" + text, base, i, start, r, end, v);
    } else {
      assert s == (ws + head) + text + [NUL] && s[n + 1] == head[1];
      ReadsAll(ws + head, text, base, i, start, r, end, v);
    }
  }
}
