/** Str::convertAndAddToBuff and Str::addToBuff: a bounded decimal number, copied into a bounded buffer. */
module DecimalBuffer {
  import opened Remainders

  /** Characters available to the number in the ten-byte local buffer. */
  const ROOM := 8

  function Min(a: int, b: int): int { if a <= b then a else b }

  function Digit(d: nat): char
    requires d < 10
  {
    '0' + d as char
  }

  predicate IsDigit(c: char) { '0' <= c <= '9' }

  /** The last `width` decimal digits of n, with leading zeros. */
  function Fixed(n: nat, width: nat): (s: string)
    ensures |s| == width
    ensures forall i | 0 <= i < |s| :: IsDigit(s[i])
    decreases width
  {
    if width == 0 then "" else Fixed(n / 10, width - 1) + [Digit(n % 10)]
  }

  function DigitCount(n: nat): nat {
    if n == 0 then 0 else 1 + DigitCount(n / 10)
  }

  /** The number a digit string denotes. */
  function ValueOf(s: string): nat
    requires forall i | 0 <= i < |s| :: IsDigit(s[i])
  {
    if s == "" then 0
    else
      assert IsDigit(s[|s| - 1]);
      10 * ValueOf(s[..|s| - 1]) + (s[|s| - 1] as int - '0' as int)
  }

  function Pow10(k: nat): (p: nat)
    ensures p > 0
  {
    if k == 0 then 1 else 10 * Pow10(k - 1)
  }

  // ----- what is formatted -----

  /** How many characters are produced. A zero always takes one, even for len <= 0. */
  function Width(n: nat, len: int, zeroPadded: bool): (w: nat)
    ensures w <= ROOM
  {
    var room := if n == 0 && len < 1 then 1 else if len < 0 then 0 else Min(len, ROOM);
    if zeroPadded then room else if n == 0 then 1 else Min(DigitCount(n), room)
  }

  function Formatted(n: nat, len: int, zeroPadded: bool): string {
    Fixed(n, Width(n, len, zeroPadded))
  }

  lemma {:induction false} FixedValue(n: nat, width: nat)
    ensures ValueOf(Fixed(n, width)) == n % Pow10(width)
    decreases width
  {
    if width > 0 {
      var s := Fixed(n, width);
      assert s[..width - 1] == Fixed(n / 10, width - 1);
      FixedValue(n / 10, width - 1);
      ModTimesTen(n, Pow10(width - 1));
    }
  }

  lemma ModTimesTen(n: nat, m: nat)
    requires m > 0
    ensures n % (10 * m) == 10 * (n / 10 % m) + n % 10
  {
    var q, r := n / 10 / m, n / 10 % m;
    assert n / 10 == m * q + r;
    var r' := 10 * r + n % 10;
    assert n == (10 * m) * q + r' by { assert 10 * (m * q) == (10 * m) * q; }
    assert 0 <= r' < 10 * m;
    RemainderUnique(n, 10 * m, q, r');
  }

  /** The zero-padded form is exactly min(len, 8) digits, and denotes n modulo that power of ten. */
  lemma PaddedIsModulo(n: nat, len: int)
    requires len >= 1
    ensures |Formatted(n, len, true)| == Min(len, ROOM)
    ensures ValueOf(Formatted(n, len, true)) == n % Pow10(Min(len, ROOM))
  {
    FixedValue(n, Min(len, ROOM));
  }

  /** Without padding, too, the text denotes n modulo that power of ten, so it is the number exactly when the number
      fits; then it starts with '0' only for zero, which is one digit. */
  lemma {:induction false} UnpaddedIsNumber(n: nat, len: int)
    requires len >= 1
    ensures ValueOf(Formatted(n, len, false)) == n % Pow10(Min(len, ROOM))
    ensures ValueOf(Formatted(n, len, false)) == n <==> n < Pow10(Min(len, ROOM))
    ensures 0 < n < Pow10(Min(len, ROOM)) ==> Formatted(n, len, false)[0] != '0'
    ensures Formatted(0, len, false) == "0"
  {
    var m := Pow10(Min(len, ROOM));
    ZeroIsOneDigit(len);
    if n < m { SmallModulo(n, m); }
    if n > 0 {
      DigitCountBounds(n);
      var d := DigitCount(n);
      FixedValue(n, Min(d, Min(len, ROOM)));
      if d <= Min(len, ROOM) {
        PowMonotone(d, Min(len, ROOM));
        SmallModulo(n, Pow10(d));
        LeadingDigit(n);
      } else {
        PowMonotone(Min(len, ROOM), d - 1);
      }
    }
  }

  lemma ZeroIsOneDigit(len: int)
    ensures Formatted(0, len, false) == "0" && ValueOf("0") == 0
  {
    assert Fixed(0, 1) == Fixed(0, 0) + [Digit(0)];
    assert "0"[..0] == "";
  }

  /** Without room for a digit nothing is written, except that a zero is. */
  lemma NoRoom(n: nat, len: int, zeroPadded: bool)
    requires len <= 0
    ensures Formatted(n, len, zeroPadded) == if n == 0 then "0" else ""
  {
    ZeroIsOneDigit(len);
  }

  lemma SmallModulo(n: nat, m: nat)
    requires n < m
    ensures n % m == n
  {
    RemainderUnique(n, m, 0, n);
  }

  lemma {:induction false} PowMonotone(a: nat, b: nat)
    requires a <= b
    ensures Pow10(a) <= Pow10(b)
  {
    if a < b { PowMonotone(a, b - 1); }
  }

  lemma {:induction false} DigitCountBounds(n: nat)
    requires n > 0
    ensures DigitCount(n) >= 1 && Pow10(DigitCount(n) - 1) <= n < Pow10(DigitCount(n))
  {
    if n >= 10 { DigitCountBounds(n / 10); } else { assert n / 10 == 0; }
  }

  lemma {:induction false} LeadingDigit(n: nat)
    requires n > 0
    ensures Fixed(n, DigitCount(n)) != "" && Fixed(n, DigitCount(n))[0] != '0'
  {
    if n >= 10 {
      LeadingDigit(n / 10);
      assert Fixed(n, DigitCount(n))[0] == Fixed(n / 10, DigitCount(n / 10))[0];
    } else {
      assert n / 10 == 0 && DigitCount(n) == 1;
      assert Fixed(n, 1) == [Digit(n)] by { assert Fixed(n / 10, 0) == ""; }
      assert Digit(n) as int == '0' as int + n;
    }
  }

  // ----- copying -----

  /** The buffer after copying text to [at, lim): the longest prefix that fits, and the terminator if there is
      still room for it. */
  function Copied(buf: string, at: nat, lim: nat, text: string): (r: string)
    requires lim <= |buf|
    ensures |r| == |buf|
    ensures forall i | 0 <= i < |buf| && (i < at || i >= lim) :: r[i] == buf[i]
    ensures at + |text| < lim ==> r[at..at + |text| + 1] == text + ['\0']
    ensures at < lim <= at + |text| ==> r[at..lim] == text[..lim - at]
  {
    if at >= lim then buf
    else if at + |text| < lim then buf[..at] + text + ['\0'] + buf[at + |text| + 1..]
    else buf[..at] + text[..lim - at] + buf[lim..]
  }

  function End(at: nat, lim: nat, text: string): nat {
    if at >= lim then at else Min(at + |text|, lim)
  }

  /** The returned position: nothing is copied at or past the limit; otherwise it is where the copied prefix ends, which
      is before the limit only when the whole text and its terminator were written. */
  lemma EndIsCopied(buf: string, at: nat, lim: nat, text: string)
    requires lim <= |buf|
    ensures at >= lim ==> End(at, lim, text) == at && Copied(buf, at, lim, text) == buf
    ensures at < lim ==>
              var r, buf' := End(at, lim, text), Copied(buf, at, lim, text);
              && at <= r <= lim && r - at <= |text| && buf'[at..r] == text[..r - at]
              && (r < lim ==> r - at == |text| && buf'[r] == '\0')
  {
    if at < lim && at + |text| < lim {
      assert Copied(buf, at, lim, text)[at..at + |text| + 1][..|text|] == text;
    }
  }

  /** addToBuff: `str` is the position of a NUL-terminated string in an array. */
  method AddToBuff(chars: array<char>, str: nat, ghost end: nat, buf: array<char>, at: nat, lim: nat) returns (r: nat)
    requires chars != buf && lim <= buf.Length
    requires str <= end < chars.Length && chars[end] == '\0' && '\0' !in chars[str..end]
    modifies buf
    ensures buf[..] == Copied(old(buf[..]), at, lim, chars[str..end])
    ensures r == End(at, lim, chars[str..end])
    ensures at >= lim ==> r == at
    ensures at < lim ==>
              at <= r <= lim && r - at <= end - str && buf[at..r] == chars[str..str + (r - at)]
              && (r < lim ==> r - at == end - str && buf[r] == '\0')
  {
    ghost var text := chars[str..end];
    ghost var before := buf[..];
    var p := str;
    r := at;
    while r < lim
      invariant str <= p <= end && r == at + (p - str) && if at < lim then r <= lim else p == str
      invariant CopiedUpTo(before, at, text, r, buf[..])
      decreases end - p
    {
      buf[r] := chars[p];
      if chars[p] == '\0' {
        TextHasNoNul(text, p - str);
        TerminatorWritten(before, at, lim, text, buf[..]);
        EndIsCopied(before, at, lim, text);
        return;
      }
      p := p + 1;
      r := r + 1;
    }
    LimitReached(before, at, lim, text, r, buf[..]);
    EndIsCopied(before, at, lim, text);
  }

  /** text[..r - at] has been written at [at, r), and nothing else. */
  ghost predicate CopiedUpTo(before: string, at: nat, text: string, r: nat, buf: string) {
    && |buf| == |before| && at <= r <= at + |text|
    && forall i | 0 <= i < |buf| :: buf[i] == if at <= i < r then text[i - at] else before[i]
  }

  lemma TextHasNoNul(text: string, i: nat)
    requires '\0' !in text && i <= |text|
    ensures i < |text| ==> text[i] != '\0'
  {
  }

  lemma TerminatorWritten(before: string, at: nat, lim: nat, text: string, buf: string)
    requires lim <= |before| && at + |text| < lim && |buf| == |before|
    requires forall i | 0 <= i < |buf| ::
               buf[i] == if i == at + |text| then '\0' else if at <= i < at + |text| then text[i - at] else before[i]
    ensures buf == Copied(before, at, lim, text)
  {
  }

  lemma LimitReached(before: string, at: nat, lim: nat, text: string, r: nat, buf: string)
    requires lim <= |before| && CopiedUpTo(before, at, text, r, buf) && r == if at < lim then lim else at
    ensures buf == Copied(before, at, lim, text)
  {
  }

  /** The digits of n, written downwards from position 8 of the local buffer: `p` is where they start, and
      `left` what is left of len. */
  method WriteDigits(n: nat, len: int) returns (localBuff: array<char>, p: nat, left: int)
    ensures fresh(localBuff) && localBuff.Length == 10 && p <= ROOM && localBuff[8] == '\0'
    ensures ROOM - p == Width(n, len, false) && left == len - (ROOM - p)
    ensures localBuff[p..8] == Formatted(n, len, false)
    ensures p > 0 && left > 0 ==> Shift(n, ROOM - p) == 0
  {
    hide Fixed, Shift, DigitCount;
    NoDigitsYet(n);
    localBuff := new char[10](_ => '\0');
    p := ROOM;
    left := len;
    if n > 0 {
      var rest := n;
      while rest > 0 && p > 0 && left > 0
        invariant 0 <= p <= ROOM && localBuff[8] == '\0'
        invariant left == len - (ROOM - p) && (p < ROOM ==> left >= 0)
        invariant localBuff[p..8] == Fixed(n, ROOM - p) && rest == Shift(n, ROOM - p)
        invariant DigitCount(n) == DigitCount(rest) + (ROOM - p)
        decreases p
      {
        ShiftStep(n, ROOM - p);
        p := p - 1;
        localBuff[p] := Digit(rest % 10);
        assert localBuff[p..8] == [localBuff[p]] + localBuff[p + 1..8];
        rest := rest / 10;
        left := left - 1;
      }
    } else {
      p := p - 1;
      localBuff[p] := '0';
      left := left - 1;
      ShiftStep(n, 0);
      assert localBuff[p..8] == [localBuff[p]] + localBuff[p + 1..8];
    }
  }

  method FillLocal(n: nat, len: int, zeroPadded: bool) returns (localBuff: array<char>, p: nat)
    ensures fresh(localBuff) && localBuff.Length == 10 && p <= ROOM && localBuff[8] == '\0'
    ensures localBuff[p..8] == Formatted(n, len, zeroPadded)
  {
    hide Fixed, Shift, DigitCount;
    var left;
    localBuff, p, left := WriteDigits(n, len);
    if zeroPadded {
      while p > 0 && left > 0
        invariant 0 <= p <= ROOM && localBuff[8] == '\0'
        invariant left == len - (ROOM - p)
        invariant left >= 0 || ROOM - p == Width(n, len, false)
        invariant ROOM - p >= Width(n, len, false)
        invariant localBuff[p..8] == Fixed(n, ROOM - p)
        invariant p > 0 && left > 0 ==> Shift(n, ROOM - p) == 0
        decreases p
      {
        ShiftStep(n, ROOM - p);
        p := p - 1;
        localBuff[p] := '0';
        assert localBuff[p..8] == [localBuff[p]] + localBuff[p + 1..8];
        left := left - 1;
      }
    }
  }

  method ConvertAndAddToBuff(n: nat, len: int, buf: array<char>, at: nat, lim: nat, zeroPadded: bool := true)
    returns (r: nat)
    requires lim <= buf.Length
    modifies buf
    ensures buf[..] == Copied(old(buf[..]), at, lim, Formatted(n, len, zeroPadded))
    ensures r == End(at, lim, Formatted(n, len, zeroPadded))
  {
    var localBuff, p := FillLocal(n, len, zeroPadded);
    DigitsAreNotNul(localBuff[p..8]);
    r := AddToBuff(localBuff, p, 8, buf, at, lim);
  }

  lemma DigitsAreNotNul(s: string)
    requires forall i | 0 <= i < |s| :: IsDigit(s[i])
    ensures '\0' !in s
  {
  }

  /** n after dropping k decimal digits. */
  function Shift(n: nat, k: nat): nat
    decreases k
  {
    if k == 0 then n else Shift(n, k - 1) / 10
  }

  /** One more digit in front. */
  lemma {:induction false} ShiftStep(n: nat, k: nat)
    ensures Fixed(n, k + 1) == [Digit(Shift(n, k) % 10)] + Fixed(n, k)
    ensures Shift(n, k + 1) == Shift(n, k) / 10
    ensures Shift(n, k) > 0 ==> DigitCount(Shift(n, k)) == 1 + DigitCount(Shift(n, k) / 10)
    decreases k
  {
    if k == 0 {
      assert Fixed(n / 10, 0) == "" && Fixed(n, 0) == "";
    } else {
      ShiftStep(n / 10, k - 1);
      ShiftOfQuotient(n, k - 1);
    }
  }

  lemma NoDigitsYet(n: nat)
    ensures Fixed(n, 0) == "" && Shift(n, 0) == n && DigitCount(0) == 0
  {
  }

  lemma {:induction false} ShiftOfQuotient(n: nat, k: nat)
    ensures Shift(n / 10, k) == Shift(n, k + 1)
    decreases k
  {
    if k > 0 { ShiftOfQuotient(n, k - 1); }
  }
}
