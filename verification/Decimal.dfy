/** Printing an integer in decimal and reading one from the keyboard. */
module Decimal {
  import opened Machine

  // ----- numerals -----

  function Digit(d: int): (c: char)
    requires 0 <= d < 10
    ensures '0' <= c <= '9' && c as int - '0' as int == d
  {
    ('0' as int + d) as char
  }

  /** The decimal numeral of a natural number, without leading zeros. */
  function Digits(n: nat): (s: string)
    ensures |s| > 0
  {
    if n < 10 then [Digit(n)] else Digits(n / 10) + [Digit(n % 10)]
  }

  function Numeral(n: int): string {
    if n < 0 then "-" + Digits(-n) else Digits(n)
  }

  /** The digits left to print once the lower ones have been split off. */
  function Upper(n: nat): string {
    if n == 0 then [] else Digits(n)
  }

  lemma SplitDigit(n: nat)
    ensures Digits(n) == Upper(n / 10) + [Digit(n % 10)]
  {
    if n < 10 {
      assert n / 10 == 0 && n % 10 == n;
    }
  }

  lemma {:induction false} DigitsBound(n: nat, bound: nat, k: nat)
    requires k > 0 && n < bound && bound == Power10(k)
    ensures |Digits(n)| <= k
    decreases k
  {
    assert Power10(1) == 10;
    if n >= 10 && k > 1 {
      assert Power10(k) == 10 * Power10(k - 1);
      DigitsBound(n / 10, Power10(k - 1), k - 1);
    }
  }

  function Power10(k: nat): (p: nat)
    ensures p > 0
  {
    if k == 0 then 1 else 10 * Power10(k - 1)
  }

  /** A positive 32-bit number has at most ten digits, so the printer's twenty suffice. */
  lemma TenDigits(n: nat)
    requires n < TWO_31
    ensures |Digits(n)| <= 10
  {
    assert Power10(10) == 10_000_000_000;
    DigitsBound(n, Power10(10), 10);
  }

  // ----- printing -----

  /** The last k characters of s, or all of them. */
  function Tail(s: string, k: nat): string {
    if |s| <= k then s else s[|s| - k..]
  }

  function AtLeastOne(k: int): nat {
    if k < 1 then 1 else k
  }

  /** What is printed with room for `size` characters: low digits win when there are too many. */
  function Printed(num: int, size: int): string {
    if num < 0 then "-" + Tail(Digits(-num), AtLeastOne(size - 1)) else Tail(Digits(num), AtLeastOne(size))
  }

  /** With room for eleven characters every printable number comes out whole. */
  lemma PrintedWhole(num: int, size: int)
    requires -TWO_31 < num < TWO_31 && size >= 11
    ensures Printed(num, size) == Numeral(num)
  {
    TenDigits(if num < 0 then -num else num);
  }

  /** The numeral comes out whole if and only if there is room for it; one digit always fits. */
  lemma PrintedWholeIff(num: int, size: int)
    ensures Printed(num, size) == Numeral(num) <==> |Numeral(num)| <= size || -10 < num < 10
  {
  }

  /**
   The text and its NUL stay within the given size if and only if the numeral is shorter than it;
   a call that cuts the numeral to a size of at least 2 writes one character beyond the size.
   */
  lemma PrinterFitsIff(num: int, size: int)
    ensures |Printed(num, size)| + 1 <= size <==> |Numeral(num)| < size
    ensures size >= 2 && |Numeral(num)| >= size ==> |Printed(num, size)| + 1 == size + 1
  {
  }

  function Reversed(s: string): (r: string)
    ensures |r| == |s|
  {
    if s == [] then [] else Reversed(s[1..]) + [s[0]]
  }

  lemma {:induction false} ReversedSnoc(s: string, c: char)
    ensures Reversed(s + [c]) == [c] + Reversed(s)
    decreases |s|
  {
    if s == [] {
      assert s + [c] == [c];
    } else {
      assert (s + [c])[1..] == s[1..] + [c];
      ReversedSnoc(s[1..], c);
    }
  }

  lemma {:induction false} ReversedAt(s: string, k: nat)
    requires k < |s|
    ensures Reversed(s)[k] == s[|s| - 1 - k]
    decreases |s|
  {
    if k < |s| - 1 {
      ReversedAt(s[1..], k);
    }
  }

  /** One round of the division loop moves the lowest digit from the number to the text. */
  lemma NextDigit(all: string, num: nat, done: string)
    requires all == Digits(num) + Reversed(done)
    ensures all == Upper(num / 10) + Reversed(done + [Digit(num % 10)])
    ensures |done| < |all|
  {
    SplitDigit(num);
    ReversedSnoc(done, Digit(num % 10));
    Associative(Upper(num / 10), [Digit(num % 10)], Reversed(done));
  }

  lemma Associative(a: string, b: string, c: string)
    ensures (a + b) + c == a + (b + c)
  {
  }

  lemma EnoughDigits(all: string, num: nat, done: string, size: int)
    requires all == Upper(num) + Reversed(done) && 0 < |done| <= AtLeastOne(size)
    requires num == 0 || |done| >= size
    ensures Reversed(done) == Tail(all, AtLeastOne(size))
  {
  }

  /** The division loop: digits of num into temp, lowest first, at least one and at most `size`. */
  method SplitDigits(n: nat, size: int, temp: array<char>) returns (count: nat)
    requires n < TWO_31 && temp.Length == 20
    modifies temp
    ensures 0 < count <= 20 && Reversed(temp[..count]) == Tail(Digits(n), AtLeastOne(size))
  {
    var num := n;
    count := 0;
    TenDigits(n);
    var more := true;
    while more
      invariant 0 <= num && count <= |Digits(n)| <= 10
      invariant Digits(n) == (if more then Digits(num) else Upper(num)) + Reversed(temp[..count])
      invariant more || num == 0 || count >= size
      invariant count <= AtLeastOne(size) && (more && count > 0 ==> count < size) && (!more ==> count > 0)
      decreases 10 - count, more
    {
      NextDigit(Digits(n), num, temp[..count]);
      temp[count] := Digit(num % 10);
      assert temp[..count + 1] == temp[..count] + [Digit(num % 10)];
      count := count + 1;
      num := num / 10;
      more := num != 0 && count < size;
    }
    EnoughDigits(Digits(n), num, temp[..count], size);
  }

  /** The copying loop: temp's characters in reverse, from position `at` of the buffer on. */
  method CopyReversed(temp: array<char>, count: nat, buffer: array<char>, at: nat)
    requires count <= temp.Length && at + count <= buffer.Length && temp != buffer
    modifies buffer
    ensures buffer[at..at + count] == Reversed(temp[..count])
    ensures forall k :: 0 <= k < buffer.Length && !(at <= k < at + count) ==> buffer[k] == old(buffer[k])
  {
    var pos := at;
    var i := count - 1;
    while i >= 0
      invariant -1 <= i < count && pos == at + (count - 1 - i)
      invariant forall k :: at <= k < pos ==> buffer[k] == temp[count - 1 - (k - at)]
      invariant forall k :: 0 <= k < buffer.Length && !(at <= k < pos) ==> buffer[k] == old(buffer[k])
    {
      buffer[pos] := temp[i];
      pos := pos + 1;
      i := i - 1;
    }
    forall k | 0 <= k < count
      ensures buffer[at..at + count][k] == Reversed(temp[..count])[k]
    {
      ReversedAt(temp[..count], k);
    }
  }

  /** The buffer receives the text and a final NUL; the rest of it is untouched. */
  method IntToString(num: int, buffer: array<char>, bufferSize: int)
    requires -TWO_31 < num < TWO_31 && |Printed(num, bufferSize)| < buffer.Length
    modifies buffer
    ensures buffer[..|Printed(num, bufferSize)| + 1] == Printed(num, bufferSize) + ['\0']
    ensures forall k :: |Printed(num, bufferSize)| < k < buffer.Length ==> buffer[k] == old(buffer[k])
  {
    var n, size, at := num, bufferSize, 0;
    ghost var text := Printed(num, bufferSize);
    if n < 0 {
      n := -n;
      buffer[at] := '-';
      at := at + 1;
      size := size - 1;
    }
    assert text == buffer[..at] + Tail(Digits(n), AtLeastOne(size));
    var temp := new char[20](_ => ' ');
    var count := SplitDigits(n, size, temp);
    ghost var sign := buffer[..at];
    CopyReversed(temp, count, buffer, at);
    assert buffer[..at] == sign;
    ghost var written := buffer[..];
    Joined(written, at, at + count);
    assert written[..at + count] == text by {
      assert written[..at] == sign && written[at..at + count] == Tail(Digits(n), AtLeastOne(size));
    }
    buffer[at + count] := '\0';
    assert buffer[..] == written[at + count := '\0'];
    WithNul(written, at + count);
  }

  lemma Joined(s: string, a: nat, b: nat)
    requires a <= b <= |s|
    ensures s[..a] + s[a..b] == s[..b]
  {
  }

  lemma WithNul(s: string, k: nat)
    requires k < |s|
    ensures s[k := '\0'][..k + 1] == s[..k] + ['\0']
  {
  }

  // ----- reading -----

  datatype Reader = Reader(value: int, completed: bool, negative: bool)

  const FRESH := Reader(0, false, false)

  predicate IsDigit(c: char) {
    '0' <= c <= '9'
  }

  function DigitValue(c: char): int {
    c as int - '0' as int
  }

  /** One key; `int` arithmetic wraps at 32 bits. */
  function Key(r: Reader, c: char): Reader {
    if r.completed then r
    else if c == '\n' then r.(value := if r.negative then I32(-r.value) else r.value, completed := true)
    else if c == '-' && r.value == 0 && !r.negative then r.(negative := true)
    else if IsDigit(c) then r.(value := I32(I32(r.value * 10) + DigitValue(c)))
    else r
  }

  function Keys(r: Reader, s: string): Reader
    decreases |s|
  {
    if s == [] then r else Keys(Key(r, s[0]), s[1..])
  }

  lemma {:induction false} KeysConcat(r: Reader, a: string, b: string)
    ensures Keys(r, a + b) == Keys(Keys(r, a), b)
    decreases |a|
  {
    if a == [] {
      assert a + b == b;
    } else {
      assert (a + b)[1..] == a[1..] + b;
      KeysConcat(Key(r, a[0]), a[1..], b);
    }
  }

  /** No signed operation the key triggers leaves the 32-bit range. */
  predicate KeyFits(r: Reader, c: char) {
    !r.completed ==>
      && (c == '\n' && r.negative ==> IsI32(-r.value))
      && (IsDigit(c) ==> IsI32(r.value * 10) && IsI32(r.value * 10 + DigitValue(c)))
  }

  ghost predicate KeysFit(r: Reader, s: string)
    decreases |s|
  {
    s == [] || (KeyFits(r, s[0]) && KeysFit(Key(r, s[0]), s[1..]))
  }

  lemma {:induction false} KeysFitConcat(r: Reader, a: string, b: string)
    requires KeysFit(r, a) && KeysFit(Keys(r, a), b)
    ensures KeysFit(r, a + b)
    decreases |a|
  {
    if a == [] {
      assert a + b == b;
    } else {
      assert (a + b)[0] == a[0] && (a + b)[1..] == a[1..] + b;
      KeysFitConcat(Key(r, a[0]), a[1..], b);
    }
  }

  /** Reading the numeral of n leaves n, without overflow on the way. */
  lemma {:induction false} ReadDigits(n: nat, negative: bool)
    requires n < TWO_31
    ensures Keys(Reader(0, false, negative), Digits(n)) == Reader(n, false, negative)
    ensures KeysFit(Reader(0, false, negative), Digits(n))
    decreases n
  {
    var r, c := Reader(0, false, negative), Digit(n % 10);
    if n < 10 {
      assert Digits(n) == [c];
      ReadOne(r, c);
    } else {
      ReadDigits(n / 10, negative);
      ReadOne(Reader(n / 10, false, negative), c);
      KeysConcat(r, Digits(n / 10), [c]);
      KeysFitConcat(r, Digits(n / 10), [c]);
    }
  }

  /** A digit that keeps the value in range is appended to it. */
  lemma DigitKey(r: Reader, c: char)
    requires !r.completed && 0 <= r.value && IsDigit(c) && r.value * 10 + DigitValue(c) < TWO_31
    ensures Key(r, c) == r.(value := r.value * 10 + DigitValue(c)) && KeyFits(r, c)
  {
    NoWrap(r.value * 10);
    NoWrap(r.value * 10 + DigitValue(c));
  }

  lemma ReadOne(r: Reader, c: char)
    requires !r.completed && 0 <= r.value && IsDigit(c) && r.value * 10 + DigitValue(c) < TWO_31
    ensures Keys(r, [c]) == r.(value := r.value * 10 + DigitValue(c)) && KeysFit(r, [c])
  {
    DigitKey(r, c);
    OneKey(r, c);
  }

  lemma NoWrap(x: int)
    requires IsI32(x)
    ensures I32(x) == x
  {
  }

  lemma OneKey(r: Reader, c: char)
    ensures Keys(r, [c]) == Key(r, c) && (KeysFit(r, [c]) <==> KeyFits(r, c))
  {
    assert [c][1..] == [];
    assert Keys(Key(r, c), []) == Key(r, c);
  }

  /** Typing the numeral of n and Enter yields n, and nothing overflows. */
  lemma NumeralReads(n: int)
    requires -TWO_31 < n < TWO_31
    ensures Keys(FRESH, Numeral(n) + ['\n']) == Reader(n, true, n < 0)
    ensures KeysFit(FRESH, Numeral(n) + ['\n'])
  {
    var m := if n < 0 then -n else n;
    var r := Reader(m, false, n < 0);
    ReadDigits(m, n < 0);
    if n < 0 {
      ReadMinus(Digits(m));
    }
    assert Keys(FRESH, Numeral(n)) == r && KeysFit(FRESH, Numeral(n));
    KeysConcat(FRESH, Numeral(n), ['\n']);
    ReadEnter(r);
    KeysFitConcat(FRESH, Numeral(n), ['\n']);
  }

  lemma ReadMinus(s: string)
    ensures Keys(FRESH, "-" + s) == Keys(Reader(0, false, true), s)
    ensures KeysFit(Reader(0, false, true), s) ==> KeysFit(FRESH, "-" + s)
  {
    assert ("-" + s)[0] == '-' && ("-" + s)[1..] == s;
  }

  lemma ReadEnter(r: Reader)
    requires !r.completed && IsI32(-r.value) && IsI32(r.value)
    ensures Keys(r, ['\n']) == Reader(if r.negative then -r.value else r.value, true, r.negative)
    ensures KeysFit(r, ['\n'])
  {
    NoWrap(-r.value);
    OneKey(r, '\n');
  }

  // ----- what any sequence of keys means -----

  /** The decimal value of the digits among the keys; other keys do not count. */
  function TypedValue(s: string): nat {
    if s == [] then 0
    else
      var before, c := TypedValue(s[..|s| - 1]), s[|s| - 1];
      if '0' <= c <= '9' then before * 10 + (c as int - '0' as int) else before
  }

  /** A minus was typed before any digit but 0. */
  ghost predicate MinusTyped(s: string) {
    exists i :: 0 <= i < |s| && s[i] == '-' && TypedValue(s[..i]) == 0
  }

  lemma OneMoreKey(s: string, c: char)
    ensures TypedValue(s + [c]) ==
            if '0' <= c <= '9' then TypedValue(s) * 10 + (c as int - '0' as int) else TypedValue(s)
    ensures MinusTyped(s + [c]) <==> MinusTyped(s) || (c == '-' && TypedValue(s) == 0)
  {
    var t := s + [c];
    assert t[..|t| - 1] == s;
    forall i | 0 <= i < |s|
      ensures t[i] == s[i] && t[..i] == s[..i]
    {
    }
    if c == '-' && TypedValue(s) == 0 {
      assert t[|s|] == '-' && t[..|s|] == s;
    }
  }

  lemma TypedKey(s: string, c: char)
    requires c != '\n' && TypedValue(s + [c]) < TWO_31
    ensures TypedValue(s) < TWO_31
    ensures var r := Reader(TypedValue(s), false, MinusTyped(s));
            Key(r, c) == Reader(TypedValue(s + [c]), false, MinusTyped(s + [c])) && KeyFits(r, c)
  {
    OneMoreKey(s, c);
    if IsDigit(c) {
      DigitKey(Reader(TypedValue(s), false, MinusTyped(s)), c);
    }
  }

  /**
   Whatever keys are typed before Enter, as long as their digits make a number below 2^31, the reader
   holds that number, and is negative if and only if a minus came before any digit but 0.
   */
  lemma {:induction false} TypedMeaning(s: string)
    requires '\n' !in s && TypedValue(s) < TWO_31
    ensures Keys(FRESH, s) == Reader(TypedValue(s), false, MinusTyped(s)) && KeysFit(FRESH, s)
    decreases |s|
  {
    if s != [] {
      var t, c := s[..|s| - 1], s[|s| - 1];
      assert s == t + [c] && c in s;
      TypedKey(t, c);
      TypedMeaning(t);
      KeysConcat(FRESH, t, [c]);
      OneKey(Reader(TypedValue(t), false, MinusTyped(t)), c);
      KeysFitConcat(FRESH, t, [c]);
    }
  }

  /** Enter completes the reading with that number, negated if it is negative. */
  lemma EnterMeaning(s: string)
    requires '\n' !in s && TypedValue(s) < TWO_31
    ensures Keys(FRESH, s + ['\n']) ==
            Reader(if MinusTyped(s) then 0 - TypedValue(s) else TypedValue(s), true, MinusTyped(s))
    ensures KeysFit(FRESH, s + ['\n'])
  {
    TypedMeaning(s);
    KeysConcat(FRESH, s, ['\n']);
    ReadEnter(Reader(TypedValue(s), false, MinusTyped(s)));
    KeysFitConcat(FRESH, s, ['\n']);
  }

  // ----- print, then read -----

  lemma {:induction false} PowerGrows(j: nat, k: nat)
    requires j <= k
    ensures 0 < Power10(j) <= Power10(k)
    decreases k
  {
    if j < k {
      PowerGrows(j, k - 1);
    } else if k > 0 {
      PowerGrows(0, k - 1);
    }
  }

  lemma {:induction false} DigitsAreDigits(n: nat)
    ensures forall c :: c in Digits(n) ==> IsDigit(c)
    decreases n
  {
    if n >= 10 {
      DigitsAreDigits(n / 10);
    }
  }

  /** No numeral but that of 0 has a leading zero. */
  lemma {:induction false} NoLeadingZero(n: nat)
    requires 0 < n
    ensures Power10(|Digits(n)| - 1) <= n
    decreases n
  {
    if n >= 10 {
      NoLeadingZero(n / 10);
      assert Power10(|Digits(n)| - 1) == 10 * Power10(|Digits(n)| - 2);
    } else {
      assert Power10(0) == 1;
    }
  }

  lemma MulBounds(d: int, m: nat)
    ensures d >= 1 ==> d * m >= m
    ensures d <= -1 ==> d * m <= 0 - m
  {
  }

  lemma ModUnique(n: nat, m: nat, q: nat, r: nat)
    requires n == q * m + r && r < m
    ensures n % m == r
  {
    assert n == n / m * m + n % m;
    assert (n / m - q) * m == r - n % m;
    MulBounds(n / m - q, m);
  }

  lemma LowDigits(n: nat, p: nat)
    requires p > 0
    ensures n % (10 * p) == n / 10 % p * 10 + n % 10
  {
    var a, b := n / 10, n % 10;
    var q, r := a / p, a % p;
    assert a == q * p + r && n == 10 * a + b;
    assert n == q * (10 * p) + (r * 10 + b);
    ModUnique(n, 10 * p, q, r * 10 + b);
  }

  lemma LastDigit(d: int)
    requires 0 <= d < 10
    ensures TypedValue([Digit(d)]) == d
  {
    OneMoreKey([], Digit(d));
    assert [] + [Digit(d)] == [Digit(d)];
  }

  lemma TailSnoc(n: nat, k: nat)
    requires n >= 10 && k > 1
    ensures Tail(Digits(n), k) == Tail(Digits(n / 10), k - 1) + [Digit(n % 10)]
  {
  }

  lemma SmallRemainder(n: nat, p: nat)
    requires n < p
    ensures n % p == n
  {
  }

  lemma {:induction false} TailValue(n: nat, k: nat)
    requires k > 0
    ensures TypedValue(Tail(Digits(n), k)) == n % Power10(k)
    decreases n
  {
    PowerGrows(1, k);
    assert Power10(1) == 10;
    LastDigit(n % 10);
    if n < 10 {
      SmallRemainder(n, Power10(k));
    } else if k == 1 {
      assert Tail(Digits(n), 1) == [Digit(n % 10)];
    } else {
      TailValue(n / 10, k - 1);
      TailSnoc(n, k);
      OneMoreKey(Tail(Digits(n / 10), k - 1), Digit(n % 10));
      LowDigits(n, Power10(k - 1));
    }
  }

  lemma {:induction false} MinusFirst(s: string)
    ensures TypedValue("-" + s) == TypedValue(s)
    decreases |s|
  {
    if s == [] {
      assert "-" + s == [] + ['-'];
      OneMoreKey([], '-');
    } else {
      var t, c := s[..|s| - 1], s[|s| - 1];
      assert s == t + [c] && "-" + s == ("-" + t) + [c];
      MinusFirst(t);
      OneMoreKey(t, c);
      OneMoreKey("-" + t, c);
    }
  }

  /**
   What is printed for n with room for k digits, read back, is n without its upper digits: the remainder
   of its absolute value by 10^k, with the sign of n.
   */
  lemma PrintedReadsLowDigits(n: int, size: int)
    requires -TWO_31 < n < TWO_31
    ensures var m, room := if n < 0 then -n else n, if n < 0 then size - 1 else size;
            var low := m % Power10(if room < 1 then 1 else room);
            Keys(FRESH, Printed(n, size) + ['\n']) == Reader(if n < 0 then -low else low, true, n < 0)
    ensures KeysFit(FRESH, Printed(n, size) + ['\n'])
  {
    var m, k, s := if n < 0 then -n else n, AtLeastOne(if n < 0 then size - 1 else size), Printed(n, size);
    var t := Tail(Digits(m), k);
    TailValue(m, k);
    TailIsDigits(m, k);
    RemainderBelow(m, Power10(k));
    if n < 0 {
      MinusFirst(t);
      assert s[0] == '-' && TypedValue(s[..0]) == 0;
    }
    EnterMeaning(s);
  }

  lemma TailIsDigits(n: nat, k: nat)
    ensures forall i :: 0 <= i < |Tail(Digits(n), k)| ==> IsDigit(Tail(Digits(n), k)[i])
    ensures '\n' !in Tail(Digits(n), k) && '\n' !in "-" + Tail(Digits(n), k) && !MinusTyped(Tail(Digits(n), k))
  {
    DigitsAreDigits(n);
    var t := Tail(Digits(n), k);
    forall i | 0 <= i < |t|
      ensures IsDigit(t[i])
    {
      assert t[i] in Digits(n);
    }
  }

  lemma RemainderBelow(m: nat, p: nat)
    requires p > 0
    ensures m % p <= m
  {
  }

  /** A numeral that has lost its upper digits reads as another number. */
  lemma CutPrintMisread(n: int, size: int)
    requires -TWO_31 < n < TWO_31 && Printed(n, size) != Numeral(n)
    ensures Keys(FRESH, Printed(n, size) + ['\n']).value != n
  {
    var m, k := if n < 0 then -n else n, AtLeastOne(if n < 0 then size - 1 else size);
    PrintedReadsLowDigits(n, size);
    NoLeadingZero(m);
    PowerGrows(k, |Digits(m)| - 1);
    assert m % Power10(k) < Power10(k) <= m;
  }

  /**
   Print then read: typing what is printed for n and Enter yields n if and only if the numeral fits
   the given size or is a single digit.
   */
  lemma PrintReadRoundTripIff(n: int, size: int)
    requires -TWO_31 < n < TWO_31
    ensures Keys(FRESH, Printed(n, size) + ['\n']) == Reader(n, true, n < 0) <==>
            |Numeral(n)| <= size || -10 < n < 10
  {
    PrintedWholeIff(n, size);
    if Printed(n, size) == Numeral(n) {
      NumeralReads(n);
    } else {
      CutPrintMisread(n, size);
    }
  }

  /** With room for eleven characters the round trip is exact for every n, and nothing overflows. */
  lemma PrintReadRoundTrip(n: int, size: int)
    requires -TWO_31 < n < TWO_31 && size >= 11
    ensures Keys(FRESH, Printed(n, size) + ['\n']) == Reader(n, true, n < 0)
    ensures KeysFit(FRESH, Printed(n, size) + ['\n'])
  {
    PrintedWhole(n, size);
    NumeralReads(n);
  }

  // ----- keys without effect -----

  /** The keys that can matter: digits, minus and Enter. */
  function Relevant(s: string): string {
    if s == [] then []
    else (if IsDigit(s[0]) || s[0] == '-' || s[0] == '\n' then [s[0]] else []) + Relevant(s[1..])
  }

  /** Other keys, wherever they are typed, change nothing. */
  lemma {:induction false} OtherKeysIgnored(r: Reader, s: string)
    ensures Keys(r, s) == Keys(r, Relevant(s))
    decreases |s|
  {
    if s != [] {
      OtherKeysIgnored(Key(r, s[0]), s[1..]);
      if IsDigit(s[0]) || s[0] == '-' || s[0] == '\n' {
        assert Relevant(s)[0] == s[0] && Relevant(s)[1..] == Relevant(s[1..]);
      } else {
        assert Relevant(s) == Relevant(s[1..]);
      }
    }
  }

  /** Keys typed after Enter change nothing until the next reset. */
  lemma {:induction false} CompletedIsFinal(r: Reader, s: string)
    requires r.completed
    ensures Keys(r, s) == r
    decreases |s|
  {
    if s != [] {
      CompletedIsFinal(r, s[1..]);
    }
  }

  class IntegerScanfKeyboardEventHandler {
    var value: int
    var completed: bool
    var negative: bool

    function View(): Reader
      reads this
    {
      Reader(value, completed, negative)
    }

    constructor ()
      ensures View() == FRESH
    {
      value, completed, negative := 0, false, false;
    }

    /** `shown` says whether the key is printed to the screen. */
    method OnKeyDown(c: char) returns (shown: bool)
      modifies this
      ensures View() == Key(old(View()), c)
      ensures shown <==> !old(completed)
    {
      if completed {
        return false;
      }
      if c == '\n' {
        if negative {
          value := I32(-value);
        }
        completed := true;
      } else if c == '-' && value == 0 && !negative {
        negative := true;
      } else if '0' <= c && c <= '9' {
        value := I32(I32(value * 10) + (c as int - '0' as int));
      }
      shown := true;
    }

    method Reset()
      modifies this
      ensures View() == FRESH
    {
      value := 0;
      completed := false;
      negative := false;
    }
  }
}
