/** `print_number` of os/drivers/uart.c: digits are produced least significant first into a
    32-byte buffer, which is then reversed in place. */
module NumberPrinter {
  import opened Words

  const BUFFER_SIZE: nat := 32
  const DIGITS: string := "0123456789abcdef"

  function DigitChar(d: nat): char
    requires d < 16
  {
    DIGITS[d]
  }

  // ---------- Reading numerals back ----------

  function DigitValue(c: char): (v: int)
    ensures -1 <= v < 16
  {
    if '0' <= c <= '9' then c as int - '0' as int
    else if 'a' <= c <= 'f' then c as int - 'a' as int + 10
    else -1
  }

  predicate IsNumeral(s: string, base: nat) {
    forall i :: 0 <= i < |s| ==> 0 <= DigitValue(s[i]) < base
  }

  /** The value of a numeral, most significant digit first. */
  function Value(s: string, base: nat): (v: int) {
    if s == [] then 0 else Value(s[..|s| - 1], base) * base + DigitValue(s[|s| - 1])
  }

  /** The value of a printed number, which may carry a minus sign. */
  function Parse(s: string, base: nat): (v: int) {
    if s != [] && s[0] == '-' then -Value(s[1..], base) else Value(s, base)
  }

  // ---------- What is printed ----------

  /** Digits of `n`, least significant first, none for zero. */
  function LowDigits(n: nat, base: nat): (s: string)
    requires 2 <= base <= 16
    decreases n
  {
    if n == 0 then [] else
      QuotientSmaller(n, base);
      [DigitChar(n % base)] + LowDigits(n / base, base)
  }

  lemma QuotientSmaller(n: nat, base: nat)
    requires n > 0 && base >= 2
    ensures 0 <= n / base < n
    ensures n / base * base + n % base == n
  {
    var q := n / base;
    assert n == q * base + n % base;
    MulOrder(2, base, q);
  }

  function Reversed(s: string): (r: string)
    ensures |r| == |s|
  {
    seq(|s|, i requires 0 <= i < |s| => s[|s| - 1 - i])
  }

  lemma DigitRoundTrip(d: nat)
    requires d < 16
    ensures DigitValue(DigitChar(d)) == d
  {}

  /** The reversed digits are a numeral for `n` without leading zero. */
  lemma {:induction false} LowDigitsValue(n: nat, base: nat)
    requires 2 <= base <= 16
    ensures var s := Reversed(LowDigits(n, base));
            && IsNumeral(s, base)
            && Value(s, base) == n
            && (n > 0 ==> s != [] && s[0] != '0')
    decreases n
  {
    if n > 0 {
      QuotientSmaller(n, base);
      var q, d := n / base, n % base;
      LowDigitsValue(q, base);
      DigitRoundTrip(d);
      var s := Reversed(LowDigits(n, base));
      assert s == Reversed(LowDigits(q, base)) + [DigitChar(d)];
      assert s[..|s| - 1] == Reversed(LowDigits(q, base));
      if q == 0 {
        assert d == n;
      }
    }
  }

  function Pow(base: nat, k: nat): nat {
    if k == 0 then 1 else base * Pow(base, k - 1)
  }

  /** `n` takes more than `k` digits exactly if it is at least `base` to the `k`. */
  lemma {:induction false} DigitCount(n: nat, base: nat, k: nat)
    requires 2 <= base <= 16
    ensures |LowDigits(n, base)| > k <==> n >= Pow(base, k)
    decreases k
  {
    if k > 0 {
      if n > 0 {
        QuotientSmaller(n, base);
        DigitCount(n / base, base, k - 1);
        QuotientOrder(n, base, Pow(base, k - 1));
      } else {
        PowPositive(base, k);
      }
    }
  }

  lemma QuotientOrder(n: nat, base: nat, p: nat)
    requires base > 0
    ensures n / base >= p <==> n >= base * p
  {
    var q := n / base;
    assert n == q * base + n % base;
    if q >= p {
      MulOrder(p, q, base);
    } else {
      MulOrder(q + 1, p, base);
      assert (q + 1) * base == q * base + base;
    }
  }

  lemma PowPositive(base: nat, k: nat)
    requires base > 0
    ensures Pow(base, k) >= 1
  {}

  lemma {:induction false} PowMonotone(a: nat, b: nat, k: nat)
    requires 0 < a <= b
    ensures Pow(a, k) <= Pow(b, k)
    decreases k
  {
    if k > 0 {
      PowMonotone(a, b, k - 1);
      MulOrder(a, b, Pow(a, k - 1));
      MulOrder(Pow(a, k - 1), Pow(b, k - 1), b);
    }
  }

  lemma {:induction false} PowSum(base: nat, j: nat, k: nat)
    ensures Pow(base, j + k) == Pow(base, j) * Pow(base, k)
    decreases j
  {
    if j > 0 {
      PowSum(base, j - 1, k);
      assert Pow(base, j + k) == base * (Pow(base, j - 1) * Pow(base, k));
    }
  }

  lemma WordPowers()
    ensures Pow(2, 31) == TWO31
    ensures Pow(3, 21) >= TWO32
  {
    assert Pow(2, 4) == 16;
    PowSum(2, 4, 4);
    PowSum(2, 8, 8);
    PowSum(2, 15, 16);
    PowSum(2, 1, 15);
    assert Pow(3, 4) == 81;
    PowSum(3, 4, 4);
    PowSum(3, 8, 8);
    PowSum(3, 16, 4);
    PowSum(3, 20, 1);
  }

  /** Only signed decimal printing shows a sign. */
  predicate ShowsMinus(num: int32, base: nat, isSigned: bool) {
    num < 0 && base == 10 && isSigned
  }

  /** The unsigned word whose digits are printed; negating the least integer wraps to itself. */
  function Magnitude(num: int32, base: nat, isSigned: bool): uint32 {
    if ShowsMinus(num, base, isSigned) then Wrap32(-(num as int)) else Wrap32(num)
  }

  /** Characters written to the buffer, the terminating zero included. */
  function Written(num: int32, base: nat, isSigned: bool): nat
    requires 2 <= base <= 16
  {
    |LowDigits(Magnitude(num, base, isSigned), base)| + (if ShowsMinus(num, base, isSigned) then 1 else 0) + 1
  }

  /** The 32-byte buffer is large enough exactly for bases above two, or in base two for
      numbers that are not negative. */
  lemma FitsBuffer(num: int32, base: nat, isSigned: bool)
    requires 2 <= base <= 16
    ensures Written(num, base, isSigned) <= BUFFER_SIZE <==> base >= 3 || num >= 0
  {
    var m := Magnitude(num, base, isSigned);
    if base == 2 {
      DigitCount(m, 2, 31);
      WordPowers();
    } else {
      PowMonotone(3, base, 21);
      WordPowers();
      DigitCount(m, base, 21);
    }
  }

  /** Minus one in base two takes 32 digits and a terminating zero. */
  lemma BinaryExample()
    ensures Written(-1, 2, false) > BUFFER_SIZE
  {
    FitsBuffer(-1, 2, false);
  }

  /** What `print_number` emits. */
  function Printed(num: int32, base: nat, isSigned: bool): (s: string)
    requires 2 <= base <= 16
  {
    if num == 0 then "0"
    else
      var numeral := Reversed(LowDigits(Magnitude(num, base, isSigned), base));
      if ShowsMinus(num, base, isSigned) then "-" + numeral else numeral
  }

  /** The output reads back as the number itself when printed as signed decimal or when not
      negative, and as the number modulo 2^32 otherwise; it has no leading zero. */
  lemma PrintedRoundTrip(num: int32, base: nat, isSigned: bool)
    requires 2 <= base <= 16
    ensures var s := Printed(num, base, isSigned);
            && Parse(s, base) == (if base == 10 && isSigned then num else Wrap32(num))
            && (if num == 0 then s == "0" else s != [] && s[0] != '0')
            && (ShowsMinus(num, base, isSigned) ==> s[0] == '-' && |s| > 1 && s[1] != '0')
            && IsNumeral(if ShowsMinus(num, base, isSigned) then s[1..] else s, base)
  {
    if num == 0 {
      assert Value("0"[..0], base) == 0;
    } else {
      var m := Magnitude(num, base, isSigned);
      LowDigitsValue(m, base);
      var numeral := Reversed(LowDigits(m, base));
      if ShowsMinus(num, base, isSigned) {
        assert ("-" + numeral)[1..] == numeral;
      } else {
        assert DigitValue(numeral[0]) >= 0;
      }
    }
  }

  lemma SignedExample()
    ensures Printed(-255, 10, true) == "-255"
  {
    assert LowDigits(255, 10) == "552";
    assert Reversed("552") == "255";
  }

  lemma HexExample()
    ensures Printed(48879, 16, false) == "beef"
  {
    assert LowDigits(48879, 16) == "feeb";
    assert Reversed("feeb") == "beef";
  }

  // ---------- The implementation ----------

  /** The two-pointer reversal of the first `n` characters. */
  method ReverseInPlace(buffer: array<char>, n: nat)
    requires 0 < n <= buffer.Length
    modifies buffer
    ensures buffer[..n] == Reversed(old(buffer[..n]))
    ensures buffer[n..] == old(buffer[n..])
  {
    var low, high := 0, n - 1;
    while low < high
      invariant 0 <= low <= high + 1 && low + high == n - 1
      invariant forall i :: 0 <= i < low || high < i < n ==> buffer[i] == old(buffer[n - 1 - i])
      invariant forall i :: low <= i <= high || n <= i < buffer.Length ==> buffer[i] == old(buffer[i])
    {
      var last := buffer[high];
      buffer[high] := buffer[low];
      high := high - 1;
      buffer[low] := last;
      low := low + 1;
    }
  }

  /** The characters of a zero-terminated buffer, as `uart_puts` sends them. */
  method Puts(buffer: array<char>) returns (out: string)
    requires exists n :: 0 <= n < buffer.Length && buffer[n] == '\0'
    ensures |out| < buffer.Length && buffer[..|out|] == out
    ensures buffer[|out|] == '\0' && '\0' !in out
  {
    out := "";
    ghost var n :| 0 <= n < buffer.Length && buffer[n] == '\0';
    while buffer[|out|] != '\0'
      invariant |out| <= n && buffer[..|out|] == out && '\0' !in out
      decreases n - |out|
    {
      out := out + [buffer[|out|]];
    }
  }

  lemma {:induction false} LowDigitsNotZeroByte(n: nat, base: nat)
    requires 2 <= base <= 16
    ensures '\0' !in LowDigits(n, base)
    decreases n
  {
    if n > 0 {
      QuotientSmaller(n, base);
      LowDigitsNotZeroByte(n / base, base);
    }
  }

  /** The conversion loop: the digits of `num`, least significant first, at the front. */
  method StoreDigits(buffer: array<char>, num: uint32, base: nat) returns (length: nat)
    requires 2 <= base <= 16 && |LowDigits(num, base)| <= buffer.Length
    modifies buffer
    ensures length == |LowDigits(num, base)| && buffer[..length] == LowDigits(num, base)
  {
    ghost var digits := LowDigits(num, base);
    var temp: nat := num;
    length := 0;
    while temp > 0
      invariant length <= |digits| && buffer[..length] == digits[..length]
      invariant LowDigits(temp, base) == digits[length..]
      decreases temp
    {
      QuotientSmaller(temp, base);
      buffer[length] := DigitChar(temp % base);
      assert digits[length..][1..] == digits[length + 1..];
      length := length + 1;
      temp := temp / base;
    }
    assert digits[length..] == [];
  }

  /** `print_number`. */
  method PrintNumber(num: int32, base: nat, isSigned: bool) returns (out: string)
    requires 2 <= base <= 16
    requires Written(num, base, isSigned) <= BUFFER_SIZE
    ensures out == Printed(num, base, isSigned)
  {
    if num == 0 {
      return "0";
    }
    var buffer := new char[BUFFER_SIZE];
    var magnitude := Magnitude(num, base, isSigned);
    ghost var text := LowDigits(magnitude, base);
    LowDigitsNotZeroByte(magnitude, base);
    assert Reversed(text + "-") == "-" + Reversed(text);
    var length := StoreDigits(buffer, magnitude, base);
    if ShowsMinus(num, base, isSigned) {
      buffer[length] := '-';
      length := length + 1;
      text := text + "-";
    }
    assert buffer[..length] == text;
    buffer[length] := '\0';
    assert buffer[..length] == text && length > 0;
    ReverseInPlace(buffer, length);
    assert buffer[length] == buffer[length..][0] == '\0';
    out := Puts(buffer);
    TerminatedText(buffer[..], out, Reversed(text));
  }

  /** Text followed by a zero byte is what is read up to the first zero byte. */
  lemma TerminatedText(b: seq<char>, out: string, text: string)
    requires |out| < |b| && b[..|out|] == out && b[|out|] == '\0' && '\0' !in out
    requires |text| < |b| && b[..|text|] == text && b[|text|] == '\0' && '\0' !in text
    ensures out == text
  {
    assert forall i :: 0 <= i < |out| ==> b[i] == out[i] != '\0';
    assert forall i :: 0 <= i < |text| ==> b[i] == text[i] != '\0';
  }
}
