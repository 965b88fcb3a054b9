/** Numbers as text: what seq_printf writes for %d and %X, and how it reads back. */
module Digits {
  predicate IsBase(b: nat) {
    b == 10 || b == 16
  }

  const DIGITS: string := "0123456789ABCDEF"

  /** A number without leading zeros, in upper case. */
  function Print(n: nat, base: nat): (s: string)
    requires IsBase(base)
    ensures s != []
  {
    if n < base then [DIGITS[n]] else Print(n / base, base) + [DIGITS[n % base]]
  }

  /** Upper and lower case digits; -1 for any other character. */
  function Value(c: char): int {
    if '0' <= c <= '9' then c as int - '0' as int
    else if 'A' <= c <= 'F' then c as int - 'A' as int + 10
    else if 'a' <= c <= 'f' then c as int - 'a' as int + 10
    else -1
  }

  predicate AllDigits(s: string, base: nat) {
    forall i | 0 <= i < |s| :: 0 <= Value(s[i]) < base
  }

  function Read(s: string, base: nat): nat
    requires AllDigits(s, base)
  {
    if s == [] then 0 else base * Read(s[..|s| - 1], base) + Value(s[|s| - 1])
  }

  lemma DigitReadsBack(n: nat)
    requires n < 16
    ensures Value(DIGITS[n]) == n
  {
  }

  lemma DivideSmaller(n: nat, base: nat)
    requires IsBase(base) && n >= base
    ensures n / base < n && n == base * (n / base) + n % base && n % base < base
  {
  }

  lemma {:induction false} PrintReadsBack(n: nat, base: nat)
    requires IsBase(base)
    ensures AllDigits(Print(n, base), base) && Read(Print(n, base), base) == n
    decreases n
  {
    if n < base {
      DigitReadsBack(n);
      assert Print(n, base)[..0] == [];
    } else {
      DivideSmaller(n, base);
      PrintReadsBack(n / base, base);
      DigitReadsBack(n % base);
      var s := Print(n, base);
      assert s[..|s| - 1] == Print(n / base, base);
    }
  }

  predicate Canonical(s: string) {
    && s != []
    && (forall i | 0 <= i < |s| :: '0' <= s[i] <= '9' || 'A' <= s[i] <= 'F')
    && (|s| > 1 ==> s[0] != '0')
  }

  lemma DigitIsCanonical(n: nat)
    requires n < 16
    ensures DIGITS[n] == if n < 10 then ('0' as int + n) as char else ('A' as int + (n - 10)) as char
  {
  }

  /** One digit is '0' to '9' or 'A' to 'F'; more are the digits of the quotient and then that of
      the remainder. */
  lemma PrintIsPositional(n: nat, base: nat)
    requires IsBase(base)
    ensures n < 10 ==> Print(n, base) == [('0' as int + n) as char]
    ensures 10 <= n < base ==> Print(n, base) == [('A' as int + (n - 10)) as char]
    ensures n >= base ==> Print(n, base) == Print(n / base, base) + Print(n % base, base)
  {
    if n < base {
      DigitIsCanonical(n);
    } else {
      DivideSmaller(n, base);
    }
  }

  /** No leading zeros, and no lower case. */
  lemma {:induction false} PrintIsCanonical(n: nat, base: nat)
    requires IsBase(base)
    ensures Canonical(Print(n, base))
    ensures Print(n, base)[0] == '0' <==> n == 0
    decreases n
  {
    if n < base {
      DigitIsCanonical(n);
    } else {
      DivideSmaller(n, base);
      PrintIsCanonical(n / base, base);
      DigitIsCanonical(n % base);
      QuotientPositive(n, base);
    }
  }

  lemma QuotientPositive(n: nat, base: nat)
    requires IsBase(base) && n >= base
    ensures n / base > 0
  {
  }

  lemma ValueIsDigit(c: char)
    requires '0' <= c <= '9' || 'A' <= c <= 'F'
    ensures 0 <= Value(c) < 16 && DIGITS[Value(c)] == c
  {
    DigitIsCanonical(Value(c));
  }

  lemma DivideBack(q: nat, r: nat, base: nat)
    requires IsBase(base) && r < base
    ensures (base * q + r) / base == q && (base * q + r) % base == r
  {
  }

  lemma {:induction false} ReadPositive(s: string, base: nat)
    requires IsBase(base) && s != [] && AllDigits(s, base) && Canonical(s) && s[0] != '0'
    ensures Read(s, base) > 0
  {
    if |s| == 1 {
      assert s[..0] == [];
      ValueIsDigit(s[0]);
      assert DIGITS[0] == '0';
    } else {
      ReadPositive(s[..|s| - 1], base);
    }
  }

  lemma MultipleAtLeast(q: nat, r: nat, base: nat)
    requires IsBase(base) && q > 0
    ensures base * q + r >= base
  {
  }

  lemma PrintOfParts(q: nat, r: nat, base: nat)
    requires IsBase(base) && q > 0 && r < base
    ensures Print(base * q + r, base) == Print(q, base) + [DIGITS[r]]
  {
    MultipleAtLeast(q, r, base);
    DivideBack(q, r, base);
  }

  lemma FrontIsCanonical(s: string, base: nat)
    requires IsBase(base) && |s| > 1 && Canonical(s) && AllDigits(s, base)
    ensures Canonical(s[..|s| - 1]) && AllDigits(s[..|s| - 1], base) && s[..|s| - 1][0] != '0'
  {
  }

  lemma ReadOne(s: string, base: nat)
    requires IsBase(base) && |s| == 1 && AllDigits(s, base)
    ensures Read(s, base) == Value(s[0])
  {
    assert s[..0] == [];
  }

  lemma ReadOfMore(s: string, base: nat) returns (q: nat, r: nat)
    requires IsBase(base) && |s| > 1 && AllDigits(s, base)
    ensures q == Read(s[..|s| - 1], base) && r == Value(s[|s| - 1]) && r < base
    ensures Read(s, base) == base * q + r
  {
    q, r := Read(s[..|s| - 1], base), Value(s[|s| - 1]);
  }

  lemma PrintedBack(s: string, n: nat, q: nat, r: nat, base: nat)
    requires IsBase(base) && |s| > 1 && n == base * q + r && q > 0 && r < base
    requires Print(q, base) == s[..|s| - 1] && DIGITS[r] == s[|s| - 1]
    ensures Print(n, base) == s
  {
    PrintOfParts(q, r, base);
    assert s == s[..|s| - 1] + [s[|s| - 1]];
  }

  /** Hence the printed text is the only one in upper case and without leading zeros that reads
      back to the number. */
  lemma {:induction false} PrintIsUnique(s: string, n: nat, base: nat)
    requires IsBase(base) && Canonical(s) && AllDigits(s, base) && n == Read(s, base)
    ensures Print(n, base) == s
  {
    ValueIsDigit(s[|s| - 1]);
    if |s| == 1 {
      ReadOne(s, base);
    } else {
      var q, r := ReadOfMore(s, base);
      FrontIsCanonical(s, base);
      ReadPositive(s[..|s| - 1], base);
      PrintIsUnique(s[..|s| - 1], q, base);
      PrintedBack(s, n, q, r, base);
    }
  }

  lemma HexLength(n: nat)
    requires n < 0x1_0000
    ensures 1 <= |Print(n, 16)| <= 4
  {
    var m := n / 16;
    assert m / 16 / 16 < 16;
    assert n >= 16 ==> |Print(n, 16)| == |Print(m, 16)| + 1;
    assert m >= 16 ==> |Print(m, 16)| == |Print(m / 16, 16)| + 1;
    assert m / 16 >= 16 ==> |Print(m / 16, 16)| == |Print(m / 16 / 16, 16)| + 1;
  }
}
