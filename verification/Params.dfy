/** Conversion of parameters to text and back: the integer and string types of params.c. */
module Params {

  datatype Option<+T> = None | Some(value: T)

  datatype Kind = Char | UChar | Short | UShort | Int | UInt | String | Other

  datatype Value = Num(n: int) | Text(s: string)

  /** The values a variable of this type can hold; a C string contains no NUL. */
  ghost predicate Holds(k: Kind, v: Value) {
    match k
    case String => v.Text? && '\0' !in v.s
    case Other => false
    case _ => v.Num? && InRange(k, v.n)
  }

  predicate InRange(k: Kind, n: int) {
    match k
    case Char => -0x80 <= n < 0x80
    case UChar => 0 <= n < 0x100
    case Short => -0x8000 <= n < 0x8000
    case UShort => 0 <= n < 0x1_0000
    case Int => -0x8000_0000 <= n < 0x8000_0000
    case UInt => 0 <= n < 0x1_0000_0000
    case _ => false
  }

  /** An int taken from the bits of an unsigned int, as "%d" prints it. */
  function AsSigned(n: int): int {
    if n >= 0x8000_0000 then n - 0x1_0000_0000 else n
  }

  /** Conversion of an int to the type. */
  function Cast(k: Kind, n: int): int {
    match k
    case Char => (n + 0x80) % 0x100 - 0x80
    case UChar => n % 0x100
    case Short => (n + 0x8000) % 0x1_0000 - 0x8000
    case UShort => n % 0x1_0000
    case UInt => n % 0x1_0000_0000
    case _ => n
  }

  // ----- Decimal text -----

  function Digit(d: nat): char
    requires d < 10
  {
    '0' + d as char
  }

  predicate IsDigit(c: char) {
    '0' <= c <= '9'
  }

  function Digits(n: nat): (s: string)
    ensures s != [] && forall i :: 0 <= i < |s| ==> IsDigit(s[i])
  {
    if n < 10 then [Digit(n)] else Digits(n / 10) + [Digit(n % 10)]
  }

  /** printf("%d"). */
  function Decimal(n: int): (s: string)
    ensures s != [] && forall i :: 0 <= i < |s| ==> IsDigit(s[i]) || s[i] == '-'
  {
    if n < 0 then ['-'] + Digits(-n) else Digits(n)
  }

  /** The number the leading digits of s stand for, continuing acc. */
  function Accumulate(s: string, acc: nat): nat
    decreases |s|
  {
    if s == [] || !IsDigit(s[0]) then acc else Accumulate(s[1..], 10 * acc + (s[0] as int - '0' as int))
  }

  predicate IsSpace(c: char) {
    c == ' ' || '\t' <= c <= '\r'
  }

  /** atoi: white space, an optional sign, digits. */
  function Atoi(s: string): int
    decreases |s|
  {
    if s != [] && IsSpace(s[0]) then Atoi(s[1..])
    else if s != [] && s[0] == '-' then 0 - Accumulate(s[1..], 0)
    else if s != [] && s[0] == '+' then Accumulate(s[1..], 0)
    else Accumulate(s, 0)
  }

  function ToString(k: Kind, v: Value): Option<string> {
    match v
    case Num(n) =>
      if k.UInt? then Some(Decimal(AsSigned(n))) else if k.String? || k.Other? then None else Some(Decimal(n))
    case Text(s) => if k.String? then Some(s) else None
  }

  function FromString(k: Kind, s: string): Option<Value> {
    match k
    case String => Some(Text(s))
    case Other => None
    case _ => Some(Num(Cast(k, Atoi(s))))
  }

  lemma {:induction false} AccumulateSnoc(s: string, d: nat, acc: nat)
    requires d < 10 && forall i :: 0 <= i < |s| ==> IsDigit(s[i])
    ensures Accumulate(s + [Digit(d)], acc) == 10 * Accumulate(s, acc) + d
    decreases |s|
  {
    var t := s + [Digit(d)];
    if s == [] {
      assert t[1..] == [];
    } else {
      assert t[1..] == s[1..] + [Digit(d)];
      AccumulateSnoc(s[1..], d, 10 * acc + (s[0] as int - '0' as int));
    }
  }

  lemma {:induction false} AccumulateDigits(n: nat)
    ensures Accumulate(Digits(n), 0) == n
  {
    if n >= 10 {
      AccumulateDigits(n / 10);
      AccumulateSnoc(Digits(n / 10), n % 10, 0);
    } else {
      assert Digits(n)[1..] == [];
    }
  }

  lemma AtoiOfDecimal(n: int)
    ensures Atoi(Decimal(n)) == n
  {
    if n < 0 {
      assert Decimal(n)[1..] == Digits(-n);
      AccumulateDigits(-n);
    } else {
      AccumulateDigits(n);
      assert IsDigit(Digits(n)[0]);
    }
  }

  /** What a variable held comes back, unsigned ints above INT_MAX included. */
  lemma TextRoundTrip(k: Kind, v: Value)
    requires Holds(k, v)
    ensures ToString(k, v).Some? && FromString(k, ToString(k, v).value) == Some(v)
  {
    hide Decimal, Atoi, Cast;
    if v.Num? {
      AtoiOfDecimal(v.n);
      AtoiOfDecimal(AsSigned(v.n));
      CastKeeps(k, v.n);
    }
  }

  /** Whatever number is read, the variable gets the one in its range that differs by a multiple of 2^w. */
  lemma CastWraps(k: Kind, n: int) returns (q: int)
    requires !k.Int? && !k.String? && !k.Other?
    ensures InRange(k, Cast(k, n))
    ensures Cast(k, n) == n + q * if k.Char? || k.UChar? then 0x100 else if k.UInt? then 0x1_0000_0000 else 0x1_0000
  {
    match k
    case Char => q := -((n + 0x80) / 0x100);
    case UChar => q := -(n / 0x100);
    case Short => q := -((n + 0x8000) / 0x1_0000);
    case UShort => q := -(n / 0x1_0000);
    case UInt => q := -(n / 0x1_0000_0000);
  }

  /** An unsigned int above INT_MAX is written with "%d", as a negative number. */
  lemma UnsignedText(n: int)
    requires 0x8000_0000 <= n < 0x1_0000_0000
    ensures ToString(UInt, Num(n)) == Some(Decimal(n - 0x1_0000_0000)) && Decimal(n - 0x1_0000_0000)[0] == '-'
  {
  }

  /** The digits are decimal, most significant first. */
  lemma DecimalText()
    ensures Decimal(-2049) == "-2049"
  {
    assert Digits(2049) == Digits(204) + ['9'] && Digits(204) == Digits(20) + ['4'] && Digits(20) == Digits(2) + ['0'];
  }

  /** White space and a plus sign are passed over, and the first other character ends the number. */
  lemma ReadText()
    ensures Atoi(" \t+17x") == 17
  {
    var a, b, c, d: string := " \t+17x", "\t+17x", "+17x", "17x";
    assert a[1..] == b && b[1..] == c && c[1..] == d && d[1..] == "7x" && "7x"[1..] == "x";
    assert Atoi(a) == Atoi(b) == Atoi(c) == Accumulate(d, 0);
    assert Accumulate(d, 0) == Accumulate("7x", 1) == Accumulate("x", 17) == 17;
  }

  lemma CastKeeps(k: Kind, n: int)
    requires InRange(k, n)
    ensures Cast(k, if k.UInt? then AsSigned(n) else n) == n
  {
  }
}
