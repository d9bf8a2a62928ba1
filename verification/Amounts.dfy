/** Printing and parsing of token amounts.

    Amounts are int64_t; the decimal fraction has eight digits. */
module Amounts {

  const COIN: nat := 100_000_000
  const MAX_SUPPLY: nat := 21_000_000
  const MAX_MONEY: nat := MAX_SUPPLY * COIN
  const CURRENCY := "ZEN"

  type int64 = x: int | -0x8000_0000_0000_0000 <= x < 0x8000_0000_0000_0000

  datatype Parsed = Ok(amount: int64) | InvalidInput | InvalidAmountRange

  // ---- decimal digits ----

  predicate IsDigit(c: char) {
    '0' <= c <= '9'
  }

  predicate AllDigits(s: string) {
    forall i | 0 <= i < |s| :: IsDigit(s[i])
  }

  function DigitChar(n: nat): (c: char)
    requires n < 10
    ensures IsDigit(c) && DigitValue(c) == n
  {
    ('0' as int + n) as char
  }

  lemma DigitsAre(n: nat)
    requires n < 10
    ensures DigitChar(n) == "0123456789"[n] && DigitValue("0123456789"[n]) == n
  {}

  function DigitValue(c: char): (n: nat)
    requires IsDigit(c)
    ensures n < 10
  {
    c as int - '0' as int
  }

  /** `%i` of a non-negative number. */
  function Decimal(n: nat): (s: string)
    ensures s != "" && AllDigits(s)
  {
    if n < 10 then [DigitChar(n)] else Decimal(n / 10) + [DigitChar(n % 10)]
  }

  /** `%0<width>i` of a number below 10^width. */
  function Fixed(n: nat, width: nat): (s: string)
    ensures |s| == width && AllDigits(s)
  {
    if width == 0 then "" else Fixed(n / 10, width - 1) + [DigitChar(n % 10)]
  }

  /** What lexical_cast makes of digits; nothing counts as zero. */
  function NumberOf(s: string): nat
    requires AllDigits(s)
  {
    if s == "" then 0 else 10 * NumberOf(s[..|s| - 1]) + DigitValue(s[|s| - 1])
  }

  function Pow10(n: nat): (p: nat)
    ensures p > 0
  {
    if n == 0 then 1 else 10 * Pow10(n - 1)
  }

  /** One more digit at the end. */
  lemma NumberAppend(s: string, c: char)
    requires AllDigits(s) && IsDigit(c)
    ensures AllDigits(s + [c]) && NumberOf(s + [c]) == 10 * NumberOf(s) + DigitValue(c)
  {
    var t := s + [c];
    assert t[..|t| - 1] == s && t[|t| - 1] == c;
  }

  lemma {:induction false} DecimalReadsBack(n: nat)
    ensures NumberOf(Decimal(n)) == n
  {
    var d := DigitChar(n % 10);
    if n >= 10 {
      DecimalReadsBack(n / 10);
      NumberAppend(Decimal(n / 10), d);
      assert Decimal(n) == Decimal(n / 10) + [d];
      hide NumberOf, Decimal;
    } else {
      NumberAppend("", d);
      assert "" + [d] == Decimal(n) && NumberOf("") == 0;
      hide NumberOf, Decimal;
    }
  }

  lemma {:induction false} FixedReadsBack(n: nat, width: nat)
    requires n < Pow10(width)
    ensures NumberOf(Fixed(n, width)) == n
  {
    if width > 0 {
      var d := DigitChar(n % 10);
      FixedReadsBack(n / 10, width - 1);
      NumberAppend(Fixed(n / 10, width - 1), d);
      assert Fixed(n, width) == Fixed(n / 10, width - 1) + [d];
      hide NumberOf, Fixed;
    }
  }

  lemma {:induction false} NumberBounded(s: string)
    requires AllDigits(s)
    ensures NumberOf(s) < Pow10(|s|)
  {
    if s != "" {
      NumberBounded(s[..|s| - 1]);
    }
  }

  /** The printed length grows only with the magnitude. */
  lemma {:induction false} DecimalLength(n: nat, width: nat)
    requires width > 0
    ensures |Decimal(n)| <= width <==> n < Pow10(width)
  {
    if n >= 10 && width > 1 {
      DecimalLength(n / 10, width - 1);
    } else if width > 1 {
      assert Pow10(width) >= 10 * Pow10(width - 1) >= 10;
    } else {
      assert Pow10(1) == 10;
    }
  }

  function Repeat(c: char, n: nat): (s: string)
    ensures |s| == n
  {
    if n == 0 then "" else Repeat(c, n - 1) + [c]
  }

  lemma {:induction false} PadWithZeros(s: string, n: nat)
    requires AllDigits(s)
    ensures AllDigits(s + Repeat('0', n))
    ensures NumberOf(s + Repeat('0', n)) == NumberOf(s) * Pow10(n)
  {
    if n == 0 {
      assert s + "" == s;
    } else {
      PadWithZeros(s, n - 1);
      assert s + Repeat('0', n) == (s + Repeat('0', n - 1)) + ['0'];
      NumberAppend(s + Repeat('0', n - 1), '0');
      TimesTen(NumberOf(s), Pow10(n - 1));
    }
  }

  lemma TimesTen(a: nat, b: nat)
    ensures 10 * (a * b) == a * (10 * b)
  {}

  // ---- to_string ----

  /** Trailing zeros go, then a decimal point left at the end. */
  function Strip(s: string): string {
    if s == "" then s
    else if s[|s| - 1] == '0' then Strip(s[..|s| - 1])
    else if s[|s| - 1] == '.' then s[..|s| - 1]
    else s
  }

  /** std::div truncates towards zero. */
  function Quotient(amount: int): int {
    if amount < 0 then -(-amount / COIN) else amount / COIN
  }

  function Remainder(amount: int): int {
    amount - Quotient(amount) * COIN
  }

  function Signed(n: int): string {
    if n < 0 then "-" + Decimal(-n) else Decimal(n)
  }

  /** The text before stripping. */
  function Formatted(amount: int): string
    requires amount != 0
  {
    var fraction := if amount < 0 then -Remainder(amount) else Remainder(amount);
    FractionRange(amount);
    (if amount < 0 then "-" else "") + Signed(Quotient(amount)) + "." + Fixed(fraction, 8)
  }

  lemma FractionRange(amount: int)
    ensures 0 <= (if amount < 0 then -Remainder(amount) else Remainder(amount)) < COIN
  {}

  /** The text without the currency. */
  function Text(amount: int): string {
    if amount == 0 then "0" else Strip(Formatted(amount))
  }

  method ToString(amount: int64) returns (s: string)
    ensures s == Text(amount) + " ZEN"
  {
    if amount == 0 {
      return "0 " + CURRENCY;
    }
    var sign := "";
    var quot, rem := Quotient(amount), Remainder(amount);
    FractionRange(amount);
    if amount < 0 {
      sign := sign + "-";
      rem := rem * -1;
    }
    var formatted := sign + Signed(quot) + "." + Fixed(rem, 8);
    assert formatted == Formatted(amount);
    assert formatted[|formatted| - 9] == '.';
    assert Text(amount) == Strip(formatted);
    hide Formatted, Fixed, Signed, Text;
    var c := formatted[|formatted| - 1];
    var more := true;
    while more
      invariant more ==> |formatted| > 0 && '.' in formatted
      invariant more ==> Strip(formatted) == Text(amount) && c == formatted[|formatted| - 1]
      invariant !more ==> formatted == Text(amount)
      decreases if more then |formatted| + 1 else 0
    {
      match c
      case '0' =>
        PointStays(formatted);
        formatted := formatted[..|formatted| - 1];
        c := formatted[|formatted| - 1];
      case '.' =>
        formatted := formatted[..|formatted| - 1];
        more := false;
      case _ =>
        more := false;
    }
    return formatted + " " + CURRENCY;
  }

  lemma PointStays(s: string)
    requires '.' in s && s[|s| - 1] == '0'
    ensures '.' in s[..|s| - 1]
  {
    var i :| 0 <= i < |s| && s[i] == '.';
    assert s[..|s| - 1][i] == '.';
  }

  // ---- parse ----

  /** How many digits the text begins with. */
  function Leading(s: string): (n: nat)
    ensures n <= |s| && AllDigits(s[..n])
    ensures n < |s| ==> !IsDigit(s[n])
  {
    if s == "" || !IsDigit(s[0]) then 0
    else
      var n := 1 + Leading(s[1..]);
      assert s[..n] == [s[0]] + s[1..][..n - 1];
      n
  }

  /** `^(\d{0,8})(\.\d{0,8})?$` with its two groups. */
  ghost predicate Matches(input: string, whole: string, fract: string) {
    && input == whole + fract
    && |whole| <= 8 && AllDigits(whole)
    && (fract == "" || (fract[0] == '.' && |fract| <= 9 && AllDigits(fract[1..])))
  }

  /** The one way an input can match: the first group is all its leading digits. */
  lemma MatchUnique(input: string, whole: string, fract: string)
    requires Matches(input, whole, fract)
    ensures whole == input[..Leading(input)] && fract == input[Leading(input)..]
  {
    LeadingOf(whole, fract);
  }

  /** Digits followed by a point or by nothing: the leading digits are all of them. */
  lemma LeadingOf(whole: string, rest: string)
    requires AllDigits(whole) && (rest == "" || rest[0] == '.')
    ensures Leading(whole + rest) == |whole|
    ensures (whole + rest)[..|whole|] == whole && (whole + rest)[|whole|..] == rest
  {
    var s := whole + rest;
    var n := Leading(s);
    assert forall i | 0 <= i < |whole| :: s[i] == whole[i];
    assert rest != "" ==> s[|whole|] == '.';
    assert forall i | 0 <= i < n :: IsDigit(s[..n][i]) && s[..n][i] == s[i];
  }

  predicate Accepted(input: string) {
    var n := Leading(input);
    && n <= 8
    && (n == |input| || (input[n] == '.' && |input| - n <= 9 && AllDigits(input[n + 1..])))
  }

  lemma AcceptedIffMatch(input: string)
    ensures Accepted(input) <==> exists whole, fract :: Matches(input, whole, fract)
  {
    var n := Leading(input);
    assert input == input[..n] + input[n..];
    if Accepted(input) {
      if n < |input| {
        assert input[n..][1..] == input[n + 1..];
      }
      assert Matches(input, input[..n], input[n..]);
    }
    if whole, fract :| Matches(input, whole, fract) {
      MatchUnique(input, whole, fract);
      if fract != "" {
        assert fract[1..] == input[n + 1..];
      }
    }
  }

  /** The amount written: whole . fraction, in units of 10^-8. */
  function ValueOf(whole: string, digits: string): nat
    requires AllDigits(whole) && AllDigits(digits) && |digits| <= 8
  {
    NumberOf(whole) * COIN + NumberOf(digits) * Pow10(8 - |digits|)
  }

  function Digits(input: string): string
    requires Accepted(input)
  {
    if Leading(input) == |input| then "" else input[Leading(input) + 1..]
  }

  function AmountOf(input: string): nat
    requires Accepted(input)
  {
    ValueOf(input[..Leading(input)], Digits(input))
  }

  predicate ValidMoney(amount: int) {
    0 <= amount <= MAX_MONEY
  }

  function ParseOf(input: string): Parsed {
    if !Accepted(input) then InvalidInput
    else if !ValidMoney(AmountOf(input)) then InvalidAmountRange
    else Ok(AmountOf(input))
  }

  lemma Pow10Values()
    ensures Pow10(8) == COIN && Pow10(16) == COIN * COIN
  {
    assert Pow10(4) == 10_000;
    assert Pow10(12) == 1_000_000_000_000;
  }

  /** Every matching input stands for a value that fits int64. */
  lemma ValueFits(input: string)
    requires Accepted(input)
    ensures AmountOf(input) < COIN * COIN < 0x8000_0000_0000_0000
  {
    var n, d := Leading(input), Digits(input);
    Pow10Values();
    NumberBounded(input[..n]);
    Pow10Mono(n, 8);
    NumberBounded(d);
    Pow10Sum(|d|, 8 - |d|);
    MulBelow(NumberOf(d), Pow10(|d|), Pow10(8 - |d|));
  }

  lemma MulBelow(a: nat, b: nat, c: nat)
    requires a < b && c > 0
    ensures a * c < b * c
  {}

  lemma {:induction false} Pow10Mono(a: nat, b: nat)
    requires a <= b
    ensures Pow10(a) <= Pow10(b)
  {
    if a < b {
      Pow10Mono(a, b - 1);
    }
  }

  lemma {:induction false} Pow10Sum(a: nat, b: nat)
    ensures Pow10(a + b) == Pow10(a) * Pow10(b)
  {
    if a > 0 {
      Pow10Sum(a - 1, b);
    }
  }

  /** Accepts exactly the matching inputs whose value is valid money, and gives that value. */
  method Parse(input: string) returns (r: Parsed)
    ensures r == ParseOf(input)
  {
    var n := Leading(input);
    if !Accepted(input) {
      return InvalidInput;
    }
    var wholePart := input[..n];
    var fractPart := input[n..];
    if fractPart != "" {
      fractPart := fractPart[1..];
      PadWithZeros(fractPart, 8 - |fractPart|);
      assert fractPart == Digits(input);
      fractPart := fractPart + Repeat('0', 8 - |fractPart|);
    }
    var whole := if wholePart == "" then 0 else NumberOf(wholePart);
    var fract := if fractPart == "" then 0 else NumberOf(fractPart);
    var value := whole * COIN + fract;
    assert value == AmountOf(input);
    ValueFits(input);
    if !ValidMoney(value) {
      return InvalidAmountRange;
    }
    return Ok(value);
  }

  // ---- printing and parsing undo each other ----

  /** Stripping never reaches past a decimal point, so it does not see what stands before. */
  lemma {:induction false} StripBehind(prefix: string, s: string)
    requires '.' in s
    ensures Strip(prefix + s) == prefix + Strip(s)
  {
    var t := prefix + s;
    assert t[|t| - 1] == s[|s| - 1] && t[..|t| - 1] == prefix + s[..|s| - 1];
    if s[|s| - 1] == '0' {
      PointStays(s);
      StripBehind(prefix, s[..|s| - 1]);
    }
  }

  lemma {:induction false} StripZeros(s: string, n: nat)
    ensures Strip(s + Repeat('0', n)) == Strip(s)
  {
    if n == 0 {
      assert s + "" == s;
    } else {
      var t := s + Repeat('0', n);
      assert t[..|t| - 1] == s + Repeat('0', n - 1);
      StripZeros(s, n - 1);
    }
  }

  /** A digit string is its significant part and trailing zeros. */
  lemma {:induction false} TrailingZeros(digits: string) returns (core: string, n: nat)
    requires AllDigits(digits)
    ensures digits == core + Repeat('0', n) && |core| + n == |digits| && AllDigits(core)
    ensures core != "" ==> core[|core| - 1] != '0'
  {
    if digits != "" && digits[|digits| - 1] == '0' {
      core, n := TrailingZeros(digits[..|digits| - 1]);
      assert digits == digits[..|digits| - 1] + ['0'];
      n := n + 1;
    } else {
      core, n := digits, 0;
    }
  }

  lemma Assoc(a: string, b: string, c: string)
    ensures (a + b) + c == a + (b + c)
  {}

  /** What is left of a fraction after stripping. */
  function Fraction(core: string): string {
    if core == "" then "" else "." + core
  }

  lemma StripFraction(whole: string, core: string, n: nat)
    requires AllDigits(core) && (core != "" ==> core[|core| - 1] != '0')
    ensures Strip(whole + "." + (core + Repeat('0', n))) == whole + Fraction(core)
  {
    StripZeros(whole + "." + core, n);
    StripPoint(whole, core);
    hide *;
    Assoc(whole + ".", core, Repeat('0', n));
  }

  /** The eight printed digits are the significant ones and zeros. */
  lemma FixedShape(n: nat) returns (core: string, zeros: nat)
    requires n < COIN
    ensures Fixed(n, 8) == core + Repeat('0', zeros) && AllDigits(core) && |core| + zeros == 8
    ensures core != "" ==> core[|core| - 1] != '0'
    ensures NumberOf(core) * Pow10(8 - |core|) == n
  {
    Pow10Values();
    FixedReadsBack(n, 8);
    hide Fixed;
    core, zeros := TrailingZeros(Fixed(n, 8));
    PadWithZeros(core, zeros);
  }

  lemma TextParts(amount: nat) returns (whole: string, core: string)
    ensures whole == Decimal(amount / COIN) && AllDigits(core) && |core| <= 8
    ensures Text(amount) == whole + Fraction(core)
    ensures core != "" ==> core[|core| - 1] != '0'
    ensures NumberOf(core) * Pow10(8 - |core|) == amount % COIN
  {
    whole := Decimal(amount / COIN);
    if amount == 0 {
      core := "";
      assert whole == "0";
    } else {
      var zeros;
      core, zeros := FixedShape(amount % COIN);
      PositiveFormat(amount);
      StripFraction(whole, core, zeros);
      hide Decimal, Fixed, NumberOf, Pow10, Strip, Formatted, Repeat, Fraction;
    }
  }

  /** The shape of a printed amount: nothing significant has been stripped, and everything else has. */
  lemma TextShape(amount: nat) returns (whole: string, core: string)
    ensures whole == Decimal(amount / COIN) && AllDigits(core) && |core| <= 8
    ensures Text(amount) == whole + if core == "" then "" else "." + core
    ensures core != "" ==> core[|core| - 1] != '0'
    ensures NumberOf(core) * Pow10(8 - |core|) == amount % COIN
  {
    hide Decimal, NumberOf, Pow10, Text;
    whole, core := TextParts(amount);
  }

  lemma PositiveFormat(amount: nat)
    requires amount > 0
    ensures Formatted(amount) == Decimal(amount / COIN) + "." + Fixed(amount % COIN, 8)
  {
    assert Quotient(amount) == amount / COIN && Remainder(amount) == amount % COIN;
    hide Decimal, Fixed, Quotient, Remainder;
    assert "" + Decimal(amount / COIN) == Decimal(amount / COIN);
  }

  lemma StripPoint(whole: string, core: string)
    requires AllDigits(core) && (core != "" ==> core[|core| - 1] != '0')
    ensures Strip(whole + "." + core) == whole + Fraction(core)
  {
    if core == "" {
      StripBarePoint(whole);
      assert whole + "." + core == whole + ".";
    } else {
      var s := whole + "." + core;
      assert s[|s| - 1] == core[|core| - 1] && IsDigit(core[|core| - 1]);
      assert Strip(s) == s;
      hide Strip;
      Assoc(whole, ".", core);
    }
  }

  lemma StripBarePoint(whole: string)
    ensures Strip(whole + ".") == whole + ""
  {
    var s := whole + ".";
    assert s[..|s| - 1] == whole && whole + "" == whole;
  }

  /** An input of the printed shape: when it is accepted, and for what amount. */
  lemma ParseShape(whole: string, core: string)
    requires AllDigits(whole) && AllDigits(core) && |core| <= 8
    ensures Accepted(whole + Fraction(core)) <==> |whole| <= 8
    ensures |whole| <= 8 ==> AmountOf(whole + Fraction(core)) == ValueOf(whole, core)
  {
    LeadingOf(whole, Fraction(core));
    hide Leading, NumberOf, Pow10;
    var t := whole + Fraction(core);
    assert core != "" ==> t[|whole| + 1..] == core;
    if |whole| <= 8 {
      assert Digits(t) == core;
    }
  }

  /** For every non-negative amount: parsing its printed form gives it back exactly when it is valid money, and
      otherwise the error that says why not. */
  lemma ParseUndoesPrint(amount: nat)
    ensures ParseOf(Text(amount)) ==
              if amount <= 2_100_000_000_000_000 then Ok(amount)
              else if amount < 10_000_000_000_000_000 then InvalidAmountRange else InvalidInput
  {
    var whole, core := TextParts(amount);
    DecimalReadsBack(amount / COIN);
    DecimalLength(amount / COIN, 8);
    Pow10Values();
    WholeRange(amount);
    ParseShape(whole, core);
    hide Decimal, NumberOf, Pow10, Text, Accepted, AmountOf, Fraction;
  }

  lemma WholeRange(amount: nat)
    ensures amount / COIN < COIN <==> amount < COIN * COIN
    ensures amount / COIN * COIN + amount % COIN == amount
  {}

  /** So no two non-negative amounts are printed alike. */
  lemma PrintInjective(a: nat, b: nat)
    requires Text(a) == Text(b)
    ensures a == b
  {
    var wa, ca := TextParts(a);
    var wb, cb := TextParts(b);
    DecimalReadsBack(a / COIN);
    DecimalReadsBack(b / COIN);
    WholeRange(a);
    WholeRange(b);
    hide *;
    ShapeUnique(wa, ca, wb, cb);
    assert a / COIN == b / COIN && a % COIN == b % COIN;
  }

  lemma ShapeUnique(wa: string, ca: string, wb: string, cb: string)
    requires AllDigits(wa) && AllDigits(wb) && wa + Fraction(ca) == wb + Fraction(cb)
    ensures wa == wb && ca == cb
  {
    LeadingOf(wa, Fraction(ca));
    LeadingOf(wb, Fraction(cb));
    hide Leading;
    var ra, rb := Fraction(ca), Fraction(cb);
    assert ca == (if ra == "" then "" else ra[1..]) && cb == (if rb == "" then "" else rb[1..]);
  }

  /** Truncation towards zero, for an amount below zero. */
  lemma NegativeParts(amount: int)
    requires amount < 0
    ensures Quotient(amount) == -(-amount / COIN) && Remainder(amount) == -(-amount % COIN)
    ensures -amount / COIN == 0 <==> amount + COIN > 0
  {}

  lemma Signs(whole: string)
    ensures "-" + ("-" + whole) == "--" + whole
  {}

  lemma Behind(sign: string, whole: string, fraction: string)
    ensures sign + whole + "." + fraction == sign + (whole + "." + fraction)
  {}

  /** A negative amount before stripping: its own sign, and the quotient's when that is not zero. */
  lemma NegativeFormat(amount: int)
    requires amount < 0
    ensures Formatted(amount) == (if amount + COIN > 0 then "-" else "--") + Formatted(-amount)
  {
    PositiveFormat(-amount);
    var whole, fraction := Decimal(-amount / COIN), Fixed(-amount % COIN, 8);
    NegativeUnfolds(amount);
    SignedQuotient(amount);
    hide *;
    Behind(if amount + COIN > 0 then "-" else "--", whole, fraction);
  }

  lemma NegativeUnfolds(amount: int)
    requires amount < 0
    ensures Formatted(amount) == "-" + Signed(Quotient(amount)) + "." + Fixed(-amount % COIN, 8)
  {
    NegativeParts(amount);
    hide Decimal, Fixed, Quotient, Signed, Remainder;
  }

  /** The quotient's own sign, behind the one printed already. */
  lemma SignedQuotient(amount: int)
    requires amount < 0
    ensures "-" + Signed(Quotient(amount)) == (if amount + COIN > 0 then "-" else "--") + Decimal(-amount / COIN)
  {
    NegativeParts(amount);
    hide Decimal, Quotient;
    Signs(Decimal(-amount / COIN));
  }

  /** Negative amounts print as a minus sign and the absolute value only above minus one coin; from there down
      the sign comes out twice, because the quotient brings its own. */
  lemma NegativePrint(amount: int)
    requires amount < 0
    ensures Text(amount) == (if amount + COIN > 0 then "-" else "--") + Text(-amount)
  {
    NegativeFormat(amount);
    PositiveFormat(-amount);
    hide Formatted, Fixed, Decimal;
    var s := Formatted(-amount);
    assert s[|Decimal(-amount / COIN)|] == '.';
    StripBehind(if amount + COIN > 0 then "-" else "--", s);
  }

  /** Every accepted input stands for its decimal value, and parses exactly when that is valid money. */
  lemma ParseMeaning(input: string, whole: string, fract: string)
    requires Matches(input, whole, fract)
    ensures var value := ValueOf(whole, if fract == "" then "" else fract[1..]);
            && value < 0x8000_0000_0000_0000
            && ParseOf(input) == if value <= MAX_MONEY then Ok(value) else InvalidAmountRange
  {
    AcceptedIffMatch(input);
    MatchUnique(input, whole, fract);
    ValueFits(input);
    hide NumberOf, Pow10, Leading;
    if fract != "" {
      assert fract[1..] == input[|whole| + 1..];
    }
  }
}
