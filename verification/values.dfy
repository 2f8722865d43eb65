/**
 * Plain values as the web layer hands them to the models: request
 * parameters and record attributes are nil, a string or an integer.
 * The Ruby conversions the models rely on (`to_i`, `to_s`, `blank?`) are
 * written out here once.
 */
module Values {

  datatype Option<+T> = None | Some(value: T)

  datatype Result<+T, +E> = Ok(value: T) | Err(error: E)

  /** A scalar parameter or attribute value. */
  datatype Field = Nil | Text(s: string) | Num(n: int)

  predicate IsDigit(c: char) {
    '0' <= c <= '9'
  }

  function DigitValue(c: char): (v: nat)
    requires IsDigit(c)
    ensures v < 10
  {
    (c as int) - ('0' as int)
  }

  function DigitChar(v: nat): (c: char)
    requires v < 10
    ensures IsDigit(c) && DigitValue(c) == v
  {
    (('0' as int) + v) as char
  }

  /** The characters Ruby's `String#to_i` skips before the number. */
  predicate IsAsciiSpace(c: char) {
    c == ' ' || 9 <= c as int <= 13
  }

  /** Unicode white space, which Rails' `blank?` treats as blank. */
  predicate IsBlankChar(c: char) {
    || IsAsciiSpace(c)
    || c as int == 0x85 || c as int == 0xA0 || c as int == 0x1680
    || 0x2000 <= c as int <= 0x200A
    || c as int == 0x2028 || c as int == 0x2029 || c as int == 0x202F
    || c as int == 0x205F || c as int == 0x3000
  }

  /** Rails `blank?`: nil, or a string of white space only; never a number. */
  predicate Blank(f: Field) {
    match f
    case Nil => true
    case Text(s) => forall i :: 0 <= i < |s| ==> IsBlankChar(s[i])
    case Num(_) => false
  }

  function SkipSpaces(s: string): (t: string)
    ensures |t| <= |s| && t == s[|s| - |t|..]
    ensures |t| > 0 ==> !IsAsciiSpace(t[0])
    ensures forall i :: 0 <= i < |s| - |t| ==> IsAsciiSpace(s[i])
  {
    if |s| > 0 && IsAsciiSpace(s[0]) then SkipSpaces(s[1..]) else s
  }

  /** Length of the run of decimal digits that starts `s`. */
  function DigitRun(s: string): (k: nat)
    ensures k <= |s|
    ensures forall i :: 0 <= i < k ==> IsDigit(s[i])
    ensures k < |s| ==> !IsDigit(s[k])
  {
    if |s| > 0 && IsDigit(s[0]) then 1 + DigitRun(s[1..]) else 0
  }

  /** The number a string of decimal digits denotes. */
  function DecimalValue(s: string): (v: nat)
    requires forall i :: 0 <= i < |s| ==> IsDigit(s[i])
  {
    if |s| == 0 then 0
    else DecimalValue(s[..|s| - 1]) * 10 + DigitValue(s[|s| - 1])
  }

  function LeadingNumber(s: string): nat {
    DecimalValue(s[..DigitRun(s)])
  }

  /** The decimal radix prefix "0d" or "0D", which base-10 `to_i` skips. */
  predicate RadixPrefixed(s: string) {
    |s| >= 2 && s[0] == '0' && (s[1] == 'd' || s[1] == 'D')
  }

  /** The digits after an optional radix prefix, read as a number. */
  function Unsigned(s: string): nat {
    if RadixPrefixed(s) then LeadingNumber(s[2..]) else LeadingNumber(s)
  }

  /** Ruby `String#to_i`: optional white space and sign, an optional "0d"
      prefix, then the longest run of digits; 0 when there is none. */
  function StrToI(s: string): (r: int)
    ensures (forall i :: 0 <= i < |s| ==> IsBlankChar(s[i])) ==> r == 0
    ensures |s| > 0 && IsDigit(s[0]) ==> r >= 0
    ensures |s| > 0 && !IsBlankChar(s[0]) && !IsDigit(s[0]) && s[0] !in "+-" ==> r == 0
  {
    var t := SkipSpaces(s);
    if |t| > 0 && t[0] == '-' then 0 - Unsigned(t[1..]) as int
    else if |t| > 0 && t[0] == '+' then Unsigned(t[1..])
    else Unsigned(t)
  }

  /** A string of digits only is read whole. */
  lemma AllDigitsRead(digits: string)
    requires forall i :: 0 <= i < |digits| ==> IsDigit(digits[i])
    ensures LeadingNumber(digits) == DecimalValue(digits)
  {
    assert digits[..DigitRun(digits)] == digits;
  }

  /** Text starting with a digit has no white space or sign to skip. */
  lemma DigitFirstRead(t: string)
    requires |t| > 0 && IsDigit(t[0])
    ensures StrToI(t) == Unsigned(t)
    ensures StrToI(['-'] + t) == 0 - Unsigned(t) as int
  {
    NoLeadingSpace(t);
    var u := ['-'] + t;
    NoLeadingSpace(u);
    assert u[0] == '-' && u[1..] == t;
  }

  /** After the radix prefix "0d" or "0D", with or without a minus sign,
      a string of digits reads as the number it denotes. */
  lemma RadixPrefixSkipped(x: char, digits: string)
    requires x == 'd' || x == 'D'
    requires forall i :: 0 <= i < |digits| ==> IsDigit(digits[i])
    ensures StrToI(['0', x] + digits) == DecimalValue(digits)
    ensures StrToI(['-'] + (['0', x] + digits)) == 0 - DecimalValue(digits) as int
  {
    var t := ['0', x] + digits;
    assert Unsigned(t) == DecimalValue(digits) by {
      assert RadixPrefixed(t) && t[2..] == digits;
      AllDigitsRead(digits);
    }
    DigitFirstRead(t);
  }

  /** Decimal digits of a natural number, most significant first. */
  function ShowNat(n: nat): (s: string)
    ensures |s| > 0
    ensures forall i :: 0 <= i < |s| ==> IsDigit(s[i])
  {
    if n < 10 then [DigitChar(n)] else ShowNat(n / 10) + [DigitChar(n % 10)]
  }

  /** Ruby `Integer#to_s`. */
  function ShowInt(n: int): string {
    if n < 0 then "-" + ShowNat(-n) else ShowNat(n)
  }

  /** Text that starts with a digit is not blank. */
  lemma DigitNotBlank(s: string)
    requires |s| > 0 && IsDigit(s[0])
    ensures !Blank(Text(s))
  {
    assert !IsBlankChar(s[0]);
  }

  /** Ruby `to_i` on a parameter: nil is 0, a string is parsed, a number is itself. */
  function ToI(f: Field): (r: int)
    ensures Blank(f) ==> r == 0
  {
    match f
    case Nil => 0
    case Text(s) => StrToI(s)
    case Num(n) => n
  }

  /** Ruby `to_s` on a parameter: nil is the empty string. */
  function ToS(f: Field): string {
    match f
    case Nil => ""
    case Text(s) => s
    case Num(n) => ShowInt(n)
  }

  lemma {:induction false} DecimalOfShowNat(n: nat)
    ensures DecimalValue(ShowNat(n)) == n
  {
    if n >= 10 {
      var s := ShowNat(n);
      assert s[..|s| - 1] == ShowNat(n / 10);
      DecimalOfShowNat(n / 10);
    }
  }

  lemma {:induction false} DigitRunOfDigits(s: string)
    requires forall i :: 0 <= i < |s| ==> IsDigit(s[i])
    ensures DigitRun(s) == |s|
  {
    if |s| > 0 {
      DigitRunOfDigits(s[1..]);
    }
  }

  /** `to_s` and `to_i` are inverse on integers: a number typed as its own
      decimal text reads back as that number. */
  lemma ShowIntToI(n: int)
    ensures StrToI(ShowInt(n)) == n
    ensures ToI(Text(ShowInt(n))) == ToI(Num(n))
  {
    var m: nat := if n < 0 then -n else n;
    var s := ShowNat(m);
    ShowNatReadsBack(m);
    var t := ShowInt(n);
    NoLeadingSpace(t);
    if n < 0 {
      assert t[0] == '-' && t[1..] == s;
    } else {
      assert t == s && IsDigit(s[0]);
    }
  }

  /** The digits of `m` read back as `m`. */
  lemma ShowNatReadsBack(m: nat)
    ensures LeadingNumber(ShowNat(m)) == m
  {
    var s := ShowNat(m);
    DecimalOfShowNat(m);
    DigitRunOfDigits(s);
    assert s[..|s|] == s;
  }

  /** Text that starts with a sign or a digit has no white space to skip. */
  lemma NoLeadingSpace(t: string)
    requires |t| > 0 && (t[0] == '-' || IsDigit(t[0]))
    ensures SkipSpaces(t) == t
  {
    assert !IsAsciiSpace(t[0]);
  }

  /** The elements of `xs` that `keep` accepts, in their original order
      (Ruby's `select`). */
  function Filter<T(==,!new)>(xs: seq<T>, keep: T -> bool): (r: seq<T>)
    ensures |r| <= |xs|
    ensures forall x :: x in r <==> x in xs && keep(x)
  {
    if |xs| == 0 then []
    else
      assert forall x :: x in xs <==> x == xs[0] || x in xs[1..] by {
        assert xs == [xs[0]] + xs[1..];
      }
      (if keep(xs[0]) then [xs[0]] else []) + Filter(xs[1..], keep)
  }

  /** `Filter` keeps every accepted element as often as it occurs, and drops
      every other one. */
  lemma {:induction false} FilterCounts<T(!new)>(xs: seq<T>, keep: T -> bool, x: T)
    ensures multiset(Filter(xs, keep))[x] == if keep(x) then multiset(xs)[x] else 0
  {
    if |xs| > 0 {
      assert xs == [xs[0]] + xs[1..];
      FilterCounts(xs[1..], keep, x);
    }
  }

  /** Two sequences related element by element stay so when a related pair
      is put in front of them. */
  lemma PairedCons<A, B>(rel: (A, B) -> bool, a: A, b: B, xs: seq<A>, ys: seq<B>)
    requires rel(a, b)
    requires |xs| == |ys| && forall j :: 0 <= j < |xs| ==> rel(xs[j], ys[j])
    ensures var xs', ys' := [a] + xs, [b] + ys;
      |xs'| == |ys'| && forall j :: 0 <= j < |xs'| ==> rel(xs'[j], ys'[j])
  {
    var xs', ys' := [a] + xs, [b] + ys;
    forall j | 1 <= j < |xs'| ensures rel(xs'[j], ys'[j]) {
      assert xs'[j] == xs[j - 1] && ys'[j] == ys[j - 1];
    }
  }
}
