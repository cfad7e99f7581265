/** The digit codec of the CPF package: parsing a string into an 11-slot
    digit buffer, splitting an integer into 11 right-aligned digits and
    reassembling it, and rendering a buffer in masked (DDD.DDD.DDD-DD) or
    plain (11 digits) form. */
module Format {

  /** Number of digits in a CPF. */
  const Width := 11

  /** Positional weights 10^10 .. 10^0 used to reassemble a number. */
  const Pow11: seq<int> := [10000000000, 1000000000, 100000000, 10000000, 1000000,
                             100000, 10000, 1000, 100, 10, 1]

  /** Slots of the 14-character masked form that hold digits 0..10. */
  const MaskSlots: seq<int> := [0, 1, 2, 4, 5, 6, 8, 9, 10, 12, 13]

  // ---------------------------------------------------------------------
  // Arithmetic

  function Pow10(k: nat): (r: nat)
    ensures r >= 1
  {
    if k == 0 then 1 else 10 * Pow10(k - 1)
  }

  lemma {:induction false} MulAtLeast(m: int, x: int)
    requires m > 0 && x >= 1
    ensures m * x >= m
  {
    if x > 1 {
      MulAtLeast(m, x - 1);
      assert m * x == m * (x - 1) + m;
    }
  }

  /** Quotient and remainder are determined by n == m * q + t with 0 <= t < m. */
  lemma DivModUnique(n: int, m: int, q: int, t: int)
    requires m > 0 && 0 <= t < m && n == m * q + t
    ensures n / m == q && n % m == t
  {
    var q0, t0 := n / m, n % m;
    assert m * q0 + t0 == n;
    if q > q0 {
      MulAtLeast(m, q - q0);
    } else if q < q0 {
      MulAtLeast(m, q0 - q);
    }
  }

  lemma NestedDivision(n: int, a: int, b: int, q1: int, r1: int, q2: int, r2: int)
    requires a > 0 && b > 0
    requires n == a * q1 + r1 && 0 <= r1 < a
    requires q1 == b * q2 + r2 && 0 <= r2 < b
    ensures n == (a * b) * q2 + (a * r2 + r1) && 0 <= a * r2 + r1 < a * b
  {
    assert a * q1 == (a * b) * q2 + a * r2;
    assert a * r2 <= a * (b - 1);
  }

  lemma DivDiv(n: nat, a: int, b: int)
    requires a > 0 && b > 0
    ensures n / a / b == n / (a * b)
  {
    var q1, r1 := n / a, n % a;
    var q2, r2 := q1 / b, q1 % b;
    NestedDivision(n, a, b, q1, r1, q2, r2);
    DivModUnique(n, a * b, q2, a * r2 + r1);
  }

  lemma Pow11IsPowersOfTen()
    ensures |Pow11| == Width
    ensures forall i :: 0 <= i < Width ==> Pow11[i] == Pow10(Width - 1 - i)
  {
  }

  // ---------------------------------------------------------------------
  // Specification of the codec

  predicate IsDigit(c: char) {
    '0' <= c <= '9'
  }

  /** The values of the digit characters of s, in order; every other character is skipped. */
  function DigitValues(s: string): (r: seq<int>)
    ensures |r| <= |s|
    ensures forall k :: 0 <= k < |r| ==> 0 <= r[k] <= 9
  {
    if s == [] then []
    else (if IsDigit(s[0]) then [s[0] as int - '0' as int] else []) + DigitValues(s[1..])
  }

  /** The digit characters of s, in order. */
  function DigitChars(s: string): (r: string)
    ensures forall k :: 0 <= k < |r| ==> IsDigit(r[k])
  {
    if s == [] then []
    else (if IsDigit(s[0]) then [s[0]] else []) + DigitChars(s[1..])
  }

  /** The k lowest decimal digits of n, most significant first. */
  function DigitsOf(n: nat, k: nat): (r: seq<int>)
    ensures |r| == k
  {
    if k == 0 then [] else DigitsOf(n / 10, k - 1) + [n % 10]
  }

  /** Positional decimal value of a digit sequence, most significant first. */
  function Number(d: seq<int>): int
  {
    if d == [] then 0 else d[0] * Pow10(|d| - 1) + Number(d[1..])
  }

  /** Go's byte(d + '0'): the low eight bits of d + 48, as a character. */
  function ByteOf(d: int): (c: char)
    ensures 0 <= d <= 9 ==> IsDigit(c) && c as int - '0' as int == d
  {
    ((d + '0' as int) % 256) as char
  }

  /** Each entry rendered as one character. */
  function Render(d: seq<int>): (r: string)
    ensures |r| == |d|
    ensures forall k :: 0 <= k < |d| ==> r[k] == ByteOf(d[k])
  {
    seq(|d|, k requires 0 <= k < |d| => ByteOf(d[k]))
  }

  /** The masked display form DDD.DDD.DDD-DD of an 11-entry buffer. */
  function MaskedText(d: seq<int>): (r: string)
    requires |d| == Width
    ensures |r| == 14 && r[3] == '.' && r[7] == '.' && r[11] == '-'
    ensures forall i :: 0 <= i < Width ==> r[MaskSlots[i]] == ByteOf(d[i])
  {
    Render(d[..3]) + "." + Render(d[3..6]) + "." + Render(d[6..9]) + "-" + Render(d[9..])
  }

  /** What maskInt returns. */
  function MaskIntSpec(n: int): string
  {
    if n <= 0 then "" else MaskedText(DigitsOf(n, Width))
  }

  /** What maskString returns. */
  function MaskStringSpec(s: string): string
  {
    var d := DigitValues(s);
    if |d| != Width then "" else MaskedText(d)
  }

  /** What unmask returns. */
  function UnmaskSpec(s: string): string
  {
    var d := DigitValues(s);
    if |d| != Width then "" else Render(d)
  }

  /** What unmaskToInt returns. */
  function UnmaskToIntSpec(s: string): int
  {
    var d := DigitValues(s);
    if |d| != Width then -1 else Number(d)
  }

  // ---------------------------------------------------------------------
  // Lemmas about the specification

  lemma {:induction false} DigitValuesAppend(a: string, b: string)
    ensures DigitValues(a + b) == DigitValues(a) + DigitValues(b)
  {
    if a == [] {
      assert a + b == b;
    } else {
      assert (a + b)[1..] == a[1..] + b;
      DigitValuesAppend(a[1..], b);
    }
  }

  /** Characters that are not digits are skipped wherever they stand. */
  lemma NonDigitSkipped(a: string, c: char, b: string)
    requires !IsDigit(c)
    ensures DigitValues(a + [c] + b) == DigitValues(a + b)
  {
    DigitValuesAppend(a + [c], b);
    DigitValuesAppend(a, [c]);
    DigitValuesAppend(a, b);
    assert [c][1..] == [];
  }

  /** Reading one more character extends the digits by that character's value, if any. */
  lemma DigitValuesSnoc(s: string, i: nat)
    requires i < |s|
    ensures DigitValues(s[..i + 1]) ==
            DigitValues(s[..i]) + (if IsDigit(s[i]) then [s[i] as int - '0' as int] else [])
  {
    assert s[..i + 1] == s[..i] + [s[i]];
    DigitValuesAppend(s[..i], [s[i]]);
    assert [s[i]][1..] == [];
  }

  /** The digits of a prefix are a prefix of the digits. */
  lemma {:induction false} DigitValuesPrefix(s: string, i: nat)
    requires i <= |s|
    ensures DigitValues(s[..i]) <= DigitValues(s)
  {
    assert s == s[..i] + s[i..];
    DigitValuesAppend(s[..i], s[i..]);
  }

  /** DigitValues holds the value of each digit character of s, in order. */
  lemma {:induction false} DigitValuesAreDigitChars(s: string)
    ensures |DigitValues(s)| == |DigitChars(s)|
    ensures forall k :: 0 <= k < |DigitChars(s)| ==>
              DigitValues(s)[k] == DigitChars(s)[k] as int - '0' as int
  {
    if s != [] {
      DigitValuesAreDigitChars(s[1..]);
    }
  }

  /** Digits rendered as characters parse back to themselves. */
  lemma {:induction false} DigitValuesOfRender(d: seq<int>)
    requires forall k :: 0 <= k < |d| ==> 0 <= d[k] <= 9
    ensures DigitValues(Render(d)) == d
  {
    if d != [] {
      assert Render(d)[1..] == Render(d[1..]);
      DigitValuesOfRender(d[1..]);
    }
  }

  lemma DigitValuesAppend4(a: string, b: string, c: string, e: string)
    ensures DigitValues(a + b + c + e) == DigitValues(a) + DigitValues(b) + DigitValues(c) + DigitValues(e)
  {
    DigitValuesAppend(a, b);
    DigitValuesAppend(a + b, c);
    DigitValuesAppend(a + b + c, e);
  }

  /** A group of rendered digits followed by a separator parses back to the group. */
  lemma DigitValuesOfGroup(x: seq<int>, sep: char)
    requires forall k :: 0 <= k < |x| ==> 0 <= x[k] <= 9
    requires !IsDigit(sep)
    ensures DigitValues(Render(x) + [sep]) == x
  {
    DigitValuesOfRender(x);
    DigitValuesAppend(Render(x), [sep]);
    assert [sep][1..] == [];
  }

  /** The masked form carries exactly the buffer's digits. */
  lemma DigitValuesOfMasked(d: seq<int>)
    requires |d| == Width
    requires forall k :: 0 <= k < |d| ==> 0 <= d[k] <= 9
    ensures DigitValues(MaskedText(d)) == d
  {
    var a, b, c, e := d[..3], d[3..6], d[6..9], d[9..];
    MaskedTextGroups(d);
    DigitValuesOfGroup(a, '.');
    DigitValuesOfGroup(b, '.');
    DigitValuesOfGroup(c, '-');
    DigitValuesOfRender(e);
    DigitValuesAppend4(Render(a) + ".", Render(b) + ".", Render(c) + "-", Render(e));
    SplitInFour(d);
  }

  lemma MaskedTextGroups(d: seq<int>)
    requires |d| == Width
    ensures MaskedText(d) == (Render(d[..3]) + ".") + (Render(d[3..6]) + ".") + (Render(d[6..9]) + "-") + Render(d[9..])
  {
    assert MaskedText(d) == Render(d[..3]) + "." + Render(d[3..6]) + "." + Render(d[6..9]) + "-" + Render(d[9..]);
  }

  lemma SplitInFour(d: seq<int>)
    requires |d| == Width
    ensures d == d[..3] + d[3..6] + d[6..9] + d[9..]
  {
  }

  /** A 14-character string with the mask's shape is the masked form of its digits. */
  lemma MaskedShapeUnique(d: seq<int>, r: string)
    requires |d| == Width && |r| == 14
    requires r[3] == '.' && r[7] == '.' && r[11] == '-'
    requires forall i :: 0 <= i < Width ==> r[MaskSlots[i]] == ByteOf(d[i])
    ensures r == MaskedText(d)
  {
    var m := MaskedText(d);
    forall k | 0 <= k < 14
      ensures r[k] == m[k]
    {
      if k != 3 && k != 7 && k != 11 {
        var i := if k < 3 then k else if k < 7 then k - 1 else if k < 11 then k - 2 else k - 3;
        assert MaskSlots[i] == k;
      }
    }
  }

  lemma MulDigit(x: int, p: nat)
    requires 0 <= x <= 9
    ensures 0 <= x * p <= 9 * p
  {
  }

  /** Appending a digit shifts the value one decimal place. */
  lemma {:induction false} NumberSnoc(p: seq<int>, x: int)
    ensures Number(p + [x]) == Number(p) * 10 + x
  {
    if p != [] {
      assert (p + [x])[1..] == p[1..] + [x];
      NumberSnoc(p[1..], x);
      assert p[0] * Pow10(|p|) == p[0] * Pow10(|p| - 1) * 10;
    }
  }

  lemma {:induction false} NumberBounds(d: seq<int>)
    requires forall k :: 0 <= k < |d| ==> 0 <= d[k] <= 9
    ensures 0 <= Number(d) < Pow10(|d|)
  {
    if d != [] {
      NumberBounds(d[1..]);
      var p := Pow10(|d| - 1);
      assert Pow10(|d|) == 10 * p;
      assert 0 <= d[0] * p <= 9 * p by { MulDigit(d[0], p); }
    }
  }

  lemma {:induction false} DigitsOfInRange(n: nat, k: nat)
    ensures forall j :: 0 <= j < k ==> 0 <= DigitsOf(n, k)[j] <= 9
  {
    if k > 0 {
      DigitsOfInRange(n / 10, k - 1);
    }
  }

  /** Digit j of the k lowest digits of n is the quotient by 10^(k-1-j), modulo 10. */
  lemma {:induction false} DigitsOfAt(n: nat, k: nat, j: nat)
    requires j < k
    ensures DigitsOf(n, k)[j] == (n / Pow10(k - 1 - j)) % 10
  {
    if j < k - 1 {
      DigitsOfAt(n / 10, k - 1, j);
      DivDiv(n, 10, Pow10(k - 2 - j));
    }
  }

  /** n modulo 10p is n's last digit after the quotient by 10 taken modulo p. */
  lemma ModTenStep(n: nat, p: int)
    requires p > 0
    ensures ((n / 10) % p) * 10 + n % 10 == n % (10 * p)
  {
    var q, r := n / 10, n % 10;
    var a, b := q / p, q % p;
    assert q == p * a + b;
    assert n == 10 * q + r;
    assert n == (10 * p) * a + (10 * b + r);
    assert 10 * b + r < 10 * p;
    DivModUnique(n, 10 * p, a, 10 * b + r);
  }

  /** Reassembling the digits of n gives n modulo 10^k: the high digits are dropped. */
  lemma {:induction false} NumberOfDigitsOf(n: nat, k: nat)
    ensures Number(DigitsOf(n, k)) == n % Pow10(k)
  {
    if k > 0 {
      NumberSnoc(DigitsOf(n / 10, k - 1), n % 10);
      NumberOfDigitsOf(n / 10, k - 1);
      ModTenStep(n, Pow10(k - 1));
    }
  }

  /** Splitting a number assembled from k digits gives those digits back. */
  lemma {:induction false} DigitsOfNumber(d: seq<int>)
    requires forall k :: 0 <= k < |d| ==> 0 <= d[k] <= 9
    ensures Number(d) >= 0 && DigitsOf(Number(d), |d|) == d
  {
    NumberBounds(d);
    if d != [] {
      var p, x := d[..|d| - 1], d[|d| - 1];
      DigitsOfNumber(p);
      var n := Number(d);
      assert d == p + [x];
      NumberSnoc(p, x);
      DivModUnique(n, 10, Number(p), x);
      assert d == p + [x];
    }
  }

  /** maskInt then unmaskToInt gives back the 11 lowest digits of a positive number. */
  lemma UnmaskToIntOfMaskInt(n: int)
    requires n > 0
    ensures UnmaskToIntSpec(MaskIntSpec(n)) == n % Pow10(Width)
    ensures n < Pow10(Width) ==> UnmaskToIntSpec(MaskIntSpec(n)) == n
  {
    var d := DigitsOf(n, Width);
    DigitsOfInRange(n, Width);
    DigitValuesOfMasked(d);
    NumberOfDigitsOf(n, Width);
    if n < Pow10(Width) {
      DivModUnique(n, Pow10(Width), 0, n);
    }
  }

  /** Unmasking the masked form of s gives what unmasking s gives. */
  lemma UnmaskOfMaskString(s: string)
    requires |DigitValues(s)| == Width
    ensures UnmaskSpec(MaskStringSpec(s)) == UnmaskSpec(s)
  {
    DigitValuesOfMasked(DigitValues(s));
  }

  /** Masking the unmasked form of s gives what masking s gives. */
  lemma MaskOfUnmask(s: string)
    ensures MaskStringSpec(UnmaskSpec(s)) == MaskStringSpec(s)
  {
    if |DigitValues(s)| == Width {
      DigitValuesOfRender(DigitValues(s));
    }
  }

  /** unmask returns exactly the digit characters of s, or "" unless there are 11. */
  lemma UnmaskIsDigitChars(s: string)
    ensures UnmaskSpec(s) == if |DigitChars(s)| == Width then DigitChars(s) else ""
  {
    DigitValuesAreDigitChars(s);
    var d, c := DigitValues(s), DigitChars(s);
    if |d| == Width {
      forall k | 0 <= k < Width
        ensures Render(d)[k] == c[k]
      {
        assert d[k] + '0' as int == c[k] as int;
      }
    }
  }

  /** The three string entry points fail together, exactly when s does not
      hold 11 digits; otherwise unmaskToInt lies in [0, 10^11 - 1]. */
  lemma ExtractionFailure(s: string)
    ensures MaskStringSpec(s) == "" <==> |DigitValues(s)| != Width
    ensures UnmaskSpec(s) == "" <==> |DigitValues(s)| != Width
    ensures UnmaskToIntSpec(s) == -1 <==> |DigitValues(s)| != Width
    ensures |DigitValues(s)| == Width ==> 0 <= UnmaskToIntSpec(s) < Pow10(Width)
  {
    var d := DigitValues(s);
    if |d| == Width {
      NumberBounds(d);
      assert |MaskStringSpec(s)| == 14;
      assert |UnmaskSpec(s)| == Width;
    }
  }

  /** Only the k lowest digits of n matter. */
  lemma DigitsOfLowDigits(n: nat, k: nat)
    ensures DigitsOf(n, k) == DigitsOf(n % Pow10(k), k)
  {
    NumberOfDigitsOf(n, k);
    DigitsOfInRange(n, k);
    DigitsOfNumber(DigitsOf(n, k));
  }

  /** The masked form written out character by character. */
  lemma MaskedTextDisplay(d: seq<int>)
    requires |d| == Width
    ensures MaskedText(d) == [ByteOf(d[0]), ByteOf(d[1]), ByteOf(d[2]), '.',
                              ByteOf(d[3]), ByteOf(d[4]), ByteOf(d[5]), '.',
                              ByteOf(d[6]), ByteOf(d[7]), ByteOf(d[8]), '-',
                              ByteOf(d[9]), ByteOf(d[10])]
  {
    var r := [ByteOf(d[0]), ByteOf(d[1]), ByteOf(d[2]), '.',
              ByteOf(d[3]), ByteOf(d[4]), ByteOf(d[5]), '.',
              ByteOf(d[6]), ByteOf(d[7]), ByteOf(d[8]), '-',
              ByteOf(d[9]), ByteOf(d[10])];
    forall i | 0 <= i < Width
      ensures r[MaskSlots[i]] == ByteOf(d[i])
    {
    }
    MaskedShapeUnique(d, r);
  }

  /** maskInt renders an 11-digit number as is. */
  lemma MaskIntExample()
    ensures MaskIntSpec(11144477735) == "111.444.777-35"
    ensures MaskIntSpec(0) == "" && MaskIntSpec(-1) == ""
  {
    var a := [1, 1, 1, 4, 4, 4, 7, 7, 7, 3, 5];
    MaskedTextDisplay(a);
    assert MaskedText(a) == "111.444.777-35";
    assert DigitsOf(11144477735, Width) == a;
  }

  /** maskInt zero-pads a number of fewer than 11 digits. */
  lemma MaskIntPadsExample()
    ensures MaskIntSpec(2147483647) == "021.474.836-47"
  {
    var b := [0, 2, 1, 4, 7, 4, 8, 3, 6, 4, 7];
    MaskedTextDisplay(b);
    assert MaskedText(b) == "021.474.836-47";
    assert DigitsOf(2147483647, Width) == b;
  }

  /** maskInt keeps the 11 lowest digits of a longer number. */
  lemma MaskIntTruncatesExample()
    ensures MaskIntSpec(123456789012) == "234.567.890-12"
  {
    var c := [2, 3, 4, 5, 6, 7, 8, 9, 0, 1, 2];
    MaskedTextDisplay(c);
    assert MaskedText(c) == "234.567.890-12";
    assert DigitsOf(123456789012, Width) == c;
  }

  /** Strings without 11 digits are refused; masked input unmasks to its digits. */
  lemma ExtractionExamples()
    ensures UnmaskToIntSpec("123") == -1
    ensures MaskStringSpec("invalid") == ""
    ensures UnmaskSpec("111.444.777-35") == "11144477735"
  {
    var a := [1, 1, 1, 4, 4, 4, 7, 7, 7, 3, 5];
    MaskedTextDisplay(a);
    assert MaskedText(a) == "111.444.777-35";
    DigitValuesOfMasked(a);
    assert Render(a) == "11144477735";
  }

  // ---------------------------------------------------------------------
  // The operations of format.go

  /** Fills the first 11 slots of digits with the digit characters of s.
      Succeeds exactly when s holds 11 digit characters; on failure the
      buffer holds as many leading digits as were read before giving up. */
  method ExtractDigits(s: string, digits: array<int>) returns (ok: bool)
    requires digits.Length == Width
    modifies digits
    ensures ok <==> |DigitValues(s)| == Width
    ensures ok ==> digits[..] == DigitValues(s)
    ensures var m := if |DigitValues(s)| < Width then |DigitValues(s)| else Width;
            digits[..m] == DigitValues(s)[..m] && digits[m..] == old(digits[m..])
  {
    var count := 0;
    var i := 0;
    while i < |s|
      invariant 0 <= i <= |s|
      invariant count == |DigitValues(s[..i])| <= Width
      invariant digits[..count] == DigitValues(s[..i])
      invariant digits[count..] == old(digits[count..])
    {
      var c := s[i];
      DigitValuesSnoc(s, i);
      if '0' <= c <= '9' {
        if count >= Width {
          DigitValuesPrefix(s, i + 1);
          return false;
        }
        ghost var before := digits[..];
        digits[count] := c as int - '0' as int;
        assert digits[..count + 1] == before[..count] + [c as int - '0' as int];
        assert digits[count + 1..] == before[count + 1..];
        count := count + 1;
      }
      i := i + 1;
    }
    assert s[..i] == s;
    return count == Width;
  }

  /** Splits num into its 11 lowest decimal digits, right-aligned. */
  method ToDigits(num: int) returns (digits: array<int>)
    requires num >= 0
    ensures fresh(digits)
    ensures digits.Length == Width && digits[..] == DigitsOf(num, Width)
  {
    digits := new int[Width];
    var n := num;
    var i := Width - 1;
    while i >= 0
      invariant -1 <= i < Width
      invariant n == num / Pow10(Width - 1 - i)
      invariant forall j :: i < j < Width ==> digits[j] == (num / Pow10(Width - 1 - j)) % 10
    {
      digits[i] := n % 10;
      DivDiv(num, Pow10(Width - 1 - i), 10);
      n := n / 10;
      i := i - 1;
    }
    forall j | 0 <= j < Width
      ensures digits[j] == DigitsOf(num, Width)[j]
    {
      DigitsOfAt(num, Width, j);
    }
  }

  /** Reassembles the number whose decimal digits the buffer holds. */
  method ToNumber(digits: array<int>) returns (result: int)
    requires digits.Length == Width
    ensures result == Number(digits[..])
  {
    Pow11IsPowersOfTen();
    result := 0;
    for i := 0 to Width
      invariant result + Number(digits[i..]) == Number(digits[..])
    {
      assert digits[i..][1..] == digits[i + 1..];
      result := result + digits[i] * Pow11[i];
    }
  }

  /** Renders the buffer in the masked form DDD.DDD.DDD-DD. */
  method BufferToStringMasked(digits: array<int>) returns (r: string)
    requires digits.Length == Width
    ensures |r| == 14 && r[3] == '.' && r[7] == '.' && r[11] == '-'
    ensures forall i :: 0 <= i < Width ==> r[MaskSlots[i]] == ByteOf(digits[i])
    ensures r == MaskedText(digits[..])
  {
    var buf := new char[14](_ => 0 as char);
    buf[3], buf[7], buf[11] := '.', '.', '-';
    for i := 0 to Width
      invariant buf[3] == '.' && buf[7] == '.' && buf[11] == '-'
      invariant forall j :: 0 <= j < i ==> buf[MaskSlots[j]] == ByteOf(digits[j])
    {
      buf[MaskSlots[i]] := ByteOf(digits[i]);
    }
    r := buf[..];
    MaskedShapeUnique(digits[..], r);
  }

  /** Renders the buffer as 11 characters, one per entry. */
  method BufferToStringUnmasked(digits: array<int>) returns (r: string)
    requires digits.Length == Width
    ensures |r| == Width
    ensures forall i :: 0 <= i < Width ==> r[i] == ByteOf(digits[i])
  {
    var buf := new char[Width](_ => 0 as char);
    for i := 0 to Width
      invariant forall j :: 0 <= j < i ==> buf[j] == ByteOf(digits[j])
    {
      buf[i] := ByteOf(digits[i]);
    }
    r := buf[..];
  }

  method MaskInt(cpf: int) returns (r: string)
    ensures r == MaskIntSpec(cpf)
    ensures cpf > 0 ==> |r| == 14
  {
    if cpf <= 0 {
      return "";
    }
    var digits := ToDigits(cpf);
    var result := BufferToStringMasked(digits);
    if |result| != 14 {
      return "";
    }
    return result;
  }

  method MaskString(cpf: string) returns (r: string)
    ensures r == MaskStringSpec(cpf)
  {
    var digits := new int[Width];
    var ok := ExtractDigits(cpf, digits);
    if !ok {
      return "";
    }
    var result := BufferToStringMasked(digits);
    if |result| != 14 {
      return "";
    }
    return result;
  }

  method Unmask(cpf: string) returns (r: string)
    ensures r == UnmaskSpec(cpf)
  {
    var digits := new int[Width];
    var ok := ExtractDigits(cpf, digits);
    if !ok {
      return "";
    }
    r := BufferToStringUnmasked(digits);
  }

  method UnmaskToInt(cpf: string) returns (r: int)
    ensures r == UnmaskToIntSpec(cpf)
  {
    var digits := new int[Width];
    var ok := ExtractDigits(cpf, digits);
    if !ok {
      return -1;
    }
    r := ToNumber(digits);
  }
}
