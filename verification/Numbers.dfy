/**
  Printing numbers (itoa and strrev in student-distrib/lib.c and syscalls/ece391support.c, and
  the hexadecimal formats of printf in student-distrib/lib.c).
 */
module Numbers {
  import opened Machine

  type Text = seq<Byte>

  /** The lookup table: 0 to 9, then A to Z. */
  function DigitChar(d: nat): Byte
    requires d < 36
  {
    if d < 10 then 48 + d else 55 + d
  }

  function DigitValue(c: Byte): int {
    if 48 <= c < 58 then c - 48 else c - 55
  }

  lemma DigitRoundTrip(d: nat)
    requires d < 36
    ensures DigitValue(DigitChar(d)) == d && DigitChar(d) != 0 && (DigitChar(d) == 48 <==> d == 0)
  {
  }

  /** The digits of a number, lowest first, as the first loop of itoa produces them. */
  function LowFirst(value: nat, radix: nat): Text
    requires 2 <= radix <= 36
    decreases value
  {
    if value == 0 then []
    else
      Smaller(value, radix);
      [DigitChar(value % radix)] + LowFirst(value / radix, radix)
  }

  lemma Smaller(value: nat, radix: nat)
    requires value > 0 && radix >= 2
    ensures 0 <= value / radix < value && value % radix < radix
  {
    var q := value / radix;
    Products(2, radix, q, q);
    assert value == radix * q + value % radix;
  }

  /** The bytes from the last to the first. */
  function Backwards(s: Text): (r: Text)
    ensures |r| == |s|
  {
    seq(|s|, i requires 0 <= i < |s| => s[|s| - 1 - i])
  }

  /** What itoa writes before the NUL. */
  function Digits(value: nat, radix: nat): Text
    requires 2 <= radix <= 36
  {
    if value == 0 then [48] else Backwards(LowFirst(value, radix))
  }

  /** The number that a string of digits stands for, highest digit first. */
  function Decode(s: Text, radix: nat): int {
    if s == [] then 0 else Decode(s[..|s| - 1], radix) * radix + DigitValue(s[|s| - 1])
  }

  lemma DecodeAppend(s: Text, c: Byte, radix: nat)
    ensures Decode(s + [c], radix) == Decode(s, radix) * radix + DigitValue(c)
  {
    var t := s + [c];
    assert t[..|t| - 1] == s && t[|t| - 1] == c;
  }

  lemma LowStep(value: nat, radix: nat)
    requires 2 <= radix <= 36 && value > 0
    ensures 0 <= value / radix < value && value % radix < radix
    ensures LowFirst(value, radix) == [DigitChar(value % radix)] + LowFirst(value / radix, radix)
  {
    Smaller(value, radix);
  }

  lemma Division(value: nat, radix: nat)
    requires radix > 0
    ensures value == value / radix * radix + value % radix
  {
  }

  lemma BackwardsCons(c: Byte, s: Text)
    ensures Backwards([c] + s) == Backwards(s) + [c]
  {
  }

  lemma {:induction false} DecodeBackwards(value: nat, radix: nat)
    requires 2 <= radix <= 36
    ensures Decode(Backwards(LowFirst(value, radix)), radix) == value
    decreases value
  {
    if value > 0 {
      hide Decode, Backwards, DigitChar, DigitValue, LowFirst;
      LowStep(value, radix);
      Division(value, radix);
      var q, r := value / radix, value % radix;
      var c, rest := DigitChar(r), LowFirst(q, radix);
      BackwardsCons(c, rest);
      DecodeBackwards(q, radix);
      DecodeAppend(Backwards(rest), c, radix);
      DigitRoundTrip(r);
    }
  }

  lemma {:induction false} TopDigit(value: nat, radix: nat)
    requires 2 <= radix <= 36 && value > 0
    ensures LowFirst(value, radix) != [] && LowFirst(value, radix)[|LowFirst(value, radix)| - 1] != 48
    ensures forall i :: 0 <= i < |LowFirst(value, radix)| ==> LowFirst(value, radix)[i] != 0
    decreases value
  {
    Smaller(value, radix);
    DigitRoundTrip(value % radix);
    if value / radix > 0 {
      TopDigit(value / radix, radix);
    } else {
      assert value == value % radix;
    }
  }

  /**
    Printing and reading back gives the number, and the string has no leading zero unless
    it is the number zero.
   */
  lemma ItoaRoundTrip(value: nat, radix: nat)
    requires 2 <= radix <= 36
    ensures Decode(Digits(value, radix), radix) == value
    ensures Digits(value, radix) != []
    ensures Digits(value, radix)[0] == 48 ==> value == 0 && |Digits(value, radix)| == 1
  {
    if value == 0 {
      assert [48][..0] == [];
      assert Decode([48], radix) == Decode([], radix) * radix + 0;
    } else {
      DecodeBackwards(value, radix);
      TopDigit(value, radix);
      hide LowFirst, Decode;
    }
  }

  /** The characters come from the lookup table, each for a digit below the radix. */
  ghost predicate IsDigit(c: Byte, radix: nat) {
    exists d: nat :: d < radix && d < 36 && c as char == "0123456789ABCDEFGHIJKLMNOPQRSTUVWXYZ"[d] && DigitValue(c) == d
  }

  lemma DigitIs(d: nat, radix: nat)
    requires d < radix <= 36
    ensures IsDigit(DigitChar(d), radix)
  {
    var table := "0123456789ABCDEFGHIJKLMNOPQRSTUVWXYZ";
    assert DigitChar(d) as char == table[d];
  }

  /** With the round trip this determines the digits: a number has one representation without leading zeros. */
  lemma {:induction false} LowFirstDigits(value: nat, radix: nat)
    requires 2 <= radix <= 36
    ensures forall i :: 0 <= i < |LowFirst(value, radix)| ==> IsDigit(LowFirst(value, radix)[i], radix)
    decreases value
  {
    if value > 0 {
      hide IsDigit;
      Smaller(value, radix);
      DigitIs(value % radix, radix);
      LowFirstDigits(value / radix, radix);
    }
  }

  lemma DigitsAreDigits(value: nat, radix: nat)
    requires 2 <= radix <= 36
    ensures forall i :: 0 <= i < |Digits(value, radix)| ==> IsDigit(Digits(value, radix)[i], radix)
  {
    hide IsDigit, LowFirst;
    DigitIs(0, radix);
    LowFirstDigits(value, radix);
  }

  function Power(b: nat, n: nat): nat {
    if n == 0 then 1 else b * Power(b, n - 1)
  }

  /** A number below radix to the n has at most n digits. */
  lemma {:induction false} DigitCount(value: nat, radix: nat, n: nat)
    requires 2 <= radix <= 36 && value < Power(radix, n)
    ensures |LowFirst(value, radix)| <= n
    decreases n
  {
    if value > 0 {
      assert n > 0;
      Smaller(value, radix);
      Quotient(value, radix, Power(radix, n - 1));
      DigitCount(value / radix, radix, n - 1);
    }
  }

  lemma Quotient(value: nat, radix: nat, p: nat)
    requires radix > 0 && value < radix * p
    ensures value / radix < p
  {
    var q := value / radix;
    if q >= p {
      Products(radix, radix, p, q);
    }
  }

  /** Below 2^32, any radix needs at most 32 digits and hexadecimal at most 8. */
  lemma WordDigits(value: nat, radix: nat)
    requires 2 <= radix <= 36 && value < 0x1_0000_0000
    ensures 1 <= |Digits(value, radix)| <= 32 && (radix == 16 ==> |Digits(value, radix)| <= 8)
  {
    if value > 0 {
      TopDigit(value, radix);
      PowerOfTwo32();
      PowerGrows(2, radix, 32);
      DigitCount(value, radix, 32);
      if radix == 16 {
        PowerOfSixteen8();
        DigitCount(value, 16, 8);
      }
    }
  }

  lemma PowerSteps()
    ensures Power(2, 8) == 256 && Power(16, 4) == 0x1_0000
  {
    assert Power(2, 4) == 16;
    assert Power(16, 2) == 256;
  }

  lemma MulAssoc(a: nat, b: nat, c: nat)
    ensures a * (b * c) == (a * b) * c
  {
  }

  lemma {:induction false} PowerAdd(b: nat, m: nat, n: nat)
    ensures Power(b, m + n) == Power(b, m) * Power(b, n)
    decreases m
  {
    if m > 0 {
      PowerAdd(b, m - 1, n);
      assert Power(b, m + n) == b * Power(b, m - 1 + n) && Power(b, m) == b * Power(b, m - 1);
      hide Power;
      MulAssoc(b, Power(b, m - 1), Power(b, n));
    }
  }

  lemma PowerOfTwo32()
    ensures Power(2, 32) == 0x1_0000_0000
  {
    PowerSteps();
    PowerAdd(2, 8, 8);
    PowerAdd(2, 16, 16);
  }

  lemma PowerOfSixteen8()
    ensures Power(16, 8) == 0x1_0000_0000
  {
    PowerSteps();
    PowerAdd(16, 4, 4);
  }

  lemma {:induction false} PowerGrows(a: nat, b: nat, n: nat)
    requires a <= b
    ensures Power(a, n) <= Power(b, n)
    decreases n
  {
    if n > 0 {
      PowerGrows(a, b, n - 1);
      Products(a, b, Power(a, n - 1), Power(b, n - 1));
    }
  }

  lemma Products(a: nat, b: nat, x: nat, y: nat)
    requires a <= b && x <= y
    ensures a * x <= b * y
  {
    assert a * x <= a * y;
    assert a * y <= b * y;
  }

  // ---------------------------------------------------------------- the code

  /** A string in a buffer: no NUL before its end, and one there. */
  ghost predicate IsString(s: Text, at: nat, x: Text) {
    at + |x| < |s| && s[at..at + |x|] == x && s[at + |x|] == 0 && forall i :: 0 <= i < |x| ==> x[i] != 0
  }

  lemma StringAt(s: Text, at: nat, x: Text)
    requires IsString(s, at, x)
    ensures at + |x| < |s| && s[at + |x|] == 0 && forall i :: at <= i < at + |x| ==> s[i] == x[i - at] && s[i] != 0
  {
    assert forall i :: at <= i < at + |x| ==> s[i] == s[at..at + |x|][i - at];
  }

  lemma StringIs(s: Text, at: nat, x: Text)
    requires at + |x| < |s| && s[at + |x|] == 0 && forall i :: at <= i < at + |x| ==> s[i] == x[i - at] && s[i] != 0
    ensures IsString(s, at, x)
  {
    forall i | 0 <= i < |x| ensures x[i] != 0 {
      assert s[at + i] == x[at + i - at];
    }
  }

  method Strlen(buf: array<Byte>, at: nat, ghost x: Text) returns (len: nat)
    requires IsString(buf[..], at, x)
    ensures len == |x|
  {
    StringAt(buf[..], at, x);
    hide IsString;
    len := 0;
    while buf[at + len] != 0
      invariant len <= |x|
      decreases |x| - len
    {
      len := len + 1;
    }
  }

  /** strrev: in-place reversal of the string at a position of a buffer. */
  method Strrev(buf: array<Byte>, at: nat, ghost x: Text)
    requires IsString(buf[..], at, x)
    modifies buf
    ensures IsString(buf[..], at, Backwards(x))
    ensures forall i :: 0 <= i < buf.Length && !(at <= i < at + |x|) ==> buf[i] == old(buf[i])
  {
    hide Backwards, IsString;
    StringAt(buf[..], at, x);
    var len := Strlen(buf, at, x);
    var beg: int, end: int := at, at + len - 1;
    ghost var s := buf[..];
    while beg < end
      invariant at <= beg <= end + 2 && beg + end == 2 * at + |x| - 1
      invariant forall k :: at <= k < beg || end < k < at + |x| ==> buf[k] == s[2 * at + |x| - 1 - k]
      invariant forall k :: 0 <= k < buf.Length && !(at <= k < beg || end < k < at + |x|) ==> buf[k] == s[k]
    {
      var tmp := buf[end];
      buf[end] := buf[beg];
      buf[beg] := tmp;
      beg := beg + 1;
      end := end - 1;
    }
    MirroredIsBackwards(s, buf[..], at, x);
  }

  lemma MirroredIsBackwards(s: Text, t: Text, at: nat, x: Text)
    requires IsString(s, at, x) && |s| == |t| && t[at + |x|] == 0
    requires forall k :: at <= k < at + |x| ==> t[k] == s[2 * at + |x| - 1 - k]
    ensures IsString(t, at, Backwards(x))
  {
    StringAt(s, at, x);
    forall k | at <= k < at + |x| ensures t[k] == Backwards(x)[k - at] && t[k] != 0 {
      assert s[2 * at + |x| - 1 - k] == x[|x| - 1 - (k - at)];
    }
    StringIs(t, at, Backwards(x));
  }

  /** The first loop of itoa. */
  method WriteDigits(value: nat, buf: array<Byte>, at: nat, radix: nat) returns (pos: nat)
    requires 2 <= radix <= 36 && at + |LowFirst(value, radix)| <= buf.Length
    modifies buf
    ensures pos == at + |LowFirst(value, radix)| && buf[at..pos] == LowFirst(value, radix)
    ensures forall i :: 0 <= i < at ==> buf[i] == old(buf[i])
  {
    hide LowFirst;
    ghost var low := LowFirst(value, radix);
    pos := at;
    var newval := value;
    while newval > 0
      invariant at <= pos <= at + |low| && 0 <= newval
      invariant low == buf[at..pos] + LowFirst(newval, radix)
      invariant forall i :: 0 <= i < at ==> buf[i] == old(buf[i])
    {
      LowStep(newval, radix);
      var c := DigitChar(newval % radix);
      ghost var done := buf[at..pos];
      SeqAssoc(done, [c], LowFirst(newval / radix, radix));
      buf[pos] := c;
      pos := pos + 1;
      assert buf[at..pos] == done + [c];
      newval := newval / radix;
    }
    LowNone(radix);
  }

  lemma LowNone(radix: nat)
    requires 2 <= radix <= 36
    ensures LowFirst(0, radix) == []
  {
  }

  /** itoa into a buffer from a position on: the digits and a NUL. */
  method Itoa(value: nat, buf: array<Byte>, at: nat, radix: nat)
    requires 2 <= radix <= 36 && value < 0x1_0000_0000 && at + 33 <= buf.Length
    modifies buf
    ensures IsString(buf[..], at, Digits(value, radix))
    ensures forall i :: 0 <= i < at ==> buf[i] == old(buf[i])
  {
    if value == 0 {
      buf[at] := 48;
      buf[at + 1] := 0;
      StringIs(buf[..], at, [48]);
      return;
    }
    WordDigits(value, radix);
    TopDigit(value, radix);
    hide LowFirst, Backwards, IsString;
    ghost var low := LowFirst(value, radix);
    var pos := WriteDigits(value, buf, at, radix);
    Terminate(buf, at, pos, low);
    Strrev(buf, at, low);
  }

  /** The NUL after the digits. */
  method Terminate(buf: array<Byte>, at: nat, pos: nat, ghost low: Text)
    requires pos == at + |low| < buf.Length && buf[at..pos] == low && forall i :: 0 <= i < |low| ==> low[i] != 0
    modifies buf
    ensures IsString(buf[..], at, low)
    ensures forall i :: 0 <= i < at ==> buf[i] == old(buf[i])
  {
    buf[pos] := 0;
    assert buf[at..pos] == low;
  }

  function Zeros(n: nat): Text {
    seq(n, _ => 48)
  }

  lemma {:induction false} DecodeZeros(n: nat, s: Text, radix: nat)
    ensures Decode(Zeros(n) + s, radix) == Decode(s, radix)
    decreases |s|, n
  {
    if s == [] {
      assert Zeros(n) + s == Zeros(n);
      if n > 0 {
        assert Zeros(n) == Zeros(n - 1) + [48];
        DecodeAppend(Zeros(n - 1), 48, radix);
        DecodeZeros(n - 1, [], radix);
        assert Zeros(n - 1) + [] == Zeros(n - 1);
      }
    } else {
      var p, c := s[..|s| - 1], s[|s| - 1];
      assert s == p + [c] && Zeros(n) + s == Zeros(n) + p + [c];
      DecodeAppend(Zeros(n) + p, c, radix);
      DecodeAppend(p, c, radix);
      DecodeZeros(n, p, radix);
    }
  }

  /** The zeros that the alternate format puts in front of a string. */
  method PadZeros(buf: array<Byte>, start: nat, ghost x: Text)
    requires start <= 8 && IsString(buf[..], 8, x)
    modifies buf
    ensures IsString(buf[..], start, Zeros(8 - start) + x)
  {
    StringAt(buf[..], 8, x);
    hide IsString;
    var i := start;
    while i < 8
      invariant start <= i <= 8
      invariant forall k :: start <= k < i ==> buf[k] == 48
      invariant forall k :: i <= k < buf.Length ==> buf[k] == old(buf[k])
    {
      buf[i] := 48;
      i := i + 1;
    }
    StringIs(buf[..], start, Zeros(8 - start) + x);
  }

  /** The alternate hexadecimal format: the digits with zeros in front to make exactly eight. */
  method PrintHex8(value: nat, buf: array<Byte>) returns (out: Text)
    requires value < 0x1_0000_0000 && buf.Length == 64
    modifies buf
    ensures |Digits(value, 16)| <= 8 && out == Zeros(8 - |Digits(value, 16)|) + Digits(value, 16)
    ensures |out| == 8 && Decode(out, 16) == value
  {
    hide Digits, Decode, IsString;
    WordDigits(value, 16);
    ItoaRoundTrip(value, 16);
    ghost var ds := Digits(value, 16);
    Itoa(value, buf, 8, 16);
    var start := Strlen(buf, 8, ds);
    PadZeros(buf, start, ds);
    out := Puts(buf, start, Zeros(8 - start) + ds);
    DecodeZeros(8 - |ds|, ds, 16);
  }

  /** puts: the characters up to the NUL. */
  method Puts(buf: array<Byte>, at: nat, ghost x: Text) returns (out: Text)
    requires IsString(buf[..], at, x)
    ensures out == x
  {
    StringAt(buf[..], at, x);
    hide IsString;
    var i := 0;
    out := [];
    while buf[at + i] != 0
      invariant 0 <= i <= |x| && out == x[..i]
      decreases |x| - i
    {
      out := out + [buf[at + i]];
      i := i + 1;
    }
  }
}
