/** Numbers as text in a radix from 2 to 64: printing, the size of the text, reading. */
module RadixText {
  import opened Arith
  import opened Digits
  import opened MpInts
  import OneDigit
  import Logarithm
  import ModulusShape

  // ----- the characters -----

  /** Digits, upper case, lower case, plus and slash. */
  function MapChar(d: nat): char
    requires d < 64
  {
    if d < 10 then '0' + d as char
    else if d < 36 then 'A' + (d - 10) as char
    else if d < 62 then 'a' + (d - 36) as char
    else if d == 62 then '+' else '/'
  }

  const NO_DIGIT := 255

  /** The reverse map. */
  function MapReverse(ch: char): nat {
    if '0' <= ch <= '9' then (ch - '0') as nat
    else if 'A' <= ch <= 'Z' then (ch - 'A') as nat + 10
    else if 'a' <= ch <= 'z' then (ch - 'a') as nat + 36
    else if ch == '+' then 62 else if ch == '/' then 63
    else NO_DIGIT
  }

  function Upper(ch: char): char {
    if 'a' <= ch <= 'z' then (ch - 'a') + 'A' else ch
  }

  /** The digit a character stands for; case does not matter up to radix 36. */
  function DigitOf(ch: char, radix: nat): nat {
    MapReverse(if radix <= 36 then Upper(ch) else ch)
  }

  lemma {:induction false} DigitOfMapChar(d: nat, radix: nat)
    requires d < radix <= 64
    ensures DigitOf(MapChar(d), radix) == d && MapChar(d) != '-' && MapChar(d) != '\0'
  {
  }

  // ----- what the characters mean -----

  /** The characters of the digits 0 to 63. */
  const MAP: string := "0123456789" + "ABCDEFGHIJKLMNOPQRSTUVWXYZ" + "abcdefghijklmnopqrstuvwxyz" + "+/"

  lemma {:induction false} MapCharIs(d: nat)
    requires d < 64
    ensures |MAP| == 64 && MapChar(d) == MAP[d]
  {
    if d < 10 {
      assert d == 0 || d == 1 || d == 2 || d == 3 || d == 4 || d == 5 || d == 6 || d == 7 || d == 8 || d == 9;
    } else if d < 36 {
      Letters(d - 10);
    } else if d < 62 {
      Letters(d - 36);
    }
  }

  lemma {:induction false} Letters(k: nat)
    requires k < 26
    ensures "ABCDEFGHIJKLMNOPQRSTUVWXYZ"[k] == 'A' + k as char && "abcdefghijklmnopqrstuvwxyz"[k] == 'a' + k as char
  {
    assert k == 0 || k == 1 || k == 2 || k == 3 || k == 4 || k == 5 || k == 6 || k == 7 || k == 8 ||
           k == 9 || k == 10 || k == 11 || k == 12 || k == 13 || k == 14 || k == 15 || k == 16 || k == 17 ||
           k == 18 || k == 19 || k == 20 || k == 21 || k == 22 || k == 23 || k == 24 || k == 25;
  }

  /** A character stands for a digit exactly if it is that of the digit, or up to
      radix 36 its lower case. */
  lemma {:induction false} DigitOfIff(ch: char, d: nat, radix: nat)
    requires d < radix <= 64
    ensures |MAP| == 64
    ensures DigitOf(ch, radix) == d <==> ch == MAP[d] || (radix <= 36 && 10 <= d && ch == 'a' + (d - 10) as char)
  {
    MapCharIs(d);
  }

  /** The same character, or the same letter in the other case. */
  predicate SameLetter(c: char, d: char) {
    || c == d
    || ('a' <= c <= 'z' && d == 'A' + (c - 'a'))
    || ('a' <= d <= 'z' && c == 'A' + (d - 'a'))
  }

  ghost predicate SameButCase(s: string, t: string) {
    |s| == |t| && forall i :: 0 <= i < |s| ==> SameLetter(s[i], t[i])
  }

  // ----- what is printed -----

  /** The digits of `n`, most significant first, none for zero. */
  function DigitString(n: nat, radix: nat): string
    requires 2 <= radix <= 64
  {
    if n == 0 then ""
    else
      Shrinks(n, radix);
      DigitString(n / radix, radix) + [MapChar(n % radix)]
  }

  lemma {:induction false} Shrinks(n: nat, radix: nat)
    requires 0 < n && 2 <= radix
    ensures 0 <= n / radix < n && 0 <= n % radix < radix
  {
    DivMod(n, radix);
    DivNonNeg(n, radix);
    MulLt(1, radix, n);
    DivLt(n, radix, n);
  }

  function Printed(v: int, radix: nat): string
    requires 2 <= radix <= 64
  {
    if v == 0 then "0"
    else (if v < 0 then "-" else "") + DigitString(Abs(v), radix)
  }

  /** The number of digits is one more than the logarithm. */
  lemma {:induction false} LengthIsLog(n: nat, radix: nat)
    requires 0 < n && 2 <= radix <= 64
    ensures 0 < |DigitString(n, radix)| && Logarithm.IsLog(|DigitString(n, radix)| - 1, radix, n)
    decreases n
  {
    Shrinks(n, radix);
    DivMod(n, radix);
    var q := n / radix;
    if q == 0 {
      assert Pow(radix, 0) == 1 && Pow(radix, 1) == radix * Pow(radix, 0);
      assert DigitString(0, radix) == "";
    } else {
      LengthIsLog(q, radix);
      var k := |DigitString(q, radix)| - 1;
      ScaledBounds(Pow(radix, k), q, Pow(radix, k + 1), radix, n % radix);
    }
  }

  lemma {:induction false} ScaledBounds(p: int, q: int, r: int, b: int, rest: int)
    requires p <= q < r && 0 <= rest < b
    ensures b * p <= q * b + rest < b * r
  {
    MulLe(p, q, b);
    MulLe(q + 1, r, b);
    Distribute(q, 1, b);
  }

  // ----- the size of the text -----

  /** The length of the printed text, with its terminator. */
  method RadixSize(a: MpInt, radix: int) returns (err: Outcome, size: nat)
    requires a.Valid()
    ensures err == if radix < 2 || radix > 64 then BadValue else Okay
    ensures err == Okay ==> size == |Printed(a.Value(), radix)| + 1
  {
    size := 0;
    if radix < 2 || radix > 64 {
      return BadValue, size;
    }
    DigitsOf(a);
    if a.dp == [] {
      return Okay, 2;
    }
    var positive := new MpInt.Of(Abs(a.Value()));
    var b: int;
    err, b := Logarithm.LogN(positive, radix);
    LengthIsLog(Abs(a.Value()), radix);
    Logarithm.LogUnique(b, |DigitString(Abs(a.Value()), radix)| - 1, radix, Abs(a.Value()));
    size := b + 2 + if a.sign == Neg then 1 else 0;
  }

  // ----- printing -----

  function Reversed(s: string): (r: string)
    ensures |r| == |s|
  {
    if s == "" then "" else Reversed(s[1..]) + [s[0]]
  }

  lemma {:induction false} ReversedAt(s: string, k: nat)
    requires k < |s|
    ensures Reversed(s)[k] == s[|s| - 1 - k]
  {
    if k < |s| - 1 {
      ReversedAt(s[1..], k);
    }
  }

  lemma {:induction false} ReversedSnoc(s: string, c: char)
    ensures Reversed(s + [c]) == [c] + Reversed(s)
  {
    if s == "" {
      assert "" + [c] == [c] && [c][1..] == "";
    } else {
      assert (s + [c])[1..] == s[1..] + [c];
      ReversedSnoc(s[1..], c);
    }
  }

  /** Reverse `len` characters in place. */
  method ReverseInPlace(str: array<char>, at: nat, len: nat)
    requires 0 < len && at + len <= str.Length
    modifies str
    ensures str[at..at + len] == Reversed(old(str[at..at + len]))
    ensures str[..at] == old(str[..at])
  {
    ghost var s := str[at..at + len];
    var ix, iy := 0, len - 1;
    while ix < iy
      invariant 0 <= ix <= iy + 1 && ix + iy == len - 1
      invariant forall i :: at <= i < at + len && (i < at + ix || at + iy < i) ==> str[i] == s[at + len - 1 - i]
      invariant forall i :: at + ix <= i <= at + iy ==> str[i] == s[i - at]
      invariant str[..at] == old(str[..at])
    {
      str[at + ix], str[at + iy] := str[at + iy], str[at + ix];
      ix, iy := ix + 1, iy - 1;
    }
    ghost var r := str[at..at + len];
    forall k | 0 <= k < len
      ensures r[k] == Reversed(s)[k]
    {
      ReversedAt(s, k);
    }
  }

  /** One more digit of `n`, of which `t` is left. */
  method PutDigit(t: MpInt, str: array<char>, at: nat, digs: nat, radix: nat, ghost n: nat)
    requires t.Valid() && 0 < t.Value() && 2 <= radix <= 64 && at + digs < str.Length
    requires DigitString(n, radix) == DigitString(t.Value(), radix) + Reversed(str[at..at + digs])
    modifies t, str
    ensures t.Valid() && 0 <= t.Value() < old(t.Value()) && str[..at] == old(str[..at])
    ensures DigitString(n, radix) == DigitString(t.Value(), radix) + Reversed(str[at..at + digs + 1])
  {
    RadixIsDigit();
    Shrinks(t.Value(), radix);
    ghost var before := str[at..at + digs];
    var e, d := OneDigit.Div(t, radix, t);
    str[at + digs] := MapChar(d);
    assert str[at..at + digs + 1] == before + [MapChar(d)];
    ReversedSnoc(before, MapChar(d));
  }

  /** The digits of `t`, least significant first, behind `at`; stops if there is no room
      for one more digit and the terminator. */
  method PutDigits(t: MpInt, str: array<char>, at: nat, room: nat, radix: nat) returns (err: Outcome, digs: nat)
    requires t.Valid() && 0 < t.Value() && 2 <= radix <= 64 && 1 <= room && at + room <= str.Length
    modifies t, str
    ensures err == if |DigitString(old(t.Value()), radix)| < room then Okay else NoRoom
    ensures err == Okay ==> 0 < digs && digs < room && DigitString(old(t.Value()), radix) == Reversed(str[at..at + digs])
    ensures str[..at] == old(str[..at])
  {
    ghost var n: nat := t.Value();
    var maxlen: nat := room;
    digs := 0;
    assert str[at..at + 0] == "";
    while t.Value() != 0
      invariant t.Valid() && 0 <= t.Value() <= n && (digs == 0 ==> t.Value() == n)
      invariant 1 <= maxlen == room - digs && str[..at] == old(str[..at])
      invariant DigitString(n, radix) == DigitString(t.Value(), radix) + Reversed(str[at..at + digs])
      decreases t.Value()
    {
      maxlen := maxlen - 1;
      if maxlen < 1 {
        return NoRoom, digs;
      }
      PutDigit(t, str, at, digs, radix, n);
      digs := digs + 1;
    }
    return Okay, digs;
  }

  lemma {:induction false} RadixIsDigit()
    ensures 64 < B
  {
  }

  /** Print into `maxlen` characters: succeeds exactly when the text and its terminator fit. */
  method ToRadix(a: MpInt, str: array<char>, maxlen: nat, radix: int) returns (err: Outcome, written: nat)
    requires a.Valid() && maxlen <= str.Length
    modifies str
    ensures maxlen >= 2 && (radix < 2 || radix > 64) ==> err == BadValue
    ensures maxlen < 2 ==> err == NoRoom
    ensures maxlen >= 2 && 2 <= radix <= 64 ==>
      err == if |Printed(a.Value(), radix)| + 1 <= maxlen then Okay else NoRoom
    ensures err == Okay ==>
      && 2 <= radix <= 64 && written == |Printed(a.Value(), radix)| + 1 <= maxlen
      && str[..written] == Printed(a.Value(), radix) + ['\0']
  {
    written := 0;
    if maxlen < 2 {
      return NoRoom, written;
    }
    if radix < 2 || radix > 64 {
      return BadValue, written;
    }
    if a.Value() == 0 {
      str[0], str[1] := '0', '\0';
      return Okay, 2;
    }
    err, written := PrintNonzero(a.Value(), str, maxlen, radix);
  }

  /** The sign, the digits turned around, and the terminator. */
  method PrintNonzero(v: int, str: array<char>, maxlen: nat, radix: nat) returns (err: Outcome, written: nat)
    requires v != 0 && 2 <= maxlen <= str.Length && 2 <= radix <= 64
    modifies str
    ensures err == if |Printed(v, radix)| + 1 <= maxlen then Okay else NoRoom
    ensures err == Okay ==> written == |Printed(v, radix)| + 1 <= maxlen && str[..written] == Printed(v, radix) + ['\0']
  {
    written := 0;
    var t := new MpInt.Of(Abs(v));
    var at := 0;
    if v < 0 {
      str[0] := '-';
      at := 1;
    }
    ghost var sign := str[..at];
    var digs: nat;
    err, digs := PutDigits(t, str, at, maxlen - at, radix);
    if err == Okay {
      ReverseInPlace(str, at, digs);
      ghost var digits := str[at..at + digs];
      str[at + digs] := '\0';
      written := at + digs + 1;
      assert str[..written] == sign + digits + ['\0'];
      LengthKept(digits, DigitString(Abs(v), radix));
    }
  }

  lemma {:induction false} LengthKept(s: string, t: string)
    requires s == t
    ensures |s| == |t|
  {
  }

  // ----- reading -----

  /** How many characters at the front are digits. */
  function DigitPrefix(s: string, radix: nat): (k: nat)
    ensures k <= |s|
  {
    if s == "" || DigitOf(s[0], radix) >= radix then 0 else 1 + DigitPrefix(s[1..], radix)
  }

  /** The number the characters stand for. */
  function NumberOf(s: string, radix: nat): nat {
    if s == "" then 0
    else
      MulNonNeg(NumberOf(s[..|s| - 1], radix), radix);
      NumberOf(s[..|s| - 1], radix) * radix + DigitOf(s[|s| - 1], radix)
  }

  /** The text behind the sign. */
  function Unsigned(str: string): string {
    if str != "" && str[0] == '-' then str[1..] else str
  }

  /** Text is accepted if the digits end at the terminator or at the end of a line. */
  predicate Readable(str: string, radix: nat) {
    var s := Unsigned(str);
    var k := DigitPrefix(s, radix);
    k < |s| && (s[k] == '\0' || s[k] == '\r' || s[k] == '\n')
  }

  function ReadValue(str: string, radix: nat): int {
    var s := Unsigned(str);
    var n: int := NumberOf(s[..DigitPrefix(s, radix)], radix);
    if str != "" && str[0] == '-' then -n else n
  }

  lemma {:induction false} PrefixExtends(s: string, radix: nat, k: nat)
    requires k < |s| && k <= DigitPrefix(s, radix)
    ensures DigitOf(s[k], radix) < radix ==> k + 1 <= DigitPrefix(s, radix)
    ensures DigitOf(s[k], radix) >= radix ==> k == DigitPrefix(s, radix)
  {
    if k != 0 {
      PrefixExtends(s[1..], radix, k - 1);
    }
  }

  lemma {:induction false} NulStops(s: string, radix: nat)
    requires '\0' in s && radix <= 64
    ensures DigitPrefix(s, radix) < |s|
  {
    if s[0] != '\0' {
      assert '\0' in s[1..];
      if DigitOf(s[0], radix) < radix {
        NulStops(s[1..], radix);
      }
    }
  }

  /** Read the digits at the front. */
  method ReadDigits(a: MpInt, s: string, radix: nat) returns (at: nat)
    requires a.Valid() && '\0' in s && 2 <= radix <= 64
    modifies a
    ensures at == DigitPrefix(s, radix) < |s|
    ensures a.Valid() && a.Value() == NumberOf(s[..at], radix)
  {
    NulStops(s, radix);
    a.Set(0);
    at := 0;
    assert s[..0] == "";
    while s[at] != '\0'
      invariant 0 <= at <= DigitPrefix(s, radix) && a.Valid() && a.Value() == NumberOf(s[..at], radix)
      decreases |s| - at
    {
      PrefixExtends(s, radix, at);
      var y := DigitOf(s[at], radix);
      if y >= radix {
        break;
      }
      assert s[..at + 1][..at] == s[..at];
      a.Set(a.Value() * radix);
      a.Set(a.Value() + y);
      at := at + 1;
    }
    PrefixExtends(s, radix, at);
  }

  /** Read a number from terminated text. */
  method ReadRadix(a: MpInt, str: string, radix: int) returns (err: Outcome)
    requires a.Valid() && '\0' in str
    modifies a
    ensures a.Valid()
    ensures err == if 2 <= radix <= 64 && Readable(str, radix) then Okay else BadValue
    ensures err == Okay ==> a.Value() == ReadValue(str, radix)
    ensures radix < 2 || radix > 64 ==> a.Value() == old(a.Value())
  {
    if radix < 2 || radix > 64 {
      return BadValue;
    }
    var s, sign := str, Zpos;
    if str[0] == '-' {
      s := str[1..];
      sign := Neg;
    }
    assert '\0' in s && s == Unsigned(str);
    var at := ReadDigits(a, s, radix);
    if s[at] != '\0' && s[at] != '\r' && s[at] != '\n' {
      return BadValue;
    }
    DigitsOf(a);
    if a.dp != [] {
      a.sign := sign;
    }
    return Okay;
  }

  // ----- the round trip -----

  lemma {:induction false} DigitsAreDigits(n: nat, radix: nat, rest: string)
    requires 2 <= radix <= 64 && rest != "" && DigitOf(rest[0], radix) >= radix
    ensures DigitPrefix(DigitString(n, radix) + rest, radix) == |DigitString(n, radix)|
    ensures DigitString(n, radix) != "" ==> DigitString(n, radix)[0] != '-'
    decreases n
  {
    AllDigits(n, radix);
    PrefixOfDigits(DigitString(n, radix), radix, rest);
  }

  ghost predicate OnlyDigits(s: string, radix: nat) {
    forall i :: 0 <= i < |s| ==> DigitOf(s[i], radix) < radix && s[i] != '-'
  }

  lemma {:induction false} AllDigits(n: nat, radix: nat)
    requires 2 <= radix <= 64
    ensures OnlyDigits(DigitString(n, radix), radix)
    decreases n
  {
    if n != 0 {
      Shrinks(n, radix);
      AllDigits(n / radix, radix);
      DigitOfMapChar(n % radix, radix);
    }
  }

  lemma {:induction false} PrefixOfDigits(s: string, radix: nat, rest: string)
    requires rest != "" && DigitOf(rest[0], radix) >= radix
    requires OnlyDigits(s, radix)
    ensures DigitPrefix(s + rest, radix) == |s| && (s != "" ==> s[0] != '-')
  {
    if s == "" {
      assert s + rest == rest;
    } else {
      assert (s + rest)[1..] == s[1..] + rest;
      PrefixOfDigits(s[1..], radix, rest);
    }
  }

  lemma {:induction false} NumberOfDigits(n: nat, radix: nat)
    requires 2 <= radix <= 64
    ensures NumberOf(DigitString(n, radix), radix) == n
    decreases n
  {
    if n != 0 {
      Shrinks(n, radix);
      NumberOfDigits(n / radix, radix);
      DigitOfMapChar(n % radix, radix);
      DivMod(n, radix);
      var s := DigitString(n, radix);
      assert s[..|s| - 1] == DigitString(n / radix, radix);
    }
  }

  /** Reading the printed text gives the number back, in every radix. */
  lemma {:induction false} RoundTrip(v: int, radix: nat)
    requires 2 <= radix <= 64
    ensures Readable(Printed(v, radix) + ['\0'], radix) && ReadValue(Printed(v, radix) + ['\0'], radix) == v
  {
    var end := ['\0'];
    var str := Printed(v, radix) + end;
    assert DigitOf('\0', radix) == NO_DIGIT;
    if v == 0 {
      assert str == ['0', '\0'] && str[1..] == end && str[..1] == ['0'] && ['0'][..0] == "";
      assert DigitPrefix(end, radix) == 0 && DigitPrefix(str, radix) == 1;
      assert NumberOf("", radix) == 0 && NumberOf(['0'], radix) == 0;
    } else {
      var n: nat := Abs(v);
      var digits := DigitString(n, radix);
      LengthIsLog(n, radix);
      DigitsAreDigits(n, radix, end);
      NumberOfDigits(n, radix);
      var s := Unsigned(str);
      assert s == digits + end;
      assert s[..|digits|] == digits;
    }
  }

  // ----- what reading and printing mean -----

  /** Case does not matter up to radix 36. */
  lemma {:induction false} CaseIgnored(s: string, t: string, radix: nat)
    requires SameButCase(s, t) && radix <= 36
    ensures Readable(s, radix) == Readable(t, radix) && ReadValue(s, radix) == ReadValue(t, radix)
  {
    var u, v := Unsigned(s), Unsigned(t);
    if s != "" {
      assert SameLetter(s[0], t[0]);
    }
    assert SameButCase(u, v) by {
      forall i | 0 <= i < |u|
        ensures SameLetter(u[i], v[i])
      {
        assert SameLetter(s[|s| - |u| + i], t[|s| - |u| + i]);
      }
    }
    PrefixIgnoresCase(u, v, radix);
    var k := DigitPrefix(u, radix);
    NumberIgnoresCase(u[..k], v[..k], radix);
    if k < |u| {
      assert SameLetter(u[k], v[k]);
    }
  }

  lemma {:induction false} DigitIgnoresCase(c: char, d: char, radix: nat)
    requires SameLetter(c, d) && radix <= 36
    ensures DigitOf(c, radix) == DigitOf(d, radix)
  {
  }

  lemma {:induction false} PrefixIgnoresCase(s: string, t: string, radix: nat)
    requires SameButCase(s, t) && radix <= 36
    ensures DigitPrefix(s, radix) == DigitPrefix(t, radix)
  {
    if s != "" {
      DigitIgnoresCase(s[0], t[0], radix);
      assert SameButCase(s[1..], t[1..]);
      PrefixIgnoresCase(s[1..], t[1..], radix);
    }
  }

  lemma {:induction false} NumberIgnoresCase(s: string, t: string, radix: nat)
    requires SameButCase(s, t) && radix <= 36
    ensures NumberOf(s, radix) == NumberOf(t, radix)
  {
    if s != "" {
      DigitIgnoresCase(s[|s| - 1], t[|t| - 1], radix);
      assert SameButCase(s[..|s| - 1], t[..|t| - 1]);
      NumberIgnoresCase(s[..|s| - 1], t[..|t| - 1], radix);
    }
  }

  /** A digit in front counts for the power of the radix at its place. */
  lemma {:induction false} LeadingDigit(c: char, s: string, radix: nat)
    ensures NumberOf([c] + s, radix) == DigitOf(c, radix) * Pow(radix, |s|) + NumberOf(s, radix)
  {
    var cs := [c] + s;
    if s == "" {
      assert cs[..0] == "";
    } else {
      var t, d := s[..|s| - 1], DigitOf(c, radix);
      assert cs[..|cs| - 1] == [c] + t;
      LeadingDigit(c, t, radix);
      Distribute(d * Pow(radix, |t|), NumberOf(t, radix), radix);
      Assoc(d, Pow(radix, |t|), radix);
    }
  }

  /** The character at the k-th place from the right is that of digit k. */
  lemma {:induction false} PrintedDigit(n: nat, radix: nat, k: nat)
    requires 2 <= radix <= 64 && k < |DigitString(n, radix)|
    ensures 0 < Pow(radix, k) && 0 <= (n / Pow(radix, k)) % radix < |MAP| == 64
    ensures DigitString(n, radix)[|DigitString(n, radix)| - 1 - k] == MAP[(n / Pow(radix, k)) % radix]
    decreases k
  {
    PowPos(radix, k);
    MapCharIs(n % radix);
    Shrinks(n, radix);
    DivNonNeg(n, Pow(radix, k));
    Bounded(n / Pow(radix, k), radix);
    if k != 0 {
      PrintedDigit(n / radix, radix, k - 1);
      ModulusShape.DivDiv(n, radix, Pow(radix, k - 1));
    }
  }

  lemma {:induction false} Bounded(n: int, radix: nat)
    requires 2 <= radix <= 64
    ensures 0 <= n % radix < 64
  {
  }

  /** A negative number prints as its magnitude behind a minus. */
  lemma {:induction false} PrintedSign(v: int, radix: nat)
    requires 2 <= radix <= 64
    ensures v < 0 ==> Printed(v, radix) == "-" + Printed(-v, radix)
    ensures 0 < v ==> Printed(v, radix) == DigitString(v, radix) && DigitString(v, radix)[0] != MAP[0]
    ensures v == 0 ==> Printed(v, radix) == [MAP[0]]
  {
    MapCharIs(0);
    if 0 < v {
      NoLeadingZero(v, radix);
    }
  }

  lemma {:induction false} NoLeadingZero(n: nat, radix: nat)
    requires 0 < n && 2 <= radix <= 64
    ensures DigitString(n, radix) != "" && DigitString(n, radix)[0] != '0'
    decreases n
  {
    Shrinks(n, radix);
    DivMod(n, radix);
    if n / radix != 0 {
      NoLeadingZero(n / radix, radix);
    }
  }
}
