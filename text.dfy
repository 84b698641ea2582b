/**
 * The few pieces of java.lang.String and java.lang.Integer that the two servers rely on:
 * trim(), contains(), indexOf(), Integer.toString of a non-negative int, Integer.parseInt,
 * and the UTF-8 encoding of getBytes("UTF-8").
 */
module Text {
  import opened Wrappers
  import opened Bytes

  /** String.trim() removes every leading and trailing char whose code is at most U+0020. */
  predicate IsSpace(c: char) {
    c <= ' '
  }

  /** A string that trim() turns into the empty string. */
  predicate IsBlank(s: string) {
    forall i :: 0 <= i < |s| ==> IsSpace(s[i])
  }

  // The functions below keep their contracts free of quantifiers, so that a proof that
  // mentions them does not pay for facts it does not use; those facts are lemmas.

  function TrimStart(s: string): (r: string)
    ensures |r| <= |s|
    ensures r != [] ==> !IsSpace(r[0])
  {
    if |s| > 0 && IsSpace(s[0]) then TrimStart(s[1..]) else s
  }

  function TrimEnd(s: string): (r: string)
    ensures |r| <= |s|
    ensures r != [] ==> !IsSpace(r[|r| - 1])
  {
    if |s| > 0 && IsSpace(s[|s| - 1]) then TrimEnd(s[..|s| - 1]) else s
  }

  /** TrimStart keeps a suffix. */
  lemma {:induction false} TrimStartSuffix(s: string)
    ensures TrimStart(s) == s[|s| - |TrimStart(s)|..]
    decreases |s|
  {
    if |s| > 0 && IsSpace(s[0]) {
      TrimStartSuffix(s[1..]);
      assert s[|s| - |TrimStart(s)|..] == s[1..][|s| - 1 - |TrimStart(s)|..];
    }
  }

  /** What TrimStart drops is white space. */
  lemma {:induction false} TrimStartDropped(s: string)
    ensures forall i :: 0 <= i < |s| - |TrimStart(s)| ==> IsSpace(s[i])
    decreases |s|
  {
    if |s| > 0 && IsSpace(s[0]) {
      TrimStartDropped(s[1..]);
      assert forall i :: 1 <= i < |s| ==> s[i] == s[1..][i - 1];
    }
  }

  /** TrimEnd keeps a prefix. */
  lemma {:induction false} TrimEndPrefix(s: string)
    ensures TrimEnd(s) == s[..|TrimEnd(s)|]
    decreases |s|
  {
    if |s| > 0 && IsSpace(s[|s| - 1]) {
      TrimEndPrefix(s[..|s| - 1]);
    }
  }

  /** What TrimEnd drops is white space. */
  lemma {:induction false} TrimEndDropped(s: string)
    ensures forall i :: |TrimEnd(s)| <= i < |s| ==> IsSpace(s[i])
    decreases |s|
  {
    if |s| > 0 && IsSpace(s[|s| - 1]) {
      TrimEndDropped(s[..|s| - 1]);
      assert forall i :: 0 <= i < |s| - 1 ==> s[i] == s[..|s| - 1][i];
    }
  }

  /** All of a string is white space exactly when TrimStart leaves nothing. */
  lemma {:induction false} TrimStartBlank(s: string)
    ensures TrimStart(s) == [] <==> IsBlank(s)
    decreases |s|
  {
    if |s| > 0 && IsSpace(s[0]) {
      TrimStartBlank(s[1..]);
      assert forall i :: 1 <= i < |s| ==> s[i] == s[1..][i - 1];
    }
  }

  lemma {:induction false} TrimEndBlank(s: string)
    ensures TrimEnd(s) == [] <==> IsBlank(s)
    decreases |s|
  {
    if |s| > 0 && IsSpace(s[|s| - 1]) {
      TrimEndBlank(s[..|s| - 1]);
      assert forall i :: 0 <= i < |s| - 1 ==> s[i] == s[..|s| - 1][i];
    }
  }

  /** String.trim(): the longest infix of `s` that neither starts nor ends with white space. */
  function Trim(s: string): (r: string)
    ensures r != "" ==> !IsSpace(r[0]) && !IsSpace(r[|r| - 1])
    ensures |r| <= |s|
  {
    var t := TrimStart(s);
    var r := TrimEnd(t);
    assert r != "" ==> r[0] == t[0] by {
      TrimEndPrefix(t);
    }
    r
  }

  /**
   * trim() cuts `s` into white space, the result, and white space. With the ends of a non-empty
   * result not being white space (Trim's contract), this makes the result the longest such infix.
   */
  lemma TrimInfix(s: string)
    ensures exists i, j :: 0 <= i <= j <= |s| && Trim(s) == s[i..j] && IsBlank(s[..i]) && IsBlank(s[j..])
  {
    var t := TrimStart(s);
    var k := |s| - |t|;
    TrimStartSuffix(s);
    TrimStartDropped(s);
    var m := |TrimEnd(t)|;
    TrimEndPrefix(t);
    TrimEndDropped(t);
    assert Trim(s) == s[k..k + m] by {
      assert t[..m] == s[k..k + m];
    }
    assert IsBlank(s[..k]) by {
      assert forall i :: 0 <= i < k ==> s[..k][i] == s[i];
    }
    assert s[k + m..] == t[m..];
    assert IsBlank(t[m..]);
  }

  /** trim() gives the empty string exactly for a string of white space. */
  lemma TrimBlank(s: string)
    ensures Trim(s) == "" <==> IsBlank(s)
  {
    var t := TrimStart(s);
    TrimStartBlank(s);
    TrimEndBlank(t);
  }

  /** A string that trim() leaves as it is. */
  predicate Trimmed(s: string) {
    s == "" || (!IsSpace(s[0]) && !IsSpace(s[|s| - 1]))
  }

  /** trim() removes a leading blank and nothing else from `" " + v` when `v` is trimmed. */
  lemma TrimSpaced(v: string)
    requires Trimmed(v)
    ensures Trim(v) == v
    ensures Trim(" " + v) == v
  {
    assert (" " + v)[1..] == v;
    assert TrimStart(" " + v) == TrimStart(v) == v;
  }

  /** s.startsWith(p). */
  predicate StartsWith(s: string, p: string) {
    p <= s
  }

  /** s.contains(t): `t` occurs somewhere in `s`. */
  predicate Contains(s: string, t: string)
    decreases |s|
  {
    t <= s || (|s| > 0 && Contains(s[1..], t))
  }

  /** s.indexOf(c): the first position of `c` in `s`, or -1. */
  function IndexOf(s: string, c: char): (r: int)
    ensures -1 <= r < |s|
    ensures r >= 0 ==> s[r] == c
  {
    if |s| == 0 then -1
    else if s[0] == c then 0
    else
      var k := IndexOf(s[1..], c);
      if k == -1 then -1 else k + 1
  }

  /** indexOf finds the first occurrence, and -1 means there is none. */
  lemma {:induction false} IndexOfFirst(s: string, c: char)
    ensures IndexOf(s, c) == -1 <==> c !in s
    ensures IndexOf(s, c) >= 0 ==> c !in s[..IndexOf(s, c)]
    decreases |s|
  {
    if |s| > 0 && s[0] != c {
      IndexOfFirst(s[1..], c);
      var k := IndexOf(s[1..], c);
      assert s == [s[0]] + s[1..];
      if k >= 0 {
        assert s[..k + 1] == [s[0]] + s[1..][..k];
      }
    }
  }

  /** The first `c` in a + [c] + b is the one after `a` when `a` has none. */
  lemma IndexOfAfter(a: string, c: char, b: string)
    requires c !in a
    ensures IndexOf(a + [c] + b, c) == |a|
  {
    var s := a + [c] + b;
    IndexOfFirst(s, c);
    assert s[|a|] == c;
    assert s[..|a|] == a;
  }

  /** s.contains(String.valueOf(c)) is exactly "c occurs in s". */
  lemma {:induction false} ContainsChar(s: string, c: char)
    ensures Contains(s, [c]) <==> c in s
    decreases |s|
  {
    if |s| > 0 {
      ContainsChar(s[1..], c);
      assert s == [s[0]] + s[1..];
    }
  }

  predicate IsDigit(c: char) {
    '0' <= c <= '9'
  }

  predicate AllDigits(s: string) {
    forall i :: 0 <= i < |s| ==> IsDigit(s[i])
  }

  function DigitChar(d: nat): (c: char)
    requires d < 10
    ensures IsDigit(c) && c as int - '0' as int == d
  {
    ('0' as int + d) as char
  }

  /** The number a string of decimal digits spells, most significant digit first. */
  function DigitsValue(s: string): nat
    requires AllDigits(s)
  {
    if s == [] then 0 else DigitsValue(s[..|s| - 1]) * 10 + (s[|s| - 1] as int - '0' as int)
  }

  /** Integer.toString(n) for n >= 0, as string concatenation with an int produces it. */
  function Decimal(n: nat): (r: string)
    ensures |r| >= 1 && AllDigits(r)
    ensures r[0] == '0' ==> n == 0
  {
    if n < 10 then [DigitChar(n)] else Decimal(n / 10) + [DigitChar(n % 10)]
  }

  const IntMin: int := -0x8000_0000
  const IntMax: int := 0x7FFF_FFFF

  /**
   * Integer.parseInt(s): an optional '-' or '+', then one or more decimal digits, with a
   * value that fits a 32-bit int. None stands for the NumberFormatException.
   */
  function ParseInt(s: string): (r: Option<int>)
    ensures r.Some? ==> IntMin <= r.value <= IntMax
    ensures r.Some? ==> s != "" && (s[0] == '-' || s[0] == '+' || IsDigit(s[0]))
  {
    if s == "" then None
    else
      var signed := s[0] == '-' || s[0] == '+';
      var digits := if signed then s[1..] else s;
      if digits == "" || !AllDigits(digits) then None
      else
        var magnitude: int := DigitsValue(digits);
        var v := if s[0] == '-' then -magnitude else magnitude;
        if IntMin <= v <= IntMax then Some(v) else None
  }

  /**
   * What Integer.parseInt accepts: after the optional sign, one or more ASCII digits, read as
   * the number they spell with the sign applied. Any other character makes it refuse.
   */
  lemma ParseIntDigits(s: string)
    requires ParseInt(s).Some?
    ensures var k := if s[0] == '-' || s[0] == '+' then 1 else 0;
      k < |s| && AllDigits(s[k..])
      && ParseInt(s).value == if s[0] == '-' then -(DigitsValue(s[k..]) as int) else DigitsValue(s[k..])
  {
    var k := if s[0] == '-' || s[0] == '+' then 1 else 0;
    var digits := if k == 1 then s[1..] else s;
    assert digits == s[k..];
    assert AllDigits(digits);
  }

  /** A port argument with a trailing letter, a bare sign or nothing at all is refused. */
  lemma ParseIntRefuses()
    ensures ParseInt("80a") == None && ParseInt("+") == None && ParseInt("") == None
  {
    assert !IsDigit("80a"[2]);
  }

  lemma {:induction false} DigitsValueOfDecimal(n: nat)
    ensures DigitsValue(Decimal(n)) == n
  {
    if n >= 10 {
      var d := Decimal(n);
      assert d[..|d| - 1] == Decimal(n / 10);
      DigitsValueOfDecimal(n / 10);
    }
  }

  /** Integer.parseInt reads back what Integer.toString wrote, for every non-negative int. */
  lemma ParseDecimal(n: nat)
    requires n <= IntMax
    ensures ParseInt(Decimal(n)) == Some(n)
    ensures ParseInt("-" + Decimal(n)) == Some(-(n as int))
  {
    DigitsValueOfDecimal(n);
    assert ("-" + Decimal(n))[1..] == Decimal(n);
  }

  /** The byte of an ASCII char: its code. */
  function AsciiByte(c: char): byte
    requires c as int < 0x80
  {
    (c as int) as byte
  }

  /** A continuation byte: 10 followed by the low six bits of `v`. */
  function Cont(v: nat): byte {
    (0x80 + v % 0x40) as byte
  }

  /** A leading byte: the length tag followed by the high bits of the code point. */
  function Lead(tag: nat, high: nat): byte
    requires tag + high < 0x100
  {
    (tag + high) as byte
  }

  /** The UTF-8 encoding of one Unicode scalar value (RFC 3629 section 3). */
  function Utf8Char(c: char): (r: seq<byte>)
    ensures 1 <= |r| <= 4
    ensures |r| == 1 <==> c as int < 0x80
    ensures |r| == 1 ==> r[0] == AsciiByte(c)
  {
    var v: nat := c as int;
    if v < 0x80 then [AsciiByte(c)]
    else if v < 0x800 then [Lead(0xC0, v / 0x40), Cont(v)]
    else if v < 0x1_0000 then [Lead(0xE0, v / 0x1000), Cont(v / 0x40), Cont(v)]
    else [Lead(0xF0, v / 0x4_0000), Cont(v / 0x1000), Cont(v / 0x40), Cont(v)]
  }

  /** String.getBytes("UTF-8"). */
  function Utf8(s: string): (r: seq<byte>)
    ensures |s| <= |r| <= 4 * |s|
  {
    if s == [] then [] else Utf8Char(s[0]) + Utf8(s[1..])
  }

  /** Encoding a concatenation encodes the parts one after the other. */
  lemma {:induction false} Utf8Append(a: string, b: string)
    ensures Utf8(a + b) == Utf8(a) + Utf8(b)
    decreases |a|
  {
    if a == [] {
      assert a + b == b;
    } else {
      Utf8Append(a[1..], b);
      Utf8AppendStep(a, b);
    }
  }

  /** The step of Utf8Append: the first char's bytes come first on both sides. */
  lemma Utf8AppendStep(a: string, b: string)
    requires a != [] && Utf8(a[1..] + b) == Utf8(a[1..]) + Utf8(b)
    ensures Utf8(a + b) == Utf8(a) + Utf8(b)
  {
    var c, x, y := Utf8Char(a[0]), Utf8(a[1..]), Utf8(b);
    ConsSplit(a, b);
    assert Utf8(a + b) == c + (x + y);
    assert Utf8(a) == c + x;
    ConcatAssoc(c, x, y);
  }

  lemma ConsSplit(a: string, b: string)
    requires a != []
    ensures a + b != [] && (a + b)[0] == a[0] && (a + b)[1..] == a[1..] + b
  {
  }

  lemma ConcatAssoc(c: seq<byte>, x: seq<byte>, y: seq<byte>)
    ensures c + (x + y) == (c + x) + y
  {
  }

  predicate IsAscii(s: string) {
    forall i :: 0 <= i < |s| ==> s[i] as int < 0x80
  }

  /** An ASCII string encodes to one byte per char, each equal to the char's code. */
  lemma {:induction false} Utf8Ascii(s: string)
    requires IsAscii(s)
    ensures |Utf8(s)| == |s|
    ensures forall i :: 0 <= i < |s| ==> Utf8(s)[i] == AsciiByte(s[i])
  {
    if s != [] {
      Utf8Ascii(s[1..]);
    }
  }
}
