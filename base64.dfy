/**
 * The base 64 encoding of RFC 4648 section 4 (java.util.Base64.getEncoder()), with the
 * decoder that undoes it, so that the encoder is shown to lose nothing.
 */
module Base64 {
  import opened Wrappers

  /** Table 1 of RFC 4648: the character for each 6-bit value. */
  function Sextet(v: bv8): char
    requires v < 64
  {
    if v < 26 then ('A' as int + v as int) as char
    else if v < 52 then ('a' as int + (v as int - 26)) as char
    else if v < 62 then ('0' as int + (v as int - 52)) as char
    else if v == 62 then '+'
    else '/'
  }

  /** The 6-bit value of an alphabet character; 64 for any other character, '=' included. */
  function IndexOf(c: char): (r: bv8)
    ensures r <= 64
  {
    if 'A' <= c <= 'Z' then (c as int - 'A' as int) as bv8
    else if 'a' <= c <= 'z' then (c as int - 'a' as int + 26) as bv8
    else if '0' <= c <= '9' then (c as int - '0' as int + 52) as bv8
    else if c == '+' then 62
    else if c == '/' then 63
    else 64
  }

  /**
   * Every 3 input bytes become 4 characters; a final group of 1 or 2 bytes is padded
   * with "==" or "=" (RFC 4648 section 4, cases (2) and (3)).
   */
  function Encode(b: seq<bv8>): string
    decreases |b|
  {
    if |b| == 0 then ""
    else if |b| == 1 then [Sextet(b[0] >> 2), Sextet((b[0] & 3) << 4), '=', '=']
    else if |b| == 2 then
      [Sextet(b[0] >> 2), Sextet(((b[0] & 3) << 4) | (b[1] >> 4)), Sextet((b[1] & 15) << 2), '=']
    else
      [Sextet(b[0] >> 2), Sextet(((b[0] & 3) << 4) | (b[1] >> 4)),
       Sextet(((b[1] & 15) << 2) | (b[2] >> 6)), Sextet(b[2] & 63)]
      + Encode(b[3..])
  }

  /** The inverse of Encode: None for text that is not padded base 64 of this shape. */
  function Decode(s: string): Option<seq<bv8>>
    decreases |s|
  {
    if s == "" then Some([])
    else if |s| < 4 then None
    else
      var i0, i1, i2, i3 := IndexOf(s[0]), IndexOf(s[1]), IndexOf(s[2]), IndexOf(s[3]);
      if i0 == 64 || i1 == 64 then None
      else
        var c0 := (i0 << 2) | (i1 >> 4);
        if |s| == 4 && s[2] == '=' && s[3] == '=' then Some([c0])
        else if i2 == 64 then None
        else
          var c1 := ((i1 & 15) << 4) | (i2 >> 2);
          if |s| == 4 && s[3] == '=' then Some([c0, c1])
          else if i3 == 64 then None
          else
            var c2 := ((i2 & 3) << 6) | i3;
            match Decode(s[4..])
            case None => None
            case Some(rest) => Some([c0, c1, c2] + rest)
  }
}

/** What the encoder promises: its length, its padding, and that decoding undoes it. */
module Base64Lemmas {
  import opened Wrappers
  import opened Base64

  lemma IndexOfSextet(v: bv8)
    requires v < 64
    ensures IndexOf(Sextet(v)) == v
  {
  }

  lemma SextetIsNotPad(v: bv8)
    requires v < 64
    ensures Sextet(v) != '='
  {
  }

  /** The 6-bit pieces of three bytes put back together give the three bytes. */
  lemma RegroupBytes(b0: bv8, b1: bv8, b2: bv8)
    ensures var v0, v1 := b0 >> 2, ((b0 & 3) << 4) | (b1 >> 4);
      (v0 << 2) | (v1 >> 4) == b0
    ensures var v1, v2 := ((b0 & 3) << 4) | (b1 >> 4), ((b1 & 15) << 2) | (b2 >> 6);
      ((v1 & 15) << 4) | (v2 >> 2) == b1
    ensures var v2, v3 := ((b1 & 15) << 2) | (b2 >> 6), b2 & 63;
      ((v2 & 3) << 6) | v3 == b2
    ensures b0 >> 2 < 64 && ((b0 & 3) << 4) | (b1 >> 4) < 64
    ensures ((b1 & 15) << 2) | (b2 >> 6) < 64 && b2 & 63 < 64
  {
  }

  lemma DecodeOne(b: seq<bv8>)
    requires |b| == 1
    ensures Decode(Encode(b)) == Some(b)
  {
    RegroupBytes(b[0], 0, 0);
    var v0, v1 := b[0] >> 2, (b[0] & 3) << 4;
    var e := Encode(b);
    assert e == [Sextet(v0), Sextet(v1), '=', '='];
    IndexOfSextet(v0);
    IndexOfSextet(v1);
    assert [b[0]] == b;
  }

  /** A final group with one '=' decodes to two bytes. */
  lemma DecodePadded(v0: bv8, v1: bv8, v2: bv8)
    requires v0 < 64 && v1 < 64 && v2 < 64
    ensures Decode([Sextet(v0), Sextet(v1), Sextet(v2), '=']) == Some([(v0 << 2) | (v1 >> 4), ((v1 & 15) << 4) | (v2 >> 2)])
  {
    IndexOfSextet(v0);
    IndexOfSextet(v1);
    IndexOfSextet(v2);
    SextetIsNotPad(v2);
  }

  lemma DecodeTwo(b: seq<bv8>)
    requires |b| == 2
    ensures Decode(Encode(b)) == Some(b)
  {
    var v0, v1, v2 := b[0] >> 2, ((b[0] & 3) << 4) | (b[1] >> 4), (b[1] & 15) << 2;
    assert v0 < 64 && v1 < 64 && v2 < 64 && ((b[1] & 15) << 2) | (0 >> 6) == v2
      && (v0 << 2) | (v1 >> 4) == b[0] && ((v1 & 15) << 4) | (v2 >> 2) == b[1] by {
      RegroupBytes(b[0], b[1], 0);
    }
    assert Encode(b) == [Sextet(v0), Sextet(v1), Sextet(v2), '='];
    DecodePadded(v0, v1, v2);
    assert [b[0], b[1]] == b;
  }

  /** The four characters of a full group decode to its three bytes, followed by what the rest decodes to. */
  lemma DecodeGroup(b0: bv8, b1: bv8, b2: bv8, t: string, rest: seq<bv8>)
    requires Decode(t) == Some(rest)
    ensures ((b0 & 3) << 4) | (b1 >> 4) < 64 && ((b1 & 15) << 2) | (b2 >> 6) < 64
    ensures Decode([Sextet(b0 >> 2), Sextet(((b0 & 3) << 4) | (b1 >> 4)),
      Sextet(((b1 & 15) << 2) | (b2 >> 6)), Sextet(b2 & 63)] + t) == Some([b0, b1, b2] + rest)
  {
    RegroupBytes(b0, b1, b2);
    var v0, v1, v2, v3 := b0 >> 2, ((b0 & 3) << 4) | (b1 >> 4), ((b1 & 15) << 2) | (b2 >> 6), b2 & 63;
    var s := [Sextet(v0), Sextet(v1), Sextet(v2), Sextet(v3)] + t;
    IndexOfSextet(v0);
    IndexOfSextet(v1);
    IndexOfSextet(v2);
    IndexOfSextet(v3);
    SextetIsNotPad(v3);
    assert s[4..] == t;
  }

  lemma EncodeGroup(b: seq<bv8>)
    requires |b| >= 3
    ensures b[0] >> 2 < 64 && ((b[0] & 3) << 4) | (b[1] >> 4) < 64
    ensures ((b[1] & 15) << 2) | (b[2] >> 6) < 64 && b[2] & 63 < 64
    ensures Encode(b) == [Sextet(b[0] >> 2), Sextet(((b[0] & 3) << 4) | (b[1] >> 4)),
      Sextet(((b[1] & 15) << 2) | (b[2] >> 6)), Sextet(b[2] & 63)] + Encode(b[3..])
  {
    RegroupBytes(b[0], b[1], b[2]);
  }

  lemma DecodeThree(b: seq<bv8>)
    requires |b| >= 3
    requires Decode(Encode(b[3..])) == Some(b[3..])
    ensures Decode(Encode(b)) == Some([b[0], b[1], b[2]] + b[3..])
  {
    EncodeGroup(b);
    DecodeGroup(b[0], b[1], b[2], Encode(b[3..]), b[3..]);
  }

  lemma SplitThree(b: seq<bv8>)
    requires |b| >= 3
    ensures [b[0], b[1], b[2]] + b[3..] == b
  {
  }

  /** No character of `s` is white space or a control character. */
  predicate Visible(s: string) {
    forall i :: 0 <= i < |s| ==> ' ' < s[i]
  }

  lemma SextetVisible(v: bv8)
    requires v < 64
    ensures ' ' < Sextet(v)
  {
  }

  lemma VisibleConcat(a: string, b: string)
    requires Visible(a) && Visible(b)
    ensures Visible(a + b)
  {
    forall i | 0 <= i < |a + b|
      ensures ' ' < (a + b)[i]
    {
      if i >= |a| {
        assert (a + b)[i] == b[i - |a|];
      }
    }
  }

  /** Every character the encoder writes is visible: none of them is white space. */
  lemma {:induction false} EncodeVisible(b: seq<bv8>)
    ensures Visible(Encode(b))
    decreases |b|
  {
    if |b| == 1 {
      SextetVisible(b[0] >> 2);
      SextetVisible((b[0] & 3) << 4);
    } else if |b| == 2 {
      SextetVisible(b[0] >> 2);
      SextetVisible(((b[0] & 3) << 4) | (b[1] >> 4));
      SextetVisible((b[1] & 15) << 2);
    } else if |b| >= 3 {
      var v0, v1, v2, v3 := b[0] >> 2, ((b[0] & 3) << 4) | (b[1] >> 4), ((b[1] & 15) << 2) | (b[2] >> 6), b[2] & 63;
      EncodeGroup(b);
      SextetVisible(v0);
      SextetVisible(v1);
      SextetVisible(v2);
      SextetVisible(v3);
      var g := [Sextet(v0), Sextet(v1), Sextet(v2), Sextet(v3)];
      assert Visible(g);
      EncodeVisible(b[3..]);
      VisibleConcat(g, Encode(b[3..]));
    }
  }

  /** Decoding the encoding gives back the bytes. */
  lemma {:induction false} DecodeEncode(b: seq<bv8>)
    ensures Decode(Encode(b)) == Some(b)
    decreases |b|
  {
    if |b| == 1 {
      DecodeOne(b);
    } else if |b| == 2 {
      DecodeTwo(b);
    } else if |b| >= 3 {
      DecodeEncode(b[3..]);
      DecodeThree(b);
      SplitThree(b);
    }
  }

  /** Every started group of three bytes becomes four characters. */
  lemma {:induction false} EncodeLength(b: seq<bv8>)
    ensures |Encode(b)| == 4 * ((|b| + 2) / 3)
    decreases |b|
  {
    if |b| > 3 {
      EncodeLength(b[3..]);
    }
  }

  /** Base 64 text of n bytes ends in "=" exactly when n is not a multiple of 3, and in "==" when n mod 3 is 1. */
  lemma {:induction false} EncodePadding(b: seq<bv8>)
    requires |b| > 0
    ensures var r := Encode(b); |r| >= 4 && ((r[|r| - 1] == '=') <==> |b| % 3 != 0)
    ensures var r := Encode(b); |r| >= 4 && ((r[|r| - 2] == '=') <==> |b| % 3 == 1)
    decreases |b|
  {
    var r := Encode(b);
    if |b| == 2 {
      RegroupBytes(b[0], b[1], 0);
      SextetIsNotPad((b[1] & 15) << 2);
    } else if |b| >= 3 {
      RegroupBytes(b[0], b[1], b[2]);
      assert r == [Sextet(b[0] >> 2), Sextet(((b[0] & 3) << 4) | (b[1] >> 4)),
        Sextet(((b[1] & 15) << 2) | (b[2] >> 6)), Sextet(b[2] & 63)] + Encode(b[3..]);
      if |b| == 3 {
        SextetIsNotPad(((b[1] & 15) << 2) | (b[2] >> 6));
        SextetIsNotPad(b[2] & 63);
      } else {
        EncodePadding(b[3..]);
        assert r[|r| - 1] == Encode(b[3..])[|r| - 5];
        assert r[|r| - 2] == Encode(b[3..])[|r| - 6];
      }
    }
  }
}
