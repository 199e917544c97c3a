/** UTF-8, as the string conversions of the standard library do it. */
module Utf8 {
  import opened Domain

  function EncodeChar(c: char): (bs: seq<uint8>)
    ensures 1 <= |bs| <= 4
  {
    var n := c as nat;
    if n < 0x80 then [n]
    else if n < 0x800 then [0xC0 + n / 0x40, 0x80 + n % 0x40]
    else if n < 0x1_0000 then [0xE0 + n / 0x1000, 0x80 + n / 0x40 % 0x40, 0x80 + n % 0x40]
    else [0xF0 + n / 0x4_0000, 0x80 + n / 0x1000 % 0x40, 0x80 + n / 0x40 % 0x40, 0x80 + n % 0x40]
  }

  function Encode(s: string): seq<uint8> {
    if s == "" then [] else EncodeChar(s[0]) + Encode(s[1..])
  }

  predicate IsContinuation(b: uint8) {
    0x80 <= b < 0xC0
  }

  /** The low six bits of a continuation byte. */
  function Low(b: uint8): nat {
    b % 0x40
  }

  /** The first character of a byte sequence and its length; overlong forms, surrogates and values
      past the last code point are refused. */
  function DecodeFirst(bs: seq<uint8>): (r: Option<(char, nat)>)
    ensures r.Some? ==> 1 <= r.value.1 <= |bs|
  {
    if bs == [] then None
    else if bs[0] < 0x80 then Some((bs[0] as char, 1))
    else if |bs| >= 2 && 0xC2 <= bs[0] < 0xE0 && IsContinuation(bs[1]) then
      var high: nat := bs[0] % 0x20;
      Some(((high * 0x40 + Low(bs[1])) as char, 2))
    else if |bs| >= 3 && 0xE0 <= bs[0] < 0xF0 && IsContinuation(bs[1]) && IsContinuation(bs[2]) then
      var high: nat := bs[0] % 0x10;
      var n := high * 0x1000 + Low(bs[1]) * 0x40 + Low(bs[2]);
      if 0x800 <= n < 0xD800 || 0xE000 <= n then Some((n as char, 3)) else None
    else if |bs| >= 4 && 0xF0 <= bs[0] < 0xF5
            && IsContinuation(bs[1]) && IsContinuation(bs[2]) && IsContinuation(bs[3]) then
      var high: nat := bs[0] % 0x08;
      var n := high * 0x4_0000 + Low(bs[1]) * 0x1000 + Low(bs[2]) * 0x40 + Low(bs[3]);
      if 0x1_0000 <= n < 0x11_0000 then Some((n as char, 4)) else None
    else None
  }

  function Decode(bs: seq<uint8>): Option<string>
    decreases |bs|
  {
    if bs == [] then Some("")
    else
      match DecodeFirst(bs)
      case None => None
      case Some((c, n)) =>
        match Decode(bs[n..])
        case None => None
        case Some(rest) => Some([c] + rest)
  }

  lemma SixBitGroups(n: nat)
    ensures n == n / 0x40 * 0x40 + n % 0x40
    ensures n / 0x40 == n / 0x1000 * 0x40 + n / 0x40 % 0x40
    ensures n / 0x1000 == n / 0x4_0000 * 0x40 + n / 0x1000 % 0x40
  {
  }

  lemma FourGroups(a: nat, b: nat, c: nat, d: nat, n: nat)
    requires n == n / 0x40 * 0x40 + d && n / 0x40 == n / 0x1000 * 0x40 + c && n / 0x1000 == a * 0x40 + b
    ensures a * 0x4_0000 + b * 0x1000 + c * 0x40 + d == n
  {
  }

  lemma DecodeTwo(bs: seq<uint8>, n: nat)
    requires 0x80 <= n < 0x800 && |bs| >= 2
    requires bs[0] == 0xC0 + n / 0x40 && bs[1] == 0x80 + n % 0x40
    ensures DecodeFirst(bs) == Some((n as char, 2))
  {
    SixBitGroups(n);
  }

  lemma DecodeThree(bs: seq<uint8>, n: nat)
    requires (0x800 <= n < 0xD800 || 0xE000 <= n < 0x1_0000) && |bs| >= 3
    requires bs[0] == 0xE0 + n / 0x1000 && bs[1] == 0x80 + n / 0x40 % 0x40 && bs[2] == 0x80 + n % 0x40
    ensures DecodeFirst(bs) == Some((n as char, 3))
  {
    SixBitGroups(n);
    assert bs[0] % 0x10 == n / 0x1000;
  }

  lemma DecodeFour(bs: seq<uint8>, n: nat)
    requires 0x1_0000 <= n < 0x11_0000 && |bs| >= 4
    requires bs[0] == 0xF0 + n / 0x4_0000 && bs[1] == 0x80 + n / 0x1000 % 0x40
    requires bs[2] == 0x80 + n / 0x40 % 0x40 && bs[3] == 0x80 + n % 0x40
    ensures DecodeFirst(bs) == Some((n as char, 4))
  {
    SixBitGroups(n);
    assert bs[0] % 0x08 == n / 0x4_0000;
    assert bs[1] % 0x40 == n / 0x1000 % 0x40 && bs[2] % 0x40 == n / 0x40 % 0x40 && bs[3] % 0x40 == n % 0x40;
    FourGroups(n / 0x4_0000, n / 0x1000 % 0x40, n / 0x40 % 0x40, n % 0x40, n);
  }

  lemma DecodeFirstOfEncoded(c: char, rest: seq<uint8>)
    ensures DecodeFirst(EncodeChar(c) + rest) == Some((c, |EncodeChar(c)|))
  {
    var n := c as nat;
    var bs := EncodeChar(c) + rest;
    assert forall i :: 0 <= i < |EncodeChar(c)| ==> bs[i] == EncodeChar(c)[i];
    if n < 0x80 {
    } else if n < 0x800 {
      DecodeTwo(bs, n);
    } else if n < 0x1_0000 {
      DecodeThree(bs, n);
    } else {
      DecodeFour(bs, n);
    }
  }

  lemma {:induction false} DecodeCons(c: char, rest: seq<uint8>, s: string)
    requires Decode(rest) == Some(s)
    ensures Decode(EncodeChar(c) + rest) == Some([c] + s)
  {
    DecodeFirstOfEncoded(c, rest);
    assert (EncodeChar(c) + rest)[|EncodeChar(c)|..] == rest;
  }

  lemma {:induction false} DecodeUndoesEncode(s: string)
    ensures Decode(Encode(s)) == Some(s)
  {
    if s != "" {
      DecodeUndoesEncode(s[1..]);
      DecodeCons(s[0], Encode(s[1..]), s[1..]);
      assert s == [s[0]] + s[1..];
    }
  }

  lemma Associative(a: seq<uint8>, b: seq<uint8>, c: seq<uint8>)
    ensures a + (b + c) == a + b + c
  {
  }

  lemma {:induction false} EncodeConcat(a: string, b: string)
    ensures Encode(a + b) == Encode(a) + Encode(b)
  {
    if a == "" {
      assert a + b == b;
    } else {
      EncodeConcat(a[1..], b);
      assert (a + b)[1..] == a[1..] + b;
      Associative(EncodeChar(a[0]), Encode(a[1..]), Encode(b));
    }
  }

  /** Carriage returns appear in the bytes only where they appear in the text. */
  lemma {:induction false} NoStrayCarriageReturn(s: string)
    requires '\r' !in s
    ensures 13 !in Encode(s)
  {
    if s != "" {
      assert s[0] in s;
      assert 13 !in EncodeChar(s[0]);
      NoStrayCarriageReturn(s[1..]);
    }
  }

  /** ASCII text is its own encoding. */
  lemma {:induction false} AsciiIsItself(s: string)
    requires forall i :: 0 <= i < |s| ==> s[i] as nat < 0x80
    ensures |Encode(s)| == |s| && forall i :: 0 <= i < |s| ==> Encode(s)[i] == s[i] as nat
  {
    if s != "" {
      AsciiIsItself(s[1..]);
      assert forall i :: 1 <= i < |s| ==> s[i] == s[1..][i - 1];
    }
  }

  lemma EncodedFirst(bs: seq<uint8>)
    requires DecodeFirst(bs).Some?
    ensures EncodeChar(DecodeFirst(bs).value.0) == bs[..DecodeFirst(bs).value.1]
  {
    var (c, n) := DecodeFirst(bs).value;
    if n == 1 {
    } else if n == 2 {
      EncodedTwo(bs);
    } else if n == 3 {
      EncodedThree(bs);
    } else {
      EncodedFour(bs);
    }
  }

  lemma EncodedTwo(bs: seq<uint8>)
    requires |bs| >= 2 && 0xC2 <= bs[0] < 0xE0 && IsContinuation(bs[1])
    ensures EncodeChar((bs[0] % 0x20 * 0x40 + Low(bs[1])) as char) == bs[..2]
  {
  }

  lemma ThreeParts(a: nat, b: nat, c: nat)
    requires b < 0x40 && c < 0x40
    ensures var n := a * 0x1000 + b * 0x40 + c;
      n / 0x1000 == a && n / 0x40 % 0x40 == b && n % 0x40 == c
  {
    var n := a * 0x1000 + b * 0x40 + c;
    assert n / 0x40 == a * 0x40 + b;
  }

  lemma EncodedThree(bs: seq<uint8>)
    requires |bs| >= 3 && 0xE0 <= bs[0] < 0xF0 && IsContinuation(bs[1]) && IsContinuation(bs[2])
    requires DecodeFirst(bs).Some?
    ensures EncodeChar(DecodeFirst(bs).value.0) == bs[..3]
  {
    ThreeParts(bs[0] % 0x10, Low(bs[1]), Low(bs[2]));
  }

  lemma FourParts(a: nat, b: nat, c: nat, d: nat)
    requires b < 0x40 && c < 0x40 && d < 0x40
    ensures var n := a * 0x4_0000 + b * 0x1000 + c * 0x40 + d;
      n / 0x4_0000 == a && n / 0x1000 % 0x40 == b && n / 0x40 % 0x40 == c && n % 0x40 == d
  {
    var n := a * 0x4_0000 + b * 0x1000 + c * 0x40 + d;
    assert n / 0x1000 == a * 0x40 + b && n / 0x40 == a * 0x1000 + b * 0x40 + c;
  }

  lemma EncodedFour(bs: seq<uint8>)
    requires |bs| >= 4 && 0xF0 <= bs[0] < 0xF5
    requires IsContinuation(bs[1]) && IsContinuation(bs[2]) && IsContinuation(bs[3])
    requires DecodeFirst(bs).Some?
    ensures EncodeChar(DecodeFirst(bs).value.0) == bs[..4]
  {
    FourParts(bs[0] % 0x08, Low(bs[1]), Low(bs[2]), Low(bs[3]));
  }

  lemma DecodeStep(bs: seq<uint8>, s: string)
    requires bs != [] && Decode(bs) == Some(s)
    ensures DecodeFirst(bs).Some? && s != "" && s[0] == DecodeFirst(bs).value.0
    ensures Decode(bs[DecodeFirst(bs).value.1..]) == Some(s[1..])
  {
    var (c, n) := DecodeFirst(bs).value;
    assert s[1..] == Decode(bs[n..]).value;
  }

  /** Only the encoding of a text is read as that text; everything else is refused. */
  lemma {:induction false} EncodeUndoesDecode(bs: seq<uint8>)
    requires Decode(bs).Some?
    ensures Encode(Decode(bs).value) == bs
    decreases |bs|
  {
    if bs != [] {
      var s := Decode(bs).value;
      DecodeStep(bs, s);
      var n := DecodeFirst(bs).value.1;
      EncodedFirst(bs);
      EncodeUndoesDecode(bs[n..]);
      EncodedThen(bs, n, s);
    }
  }

  lemma EncodedThen(bs: seq<uint8>, n: nat, s: string)
    requires n <= |bs| && s != "" && EncodeChar(s[0]) == bs[..n] && Encode(s[1..]) == bs[n..]
    ensures Encode(s) == bs
  {
    assert bs == bs[..n] + bs[n..];
  }
}
