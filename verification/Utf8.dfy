/**
 * UTF-8 as `str.encode` and `bytes.decode("utf-8", "replace")` perform it. Decoding puts one
 * U+FFFD for each maximal part that cannot begin a character.
 */
module Utf8 {
  import opened Base64Url

  const REPLACEMENT: char := '\U{FFFD}'

  function EncodeChar(c: char): (b: seq<byte>)
    ensures 1 <= |b| <= 4
  {
    var n := c as int;
    if n < 0x80 then [n]
    else if n < 0x800 then [0xC0 + n / 64, 0x80 + n % 64]
    else if n < 0x10000 then [0xE0 + n / 4096, 0x80 + n / 64 % 64, 0x80 + n % 64]
    else [0xF0 + n / 262144, 0x80 + n / 4096 % 64, 0x80 + n / 64 % 64, 0x80 + n % 64]
  }

  function Encode(s: string): seq<byte>
  {
    if s == "" then [] else EncodeChar(s[0]) + Encode(s[1..])
  }

  predicate Continues(b: seq<byte>, i: nat)
  {
    i < |b| && 0x80 <= b[i] < 0xC0
  }

  /** The six bits a continuation byte carries. */
  function Low(b: seq<byte>, i: nat): (bits: nat)
    requires i < |b|
    ensures bits < 64
  {
    b[i] % 64
  }

  /** Whether the second byte can follow the first: no overlong form, no surrogate, nothing past U+10FFFF. */
  predicate Follows(first: int, b: seq<byte>)
  {
    && Continues(b, 1)
    && (first == 0xE0 ==> b[1] >= 0xA0)
    && (first == 0xED ==> b[1] < 0xA0)
    && (first == 0xF0 ==> b[1] >= 0x90)
    && (first == 0xF4 ==> b[1] < 0x90)
  }

  /** The first character of a nonempty byte string, and how many bytes it takes. */
  function DecodeChar(b: seq<byte>): (r: (char, nat))
    requires b != []
    ensures 1 <= r.1 <= |b|
  {
    var first: int := b[0];
    if first < 0x80 then (first as char, 1)
    else if !(0xC2 <= first < 0xF5) || !Follows(first, b) then (REPLACEMENT, 1)
    else if first < 0xE0 then ((first % 32 * 64 + Low(b, 1)) as char, 2)
    else if !Continues(b, 2) then (REPLACEMENT, 2)
    else if first < 0xF0 then ((first % 16 * 4096 + Low(b, 1) * 64 + Low(b, 2)) as char, 3)
    else if !Continues(b, 3) then (REPLACEMENT, 3)
    else ((first % 8 * 262144 + Low(b, 1) * 4096 + Low(b, 2) * 64 + Low(b, 3)) as char, 4)
  }

  function Decode(b: seq<byte>): string
  {
    if b == [] then ""
    else
      var (c, n) := DecodeChar(b);
      [c] + Decode(b[n..])
  }

  lemma DecodeTwo(n: nat, rest: seq<byte>)
    requires 0x80 <= n < 0x800
    ensures DecodeChar([0xC0 + n / 64, 0x80 + n % 64] + rest) == (n as char, 2)
  {
    var b: seq<byte> := [0xC0 + n / 64, 0x80 + n % 64] + rest;
    assert b[0] == 0xC0 + n / 64 && b[1] == 0x80 + n % 64;
    assert b[0] % 32 == n / 64 && Low(b, 1) == n % 64;
  }

  lemma Sextets(n: nat)
    ensures n == n / 64 * 64 + n % 64
    ensures n / 64 == n / 4096 * 64 + n / 64 % 64
    ensures n / 4096 == n / 262144 * 64 + n / 4096 % 64
  {
  }

  lemma DecodeThree(n: nat, rest: seq<byte>)
    requires 0x800 <= n < 0xD800 || 0xE000 <= n < 0x10000
    ensures DecodeChar([0xE0 + n / 4096, 0x80 + n / 64 % 64, 0x80 + n % 64] + rest) == (n as char, 3)
  {
    Sextets(n);
    var b: seq<byte> := [0xE0 + n / 4096, 0x80 + n / 64 % 64, 0x80 + n % 64] + rest;
    assert b[0] == 0xE0 + n / 4096 && b[1] == 0x80 + n / 64 % 64 && b[2] == 0x80 + n % 64;
    assert b[0] % 16 == n / 4096 && Low(b, 1) == n / 64 % 64 && Low(b, 2) == n % 64;
    assert Follows(b[0], b) && Continues(b, 2);
  }

  lemma DecodeFour(n: nat, rest: seq<byte>)
    requires 0x10000 <= n < 0x110000
    ensures DecodeChar([0xF0 + n / 262144, 0x80 + n / 4096 % 64, 0x80 + n / 64 % 64, 0x80 + n % 64] + rest)
            == (n as char, 4)
  {
    Sextets(n);
    var b: seq<byte> := [0xF0 + n / 262144, 0x80 + n / 4096 % 64, 0x80 + n / 64 % 64, 0x80 + n % 64] + rest;
    assert b[0] == 0xF0 + n / 262144 && b[1] == 0x80 + n / 4096 % 64;
    assert b[2] == 0x80 + n / 64 % 64 && b[3] == 0x80 + n % 64;
    assert b[0] % 8 == n / 262144 && Low(b, 1) == n / 4096 % 64;
    assert Low(b, 2) == n / 64 % 64 && Low(b, 3) == n % 64;
    assert Follows(b[0], b) && Continues(b, 2) && Continues(b, 3);
  }

  lemma DecodeEncodeChar(c: char, rest: seq<byte>)
    ensures DecodeChar(EncodeChar(c) + rest) == (c, |EncodeChar(c)|)
  {
    var n := c as int;
    if n < 0x80 {
    } else if n < 0x800 {
      DecodeTwo(n, rest);
    } else if n < 0x10000 {
      DecodeThree(n, rest);
    } else {
      DecodeFour(n, rest);
    }
  }

  lemma {:induction false} DecodeEncode(s: string)
    ensures Decode(Encode(s)) == s
  {
    if s != "" {
      var head, tail := EncodeChar(s[0]), Encode(s[1..]);
      DecodeEncodeChar(s[0], tail);
      assert (head + tail)[|head|..] == tail;
      DecodeEncode(s[1..]);
    }
  }

  /** ASCII text is its own encoding. */
  lemma {:induction false} EncodeAscii(s: string)
    requires forall c :: c in s ==> c < 128 as char
    ensures |Encode(s)| == |s| && forall i :: 0 <= i < |s| ==> Encode(s)[i] == s[i] as int
  {
    if s != "" {
      assert s[0] in s && forall c :: c in s[1..] ==> c in s;
      EncodeAscii(s[1..]);
    }
  }

  lemma {:induction false} EncodeConcat(a: string, b: string)
    ensures Encode(a + b) == Encode(a) + Encode(b)
  {
    if a == "" {
      assert a + b == b;
    } else {
      assert (a + b)[1..] == a[1..] + b;
      EncodeConcat(a[1..], b);
    }
  }
}
