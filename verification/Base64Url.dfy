/**
 * Base64url as the standard library's `urlsafe_b64encode` and `urlsafe_b64decode`
 * perform it (RFC 4648, sections 4 and 5). The decoder is the lenient one: it skips
 * characters outside the alphabet, takes '+' and '/' for '-' and '_', and stops at the
 * padding that completes a quantum.
 */
module Base64Url {
  import opened Wrappers

  type byte = x: int | 0 <= x < 256
  type sextet = x: int | 0 <= x < 64

  /** The value of a character, `None` outside the alphabet. */
  function Value(c: char): Option<sextet>
  {
    if 'A' <= c <= 'Z' then Some(c as int - 'A' as int)
    else if 'a' <= c <= 'z' then Some(c as int - 'a' as int + 26)
    else if '0' <= c <= '9' then Some(c as int - '0' as int + 52)
    else if c == '-' || c == '+' then Some(62)
    else if c == '_' || c == '/' then Some(63)
    else None
  }

  /** A character the encoder writes. */
  predicate IsSymbol(c: char)
  {
    Value(c).Some? && c != '+' && c != '/'
  }

  function Symbol(i: sextet): (c: char)
    ensures IsSymbol(c) && Value(c) == Some(i)
  {
    if i < 26 then ('A' as int + i) as char
    else if i < 52 then ('a' as int + i - 26) as char
    else if i < 62 then ('0' as int + i - 52) as char
    else if i == 62 then '-' else '_'
  }

  ghost predicate IsUnpadded(s: string)
  {
    forall c :: c in s ==> IsSymbol(c)
  }

  function Pads(n: nat): (s: string)
    ensures |s| == n && forall i :: 0 <= i < n ==> s[i] == '='
  {
    seq(n, i => '=')
  }

  function Quantum(b0: byte, b1: byte, b2: byte): string
  {
    [Symbol(b0 / 4), Symbol(b0 % 4 * 16 + b1 / 16), Symbol(b1 % 16 * 4 + b2 / 64), Symbol(b2 % 64)]
  }

  /** `urlsafe_b64encode`: canonical padded text. */
  function Encode(b: seq<byte>): string
  {
    if b == [] then ""
    else if |b| == 1 then [Symbol(b[0] / 4), Symbol(b[0] % 4 * 16)] + Pads(2)
    else if |b| == 2 then
      [Symbol(b[0] / 4), Symbol(b[0] % 4 * 16 + b[1] / 16), Symbol(b[1] % 16 * 4)] + Pads(1)
    else Quantum(b[0], b[1], b[2]) + Encode(b[3..])
  }

  /** `s.rstrip("=")`. */
  function StripPad(s: string): string
  {
    if s != "" && s[|s| - 1] == '=' then StripPad(s[..|s| - 1]) else s
  }

  /** `s + "=" * (-len(s) % 4)`. */
  function Repad(s: string): string
  {
    s + Pads((-|s|) % 4)
  }

  predicate Carried(quad: nat, left: nat)
  {
    match quad
    case 0 => left == 0
    case 1 => left < 64
    case 2 => left < 16
    case 3 => left < 4
    case _ => false
  }

  /** What one more character of the alphabet does to the decoder's position and carried bits. */
  function Shift(quad: nat, left: nat, v: sextet): (r: (nat, nat, seq<byte>))
    requires Carried(quad, left)
    ensures Carried(r.0, r.1)
  {
    match quad
    case 0 => (1, v, [])
    case 1 => (2, v % 16, [left * 4 + v / 16])
    case 2 => (3, v % 4, [left * 16 + v / 4])
    case _ => (0, 0, [left * 64 + v])
  }

  /** The bytes decoded so far, before those still to come; an error to come is an error. */
  function Prefixed(out: seq<byte>, tail: Option<seq<byte>>): Option<seq<byte>>
  {
    if tail.Some? then Some(out + tail.value) else None
  }

  /** The decoder's loop: the position in the quantum, the bits carried, the pads seen. */
  function Scan(s: string, quad: nat, left: nat, pads: nat): Option<seq<byte>>
    requires Carried(quad, left)
  {
    if s == "" then (if quad == 0 then Some([]) else None)
    else if s[0] == '=' then
      if quad < 2 then Scan(s[1..], quad, left, pads)
      else if quad + pads + 1 >= 4 then Some([])
      else Scan(s[1..], quad, left, pads + 1)
    else
      match Value(s[0])
      case None => Scan(s[1..], quad, left, pads)
      case Some(v) =>
        var (quad', left', out) := Shift(quad, left, v);
        Prefixed(out, Scan(s[1..], quad', left', 0))
  }

  /** `urlsafe_b64decode`; `None` stands for the error it raises. */
  function Decode(s: string): Option<seq<byte>>
  {
    if exists c :: c in s && c >= 128 as char then None else Scan(s, 0, 0, 0)
  }

  // -----  Encoding, stripping, padding again and decoding  -----

  /** The encoding without its padding. */
  function Body(b: seq<byte>): (s: string)
    ensures |s| == (4 * |b| + 2) / 3
    ensures IsUnpadded(s)
  {
    if b == [] then ""
    else if |b| == 1 then [Symbol(b[0] / 4), Symbol(b[0] % 4 * 16)]
    else if |b| == 2 then [Symbol(b[0] / 4), Symbol(b[0] % 4 * 16 + b[1] / 16), Symbol(b[1] % 16 * 4)]
    else
      assert (4 * |b| + 2) / 3 == 4 + (4 * (|b| - 3) + 2) / 3;
      Quantum(b[0], b[1], b[2]) + Body(b[3..])
  }

  lemma RepadAfterQuantum(quantum: string, s: string)
    requires |quantum| == 4
    ensures Repad(quantum + s) == quantum + Repad(s)
  {
    assert (-|quantum + s|) % 4 == (-|s|) % 4;
  }

  lemma {:induction false} EncodeIsPaddedBody(b: seq<byte>)
    ensures Encode(b) == Repad(Body(b))
  {
    if |b| >= 3 {
      EncodeIsPaddedBody(b[3..]);
      RepadAfterQuantum(Quantum(b[0], b[1], b[2]), Body(b[3..]));
    }
  }

  lemma {:induction false} StripPadded(s: string, n: nat)
    requires '=' !in s
    ensures StripPad(s + Pads(n)) == s
  {
    if n == 0 {
      assert s + Pads(0) == s;
    } else {
      assert (s + Pads(n))[..|s| + n - 1] == s + Pads(n - 1);
      StripPadded(s, n - 1);
    }
  }

  lemma StripEncode(b: seq<byte>)
    ensures StripPad(Encode(b)) == Body(b)
  {
    EncodeIsPaddedBody(b);
    StripPadded(Body(b), (-|Body(b)|) % 4);
  }

  lemma ScanSymbol(c: char, rest: string, quad: nat, left: nat, pads: nat)
    requires Carried(quad, left) && IsSymbol(c)
    ensures var (quad', left', out) := Shift(quad, left, Value(c).value);
            Scan([c] + rest, quad, left, pads) == Prefixed(out, Scan(rest, quad', left', 0))
  {
    assert ([c] + rest)[1..] == rest;
  }

  /** The bits of three bytes, cut into sextets and put together again. */
  lemma SextetBits(b0: byte, b1: byte, b2: byte)
    ensures (b0 % 4 * 16 + b1 / 16) / 16 == b0 % 4 && (b0 % 4 * 16 + b1 / 16) % 16 == b1 / 16
    ensures (b1 % 16 * 4 + b2 / 64) / 4 == b1 % 16 && (b1 % 16 * 4 + b2 / 64) % 4 == b2 / 64
    ensures b0 / 4 * 4 + b0 % 4 == b0 && b1 / 16 * 16 + b1 % 16 == b1 && b2 / 64 * 64 + b2 % 64 == b2
  {
  }

  lemma PrefixedNothing(tail: Option<seq<byte>>)
    ensures Prefixed([], tail) == tail
  {
    if tail.Some? {
      assert [] + tail.value == tail.value;
    }
  }

  lemma PrefixedTwice(a: seq<byte>, b: seq<byte>, tail: Option<seq<byte>>)
    ensures Prefixed(a, Prefixed(b, tail)) == Prefixed(a + b, tail)
  {
    if tail.Some? {
      assert a + (b + tail.value) == a + b + tail.value;
    }
  }

  /** Two symbols carry the first byte and the high bits of the second. */
  lemma ScanPair(b0: byte, b1: byte, rest: string)
    ensures Scan([Symbol(b0 / 4)] + ([Symbol(b0 % 4 * 16 + b1 / 16)] + rest), 0, 0, 0)
            == Prefixed([b0], Scan(rest, 2, b1 / 16, 0))
  {
    SextetBits(b0, b1, 0);
    var s0, s1 := Symbol(b0 / 4), Symbol(b0 % 4 * 16 + b1 / 16);
    ScanSymbol(s0, [s1] + rest, 0, 0, 0);
    ScanSymbol(s1, rest, 1, b0 / 4, 0);
    assert Shift(1, b0 / 4, b0 % 4 * 16 + b1 / 16) == (2, b1 / 16, [b0]);
    PrefixedNothing(Scan([s1] + rest, 1, b0 / 4, 0));
  }

  /** The other two symbols of a quantum carry the low bits of the second byte and the third byte. */
  lemma ScanPairEnd(b1: byte, b2: byte, rest: string)
    ensures Scan([Symbol(b1 % 16 * 4 + b2 / 64)] + ([Symbol(b2 % 64)] + rest), 2, b1 / 16, 0)
            == Prefixed([b1, b2], Scan(rest, 0, 0, 0))
  {
    SextetBits(0, b1, b2);
    var s2, s3 := Symbol(b1 % 16 * 4 + b2 / 64), Symbol(b2 % 64);
    ScanSymbol(s3, rest, 3, b2 / 64, 0);
    assert Shift(3, b2 / 64, b2 % 64) == (0, 0, [b2]);
    ScanSymbol(s2, [s3] + rest, 2, b1 / 16, 0);
    assert Shift(2, b1 / 16, b1 % 16 * 4 + b2 / 64) == (3, b2 / 64, [b1]);
    PrefixedTwice([b1], [b2], Scan(rest, 0, 0, 0));
    assert [b1] + [b2] == [b1, b2];
  }

  lemma QuantumSymbols(b0: byte, b1: byte, b2: byte, rest: string)
    ensures Quantum(b0, b1, b2) + rest
            == [Symbol(b0 / 4)]
               + ([Symbol(b0 % 4 * 16 + b1 / 16)] + ([Symbol(b1 % 16 * 4 + b2 / 64)] + ([Symbol(b2 % 64)] + rest)))
  {
  }

  lemma ScanQuantum(b0: byte, b1: byte, b2: byte, rest: string)
    ensures Scan(Quantum(b0, b1, b2) + rest, 0, 0, 0) == Prefixed([b0, b1, b2], Scan(rest, 0, 0, 0))
  {
    var s2, s3 := Symbol(b1 % 16 * 4 + b2 / 64), Symbol(b2 % 64);
    ScanPair(b0, b1, [s2] + ([s3] + rest));
    ScanPairEnd(b1, b2, rest);
    PrefixedTwice([b0], [b1, b2], Scan(rest, 0, 0, 0));
    assert [b0] + [b1, b2] == [b0, b1, b2];
    QuantumSymbols(b0, b1, b2, rest);
  }

  lemma ScanTail1(b0: byte)
    ensures Scan(Encode([b0]), 0, 0, 0) == Some([b0])
  {
    ScanPair(b0, 0, Pads(2));
    assert Pads(2)[1..] == Pads(1);
    assert Scan(Pads(1), 2, 0, 1) == Some([]) && Scan(Pads(2), 2, 0, 0) == Some([]);
    assert [b0] + [] == [b0];
    assert Encode([b0]) == [Symbol(b0 / 4)] + ([Symbol(b0 % 4 * 16)] + Pads(2));
  }

  lemma ScanTail2(b0: byte, b1: byte)
    ensures Scan(Encode([b0, b1]), 0, 0, 0) == Some([b0, b1])
  {
    SextetBits(0, b1, 0);
    var s2 := Symbol(b1 % 16 * 4);
    ScanSymbol(s2, Pads(1), 2, b1 / 16, 0);
    assert Shift(2, b1 / 16, b1 % 16 * 4) == (3, 0, [b1]);
    ScanPair(b0, b1, [s2] + Pads(1));
    assert Scan(Pads(1), 3, 0, 0) == Some([]);
    assert [b0] + ([b1] + []) == [b0, b1];
    assert Encode([b0, b1]) == [Symbol(b0 / 4)] + ([Symbol(b0 % 4 * 16 + b1 / 16)] + ([s2] + Pads(1)));
  }

  lemma {:induction false} ScanEncode(b: seq<byte>)
    ensures Scan(Encode(b), 0, 0, 0) == Some(b)
  {
    if |b| == 1 {
      assert b == [b[0]];
      ScanTail1(b[0]);
    } else if |b| == 2 {
      assert b == [b[0], b[1]];
      ScanTail2(b[0], b[1]);
    } else if |b| >= 3 {
      ScanEncode(b[3..]);
      ScanQuantum(b[0], b[1], b[2], Encode(b[3..]));
      assert b == [b[0], b[1], b[2]] + b[3..];
    }
  }

  lemma RepadIsAscii(s: string)
    requires IsUnpadded(s)
    ensures !exists c :: c in Repad(s) && c >= 128 as char
  {
    forall c | c in Repad(s) ensures c < 128 as char {
      assert c in s || c == '=';
    }
  }

  /** Padding taken off and put back is the identity, and decoding then gives the bytes back. */
  lemma UnpaddedRoundTrip(b: seq<byte>)
    ensures Repad(StripPad(Encode(b))) == Encode(b)
    ensures Decode(Repad(StripPad(Encode(b)))) == Some(b)
  {
    StripEncode(b);
    EncodeIsPaddedBody(b);
    ScanEncode(b);
    RepadIsAscii(Body(b));
  }

  lemma ThirdsOfFour(n: nat, length: nat)
    requires length == (4 * n + 2) / 3
    ensures length % 4 != 1
  {
    var q, r := n / 3, n % 3;
    assert n == 3 * q + r;
    assert (4 * n + 2) / 3 == 4 * q + (4 * r + 2) / 3;
  }

  lemma UnpaddedShape(b: seq<byte>)
    ensures var text := StripPad(Encode(b));
            |text| == (4 * |b| + 2) / 3 && |text| % 4 != 1 && IsUnpadded(text)
  {
    StripEncode(b);
    ThirdsOfFour(|b|, |Body(b)|);
  }

  lemma UnpaddedIsInjective(a: seq<byte>, b: seq<byte>)
    requires StripPad(Encode(a)) == StripPad(Encode(b))
    ensures a == b
  {
    UnpaddedRoundTrip(a);
    UnpaddedRoundTrip(b);
  }

  // -----  Which unpadded texts decode  -----

  lemma {:induction false} ScanPadsOnly(n: nat, left: nat)
    requires left < 64
    ensures Scan(Pads(n), 1, left, 0) == None
  {
    if n > 0 {
      assert Pads(n)[1..] == Pads(n - 1);
      ScanPadsOnly(n - 1, left);
    }
  }

  /** How many bytes are still to come, from this position, out of so many characters. */
  function Remaining(length: nat, quad: nat): int
  {
    (quad + length) * 3 / 4 - (if quad == 0 then 0 else quad - 1)
  }

  /** Scanning from this position succeeds exactly when the characters do not end one past a quantum. */
  ghost predicate ScansExactly(s: string, n: nat, quad: nat, left: nat)
    requires Carried(quad, left)
  {
    var scanned := Scan(s + Pads(n), quad, left, 0);
    && (scanned.Some? <==> (quad + |s|) % 4 != 1)
    && (scanned.Some? ==> |scanned.value| == Remaining(|s|, quad))
  }

  lemma ScanPads(n: nat, quad: nat, left: nat)
    requires Carried(quad, left) && n == (-(quad as int)) % 4
    ensures ScansExactly("", n, quad, left)
  {
    assert "" + Pads(n) == Pads(n);
    if quad == 1 {
      ScanPadsOnly(n, left);
    } else if quad == 2 {
      assert Pads(2)[1..] == Pads(1);
    }
  }

  lemma RemainingNext(length: nat, quad: nat)
    requires length > 0 && quad < 4
    ensures var next := (quad + 1) % 4;
            && (next + length - 1) % 4 == (quad + length) % 4
            && (if quad == 0 then 0 else 1) + Remaining(length - 1, next) == Remaining(length, quad)
  {
    if quad == 3 {
      assert (length + 3) * 3 / 4 == (length - 1) * 3 / 4 + 3;
    }
  }

  lemma ScanOne(s: string, n: nat, quad: nat, left: nat)
    requires Carried(quad, left) && s != "" && IsSymbol(s[0])
    ensures var (quad', left', out) := Shift(quad, left, Value(s[0]).value);
            && quad' == (quad + 1) % 4 && |out| == (if quad == 0 then 0 else 1)
            && Scan(s + Pads(n), quad, left, 0) == Prefixed(out, Scan(s[1..] + Pads(n), quad', left', 0))
  {
    assert s + Pads(n) == [s[0]] + (s[1..] + Pads(n));
    ScanSymbol(s[0], s[1..] + Pads(n), quad, left, 0);
  }

  lemma ScanNext(s: string, n: nat, quad: nat, left: nat)
    requires Carried(quad, left) && s != "" && IsSymbol(s[0])
    requires var (quad', left', _) := Shift(quad, left, Value(s[0]).value);
             ScansExactly(s[1..], n, quad', left')
    ensures ScansExactly(s, n, quad, left)
  {
    ScanOne(s, n, quad, left);
    RemainingNext(|s|, quad);
  }

  lemma {:induction false} ScanAlphabet(s: string, n: nat, quad: nat, left: nat)
    requires Carried(quad, left) && n == (-(quad + |s|)) % 4 && IsUnpadded(s)
    ensures ScansExactly(s, n, quad, left)
  {
    if s == "" {
      ScanPads(n, quad, left);
    } else {
      assert s[0] in s;
      var (quad', left', _) := Shift(quad, left, Value(s[0]).value);
      ScanAlphabet(s[1..], n, quad', left');
      ScanNext(s, n, quad, left);
    }
  }

  /** A text over the alphabet decodes, once padded again, unless its length is 1 mod 4. */
  lemma RepaddedDecodesExactly(s: string)
    requires IsUnpadded(s)
    ensures Decode(Repad(s)).Some? <==> |s| % 4 != 1
    ensures |s| % 4 != 1 ==> |Decode(Repad(s)).value| == |s| * 3 / 4
  {
    ScanAlphabet(s, (-|s|) % 4, 0, 0);
    RepadIsAscii(s);
  }

  // -----  What the lenient decoder makes of other texts  -----

  lemma {:induction false} ScanSkips(a: string, c: char, b: string, quad: nat, left: nat, pads: nat)
    requires Carried(quad, left) && Value(c).None? && c != '='
    ensures Scan(a + [c] + b, quad, left, pads) == Scan(a + b, quad, left, pads)
    decreases |a|
  {
    var s, t := a + [c] + b, a + b;
    if a == "" {
      assert s[0] == c && s[1..] == b && t == b;
    } else {
      assert s[0] == a[0] == t[0] && s[1..] == a[1..] + [c] + b && t[1..] == a[1..] + b;
      if a[0] == '=' {
        if quad < 2 {
          ScanSkips(a[1..], c, b, quad, left, pads);
        } else if quad + pads + 1 < 4 {
          ScanSkips(a[1..], c, b, quad, left, pads + 1);
        }
      } else if Value(a[0]).None? {
        ScanSkips(a[1..], c, b, quad, left, pads);
      } else {
        var (quad', left', _) := Shift(quad, left, Value(a[0]).value);
        ScanSkips(a[1..], c, b, quad', left', 0);
      }
    }
  }

  /** An ASCII character that is in neither alphabet, wherever it stands, changes nothing. */
  lemma ForeignIsSkipped(a: string, c: char, b: string)
    requires c < 128 as char && c != '='
    requires !('A' <= c <= 'Z') && !('a' <= c <= 'z') && !('0' <= c <= '9') && c !in "-_+/"
    ensures Decode(a + [c] + b) == Decode(a + b)
  {
    assert "-_+/"[0] == '-' && "-_+/"[1] == '_' && "-_+/"[2] == '+' && "-_+/"[3] == '/';
    ScanSkips(a, c, b, 0, 0, 0);
    assert forall x :: x in a + [c] + b <==> x in a + b || x == c;
  }

  /** The standard alphabet's two characters as the URL-safe ones. */
  function UrlSafe(s: string): (t: string)
    ensures |t| == |s|
  {
    seq(|s|, i requires 0 <= i < |s| => if s[i] == '+' then '-' else if s[i] == '/' then '_' else s[i])
  }

  lemma {:induction false} ScanUrlSafe(s: string, quad: nat, left: nat, pads: nat)
    requires Carried(quad, left)
    ensures Scan(UrlSafe(s), quad, left, pads) == Scan(s, quad, left, pads)
    decreases |s|
  {
    if s != "" {
      var t := UrlSafe(s);
      assert t[1..] == UrlSafe(s[1..]) && Value(t[0]) == Value(s[0]) && (t[0] == '=' <==> s[0] == '=');
      if s[0] == '=' {
        if quad < 2 {
          ScanUrlSafe(s[1..], quad, left, pads);
        } else if quad + pads + 1 < 4 {
          ScanUrlSafe(s[1..], quad, left, pads + 1);
        }
      } else if Value(s[0]).None? {
        ScanUrlSafe(s[1..], quad, left, pads);
      } else {
        var (quad', left', _) := Shift(quad, left, Value(s[0]).value);
        ScanUrlSafe(s[1..], quad', left', 0);
      }
    }
  }

  /** A text over the standard alphabet decodes like the same text over the URL-safe one; other text is refused. */
  lemma StandardAlphabetDecodes(s: string)
    ensures (forall c :: c in s ==> c < 128 as char) ==> Decode(UrlSafe(s)) == Decode(s)
    ensures (exists c :: c in s && c >= 128 as char) ==> Decode(s) == None
  {
    ScanUrlSafe(s, 0, 0, 0);
    if forall c :: c in s ==> c < 128 as char {
      forall c | c in UrlSafe(s) ensures c < 128 as char {
        var i :| 0 <= i < |s| && UrlSafe(s)[i] == c;
        assert s[i] in s;
      }
    }
  }
}
