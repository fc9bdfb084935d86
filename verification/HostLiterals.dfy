/**
 * Hosts written as addresses (mcp.py). `ipaddress.ip_address` takes only the canonical
 * dotted quad, `socket.inet_aton` every legacy spelling: one to four parts, each decimal,
 * hexadecimal or octal, the last filling the bytes that remain.
 */
module HostLiterals {
  import opened Wrappers
  import opened Texts
  import opened Numerals

  datatype Address = V4(value: nat) | V6(value: nat)

  /** One more than the largest value of a last part that fills what `n` parts leave. */
  function Room(n: nat): nat
    requires 1 <= n <= 4
  {
    match n
    case 1 => 0x1_0000_0000
    case 2 => 0x100_0000
    case 3 => 0x1_0000
    case _ => 0x100
  }

  predicate FitsAddress(values: seq<nat>)
  {
    && 1 <= |values| <= 4
    && (forall i :: 0 <= i < |values| - 1 ==> values[i] < 256)
    && values[|values| - 1] < Room(|values|)
  }

  /** The 32-bit value of an address in one to four parts. */
  function AddressOf(values: seq<nat>): (v: nat)
    requires FitsAddress(values)
    ensures v < 0x1_0000_0000
  {
    match |values|
    case 1 => values[0]
    case 2 => values[0] * 0x100_0000 + values[1]
    case 3 => values[0] * 0x100_0000 + values[1] * 0x1_0000 + values[2]
    case _ => values[0] * 0x100_0000 + values[1] * 0x1_0000 + values[2] * 0x100 + values[3]
  }

  function ParseNumbers(parts: seq<string>): Option<seq<nat>>
  {
    if parts == [] then Some([])
    else
      match (ParseNumber(parts[0]), ParseNumbers(parts[1..]))
      case (Some(value), Some(rest)) => Some([value] + rest)
      case _ => None
  }

  /** `socket.inet_aton`. */
  function ParseAton(host: string): Option<nat>
  {
    match ParseNumbers(Split(host, '.'))
    case Some(values) => if FitsAddress(values) then Some(AddressOf(values)) else None
    case None => None
  }

  /** One octet of a canonical dotted quad. */
  predicate IsOctet(s: string)
  {
    s != "" && AllDigits(s, 10) && |s| <= 3 && (s == "0" || s[0] != '0') && ValueOf(s, 10) < 256
  }

  predicate AreOctets(parts: seq<string>)
  {
    |parts| == 4 && IsOctet(parts[0]) && IsOctet(parts[1]) && IsOctet(parts[2]) && IsOctet(parts[3])
  }

  function OctetValues(parts: seq<string>): (values: seq<nat>)
    requires AreOctets(parts)
    ensures FitsAddress(values)
  {
    [ValueOf(parts[0], 10), ValueOf(parts[1], 10), ValueOf(parts[2], 10), ValueOf(parts[3], 10)]
  }

  /** `ipaddress.IPv4Address`. */
  function ParseStrict(host: string): Option<nat>
  {
    var parts := Split(host, '.');
    if AreOctets(parts) then Some(AddressOf(OctetValues(parts))) else None
  }

  /** `_parse_ip`; `v6` is the parser of IPv6 text. */
  function ParseIp(host: string, v6: string -> Option<nat>): Option<Address>
  {
    if ParseStrict(host).Some? then Some(V4(ParseStrict(host).value))
    else if v6(host).Some? then Some(V6(v6(host).value))
    else if ParseAton(host).Some? then Some(V4(ParseAton(host).value))
    else None
  }

  /** `_is_blocked_host`; `nonPublic` is the union of the address categories it refuses. */
  predicate IsBlockedHost(host: string, v6: string -> Option<nat>, nonPublic: Address -> bool)
  {
    host == "" || host == "localhost" || EndsWith(host, ".localhost")
    || (ParseIp(host, v6).Some? && nonPublic(ParseIp(host, v6).value))
  }

  // -----  The two parsers agree  -----

  lemma OctetIsNumber(s: string)
    requires IsOctet(s)
    ensures ParseNumber(s) == Some(ValueOf(s, 10))
  {
    if s == "0" {
      assert s[..|s| - 1] == "" && AllDigits(s, 8);
      assert ValueOf("", 8) == 0 && ValueOf("", 10) == 0;
    } else if |s| >= 2 {
      assert s[0] in s;
    }
  }

  lemma {:induction false} NumbersParse(parts: seq<string>, values: seq<nat>)
    requires |parts| == |values| && forall i :: 0 <= i < |parts| ==> ParseNumber(parts[i]) == Some(values[i])
    ensures ParseNumbers(parts) == Some(values)
  {
    if parts != [] {
      NumbersParse(parts[1..], values[1..]);
      assert values == [values[0]] + values[1..];
    }
  }

  /** Wherever the strict parser accepts, the lenient one gives the same value. */
  lemma ParsersAgree(host: string)
    requires ParseStrict(host).Some?
    ensures ParseAton(host) == ParseStrict(host)
  {
    var parts := Split(host, '.');
    forall i | 0 <= i < 4 ensures ParseNumber(parts[i]) == Some(ValueOf(parts[i], 10)) {
      OctetIsNumber(parts[i]);
    }
    NumbersParse(parts, OctetValues(parts));
  }

  // -----  Every spelling of an address  -----

  function SpelledValues(parts: seq<Spelling>): (values: seq<nat>)
    ensures |values| == |parts| && forall i :: 0 <= i < |parts| ==> values[i] == SpelledValue(parts[i])
  {
    seq(|parts|, i requires 0 <= i < |parts| => SpelledValue(parts[i]))
  }

  /** Parts that are numerals, with values an address in so many parts can have. */
  predicate IsSpelled(parts: seq<Spelling>)
  {
    (forall i :: 0 <= i < |parts| ==> IsSpelling(parts[i])) && FitsAddress(SpelledValues(parts))
  }

  function WrittenParts(parts: seq<Spelling>): (texts: seq<string>)
    requires forall i :: 0 <= i < |parts| ==> IsSpelling(parts[i])
    ensures |texts| == |parts| && forall i :: 0 <= i < |parts| ==> texts[i] == Written(parts[i])
  {
    seq(|parts|, i requires 0 <= i < |parts| => Written(parts[i]))
  }

  /** The host as it is spelled. */
  function Host(parts: seq<Spelling>): string
    requires IsSpelled(parts)
  {
    Join(WrittenParts(parts), '.')
  }

  /** The address it spells. */
  function SpelledAddress(parts: seq<Spelling>): nat
    requires IsSpelled(parts)
  {
    AddressOf(SpelledValues(parts))
  }

  /** Every spelling of an address parses to it, whatever the bases, zeros and letter cases of its parts. */
  lemma EverySpellingParses(parts: seq<Spelling>)
    requires IsSpelled(parts)
    ensures ParseAton(Host(parts)) == Some(SpelledAddress(parts))
    ensures Split(Host(parts), '.') == WrittenParts(parts)
  {
    var texts := WrittenParts(parts);
    forall i | 0 <= i < |parts| ensures ParseNumber(texts[i]) == Some(SpelledValue(parts[i])) && '.' !in texts[i] {
      WrittenIsRead(parts[i]);
      if '.' in texts[i] {
        NumberHolds(texts[i], '.');
      }
    }
    forall text | text in texts ensures '.' !in text {
      var i :| 0 <= i < |texts| && texts[i] == text;
    }
    SplitJoinWithout(texts, '.');
    NumbersParse(texts, SpelledValues(parts));
  }

  /** The parts write and mean these texts and values. */
  predicate Spells(parts: seq<Spelling>, texts: seq<string>, values: seq<nat>)
  {
    && |parts| == |texts| == |values|
    && forall i :: 0 <= i < |parts| ==>
         IsSpelling(parts[i]) && Written(parts[i]) == texts[i] && SpelledValue(parts[i]) == values[i]
  }

  lemma SpellsCons(first: Spelling, rest: seq<Spelling>, texts: seq<string>, values: seq<nat>)
    requires texts != [] && IsSpelling(first) && Written(first) == texts[0] && Spells(rest, texts[1..], values)
    ensures Spells([first] + rest, texts, [SpelledValue(first)] + values)
  {
    forall i | 0 < i < |texts| ensures texts[i] == texts[1..][i - 1] {
    }
  }

  lemma {:induction false} NumbersAreWritten(texts: seq<string>) returns (parts: seq<Spelling>)
    requires ParseNumbers(texts).Some?
    ensures Spells(parts, texts, ParseNumbers(texts).value)
  {
    if texts == [] {
      parts := [];
    } else {
      var first := ReadIsWritten(texts[0]);
      WrittenIsRead(first);
      var rest := NumbersAreWritten(texts[1..]);
      parts := [first] + rest;
      SpellsCons(first, rest, texts, ParseNumbers(texts[1..]).value);
    }
  }

  /** A host is read as an address exactly when it joins one to four numerals that spell it. */
  lemma AtonIsExact(host: string, v: nat)
    ensures ParseAton(host) == Some(v)
            <==> exists parts :: IsSpelled(parts) && Host(parts) == host && SpelledAddress(parts) == v
  {
    if ParseAton(host) == Some(v) {
      var parts := NumbersAreWritten(Split(host, '.'));
      JoinSplit(host, '.');
      assert SpelledValues(parts) == ParseNumbers(Split(host, '.')).value;
      assert WrittenParts(parts) == Split(host, '.');
      assert IsSpelled(parts) && Host(parts) == host && SpelledAddress(parts) == v;
    }
    if parts :| IsSpelled(parts) && Host(parts) == host && SpelledAddress(parts) == v {
      EverySpellingParses(parts);
    }
  }

  // -----  Short forms  -----

  /** The `k` low bytes of a number, the most significant first. */
  function BigEndian(v: nat, k: nat): (bytes: seq<nat>)
    ensures |bytes| == k && forall i :: 0 <= i < k ==> bytes[i] < 256
  {
    if k == 0 then [] else BigEndian(v / 256, k - 1) + [v % 256]
  }

  lemma OneByte(v: nat)
    ensures BigEndian(v, 1) == [v % 256]
  {
    assert BigEndian(v / 256, 0) == [];
  }

  lemma TwoBytes(v: nat)
    ensures BigEndian(v, 2) == [v / 256 % 256, v % 256]
  {
    OneByte(v / 256);
  }

  lemma ThreeBytes(v: nat)
    ensures BigEndian(v, 3) == [v / 256 / 256 % 256, v / 256 % 256, v % 256]
  {
    TwoBytes(v / 256);
  }

  lemma FourBytes(v: nat)
    ensures BigEndian(v, 4) == [v / 256 / 256 / 256 % 256, v / 256 / 256 % 256, v / 256 % 256, v % 256]
  {
    ThreeBytes(v / 256);
  }

  /** The parts but the last, and then the bytes of the last, make the same address. */
  predicate FillsQuad(values: seq<nat>)
    requires FitsAddress(values)
  {
    var n := |values|;
    var quad := values[..n - 1] + BigEndian(values[n - 1], 5 - n);
    |quad| == 4 && FitsAddress(quad) && AddressOf(quad) == AddressOf(values)
  }

  lemma Low(v: nat)
    ensures v == v / 256 * 256 + v % 256 && v % 256 < 256
  {
  }

  lemma OnePartFills(v: nat)
    requires v < 0x1_0000_0000
    ensures FillsQuad([v])
  {
    var a, b, c := v / 256, v / 256 / 256, v / 256 / 256 / 256;
    Low(v);
    Low(a);
    Low(b);
    assert c < 256 && c % 256 == c;
    FourBytes(v);
    assert [v][..0] + BigEndian(v, 4) == [c, b % 256, a % 256, v % 256];
  }

  lemma TwoPartsFill(p: nat, v: nat)
    requires p < 256 && v < 0x100_0000
    ensures FillsQuad([p, v])
  {
    var a, b := v / 256, v / 256 / 256;
    Low(v);
    Low(a);
    assert b < 256 && b % 256 == b;
    ThreeBytes(v);
    assert [p, v][..1] + BigEndian(v, 3) == [p, b, a % 256, v % 256];
  }

  lemma ThreePartsFill(p: nat, q: nat, v: nat)
    requires p < 256 && q < 256 && v < 0x1_0000
    ensures FillsQuad([p, q, v])
  {
    var a := v / 256;
    Low(v);
    assert a < 256 && a % 256 == a;
    TwoBytes(v);
    assert [p, q, v][..2] + BigEndian(v, 2) == [p, q, a, v % 256];
  }

  /** A short form is the quad whose remaining bytes its last part fills. */
  lemma ShortFormFillsBytes(values: seq<nat>)
    requires FitsAddress(values)
    ensures FillsQuad(values)
  {
    match |values|
    case 1 => OnePartFills(values[0]);
              assert values == [values[0]];
    case 2 => TwoPartsFill(values[0], values[1]);
              assert values == [values[0], values[1]];
    case 3 => ThreePartsFill(values[0], values[1], values[2]);
              assert values == [values[0], values[1], values[2]];
    case 4 => OneByte(values[3]);
              assert values[..3] + [values[3]] == values;
  }

  lemma AtLeastOne(d: nat, room: nat)
    requires d > 0
    ensures d * room >= room
  {
  }

  lemma SameHead(a: nat, rest: nat, b: nat, rest': nat, room: nat)
    requires rest < room && rest' < room && a * room + rest == b * room + rest'
    ensures a == b && rest == rest'
  {
    if a < b {
      AtLeastOne(b - a, room);
    } else if b < a {
      AtLeastOne(a - b, room);
    }
  }

  /** Forms of one length never share an address, so no two of them are mistaken for one another. */
  lemma AddressIsInjective(a: seq<nat>, b: seq<nat>)
    requires FitsAddress(a) && FitsAddress(b) && |a| == |b| && AddressOf(a) == AddressOf(b)
    ensures a == b
  {
    match |a|
    case 1 =>
      assert a == [a[0]] && b == [b[0]];
    case 2 =>
      assert a == [a[0], a[1]] && b == [b[0], b[1]];
      SameHead(a[0], a[1], b[0], b[1], 0x100_0000);
    case 3 =>
      assert a == [a[0], a[1], a[2]] && b == [b[0], b[1], b[2]];
      SameHead(a[0], a[1] * 0x1_0000 + a[2], b[0], b[1] * 0x1_0000 + b[2], 0x100_0000);
      SameHead(a[1], a[2], b[1], b[2], 0x1_0000);
    case 4 =>
      assert a == [a[0], a[1], a[2], a[3]] && b == [b[0], b[1], b[2], b[3]];
      SameHead(a[0], a[1] * 0x1_0000 + a[2] * 0x100 + a[3], b[0], b[1] * 0x1_0000 + b[2] * 0x100 + b[3], 0x100_0000);
      SameHead(a[1], a[2] * 0x100 + a[3], b[1], b[2] * 0x100 + b[3], 0x1_0000);
      SameHead(a[2], a[3], b[2], b[3], 0x100);
  }

  // -----  The canonical spelling  -----

  /** The bytes of a 32-bit value, the most significant first. */
  function Bytes(v: nat): seq<nat>
  {
    [v / 0x100_0000, v / 0x1_0000 % 0x100, v / 0x100 % 0x100, v % 0x100]
  }

  /** Its dotted quad. */
  function Quad(v: nat): (parts: seq<Spelling>)
    ensures |parts| == 4 && forall i :: 0 <= i < 4 ==> IsSpelling(parts[i])
  {
    [Plain(v / 0x100_0000), Plain(v / 0x1_0000 % 0x100), Plain(v / 0x100 % 0x100), Plain(v % 0x100)]
  }

  lemma BytesMake(v: nat)
    requires v < 0x1_0000_0000
    ensures FitsAddress(Bytes(v)) && AddressOf(Bytes(v)) == v
  {
    assert v == v / 0x100 * 0x100 + v % 0x100;
    assert v / 0x100 == v / 0x1_0000 * 0x100 + v / 0x100 % 0x100;
    assert v / 0x1_0000 == v / 0x100_0000 * 0x100 + v / 0x1_0000 % 0x100;
  }

  lemma QuadSpells(v: nat)
    requires v < 0x1_0000_0000
    ensures IsSpelled(Quad(v)) && SpelledValues(Quad(v)) == Bytes(v) && SpelledAddress(Quad(v)) == v
  {
    BytesMake(v);
    PlainMakes(v / 0x100_0000);
    PlainMakes(v / 0x1_0000 % 0x100);
    PlainMakes(v / 0x100 % 0x100);
    PlainMakes(v % 0x100);
    assert SpelledValues(Quad(v)) == Bytes(v);
  }

  lemma FewDigits(n: nat)
    requires n < 1000
    ensures |DecimalDigits(n)| <= 3
  {
    assert n / 10 < 100 && n / 10 / 10 < 10 && n / 10 / 10 / 10 == 0;
    assert |DecimalDigits(n / 10 / 10 / 10)| == 0;
    assert |DecimalDigits(n / 10 / 10)| <= 1;
    assert |DecimalDigits(n / 10)| <= 2;
  }

  lemma PlainIsOctet(n: nat)
    requires n < 256
    ensures IsOctet(Written(Plain(n))) && ValueOf(Written(Plain(n)), 10) == n
  {
    if n == 0 {
      var zero := [Digit(0, false)];
      CharsAreRead(zero, 10);
      assert Chars(zero) == "0" && Written(Plain(0)) == "0";
      assert zero[1..] == [];
    } else {
      FewDigits(n);
      DecimalDigitsMake(n);
      CharsAreRead(DecimalDigits(n), 10);
      assert Written(Plain(n))[0] == DigitChar(DecimalDigits(n)[0]);
    }
  }

  /** An octet is the one plain numeral of its value. */
  lemma OctetIsPlain(s: string)
    requires IsOctet(s)
    ensures s == Written(Plain(ValueOf(s, 10)))
  {
    var digits := DigitsOf(s, 10);
    CharsAreRead(digits, 10);
    if s == "0" {
      assert s[..0] == "" && ValueOf("", 10) == 0;
      assert Chars([]) == "";
    } else {
      assert s[0] == DigitChar(digits[0]);
      DecimalIsUnique(digits);
      NonZero(digits);
    }
  }

  lemma QuadIsOctets(v: nat)
    requires v < 0x1_0000_0000
    ensures AreOctets(WrittenParts(Quad(v))) && OctetValues(WrittenParts(Quad(v))) == Bytes(v)
  {
    PlainIsOctet(v / 0x100_0000);
    PlainIsOctet(v / 0x1_0000 % 0x100);
    PlainIsOctet(v / 0x100 % 0x100);
    PlainIsOctet(v % 0x100);
  }

  /** Both parsers read the dotted quad, and read the value it stands for. */
  lemma QuadParses(v: nat)
    requires v < 0x1_0000_0000
    ensures IsSpelled(Quad(v))
    ensures ParseStrict(Host(Quad(v))) == Some(v) && ParseAton(Host(Quad(v))) == Some(v)
  {
    QuadSpells(v);
    EverySpellingParses(Quad(v));
    QuadIsOctets(v);
    BytesMake(v);
  }

  lemma QuadOf(v: nat, values: seq<nat>)
    requires values == Bytes(v)
    ensures Quad(v) == [Plain(values[0]), Plain(values[1]), Plain(values[2]), Plain(values[3])]
  {
  }

  lemma OctetsAreQuad(texts: seq<string>)
    requires AreOctets(texts)
    ensures var v := AddressOf(OctetValues(texts));
            IsSpelled(Quad(v)) && WrittenParts(Quad(v)) == texts
  {
    var values := OctetValues(texts);
    var v := AddressOf(values);
    BytesMake(v);
    AddressIsInjective(values, Bytes(v));
    QuadSpells(v);
    OctetIsPlain(texts[0]);
    OctetIsPlain(texts[1]);
    OctetIsPlain(texts[2]);
    OctetIsPlain(texts[3]);
    QuadOf(v, values);
  }

  /** The strict parser accepts the dotted quads and nothing else. */
  lemma StrictIsExact(host: string, v: nat)
    ensures ParseStrict(host) == Some(v)
            <==> v < 0x1_0000_0000 && IsSpelled(Quad(v)) && Host(Quad(v)) == host
  {
    if v < 0x1_0000_0000 {
      QuadParses(v);
    }
    if ParseStrict(host) == Some(v) {
      OctetsAreQuad(Split(host, '.'));
      JoinSplit(host, '.');
    }
  }

  /** The first parts as bytes, and the rest of the address in the last. */
  function PartsOf(v: nat, n: nat): seq<nat>
    requires 1 <= n <= 4
  {
    match n
    case 1 => [v]
    case 2 => [v / 0x100_0000, v % 0x100_0000]
    case 3 => [v / 0x100_0000, v / 0x1_0000 % 0x100, v % 0x1_0000]
    case 4 => Bytes(v)
  }

  lemma PartsMake(v: nat, n: nat)
    requires v < 0x1_0000_0000 && 1 <= n <= 4
    ensures |PartsOf(v, n)| == n && FitsAddress(PartsOf(v, n)) && AddressOf(PartsOf(v, n)) == v
  {
    BytesMake(v);
    if n == 3 {
      assert v == v / 0x1_0000 * 0x1_0000 + v % 0x1_0000;
      assert v / 0x1_0000 == v / 0x100_0000 * 0x100 + v / 0x1_0000 % 0x100;
    }
  }

  /** Every address has a form of every length, written with plain numerals if with nothing else. */
  lemma EveryLengthSpells(v: nat, n: nat) returns (parts: seq<Spelling>)
    requires v < 0x1_0000_0000 && 1 <= n <= 4
    ensures |parts| == n && IsSpelled(parts) && SpelledAddress(parts) == v
    ensures ParseAton(Host(parts)) == Some(v)
  {
    var values := PartsOf(v, n);
    PartsMake(v, n);
    parts := seq(n, i requires 0 <= i < n => Plain(values[i]));
    forall i | 0 <= i < n ensures SpelledValue(parts[i]) == values[i] {
      PlainMakes(values[i]);
    }
    assert SpelledValues(parts) == values;
    EverySpellingParses(parts);
  }

  // -----  The verdict depends on the address alone  -----

  /** IPv6 text has a colon in it. */
  ghost predicate NeedsColon(v6: string -> Option<nat>)
  {
    forall host :: v6(host).Some? ==> ':' in host
  }

  lemma {:induction false} PartParses(parts: seq<string>, p: string)
    requires ParseNumbers(parts).Some? && p in parts
    ensures ParseNumber(p).Some?
  {
    if p != parts[0] {
      PartParses(parts[1..], p);
    }
  }

  lemma {:induction false} CharacterOfJoin(parts: seq<string>, sep: char, c: char)
    requires c in Join(parts, sep)
    ensures c == sep || exists p :: p in parts && c in p
  {
    if parts != [] {
      assert parts[0] in parts;
      if |parts| > 1 && c !in parts[0] && c != sep {
        CharacterOfJoin(parts[1..], sep, c);
      }
    }
  }

  /** A text a parser accepts is made of digits, dots and the hexadecimal mark. */
  lemma AcceptedCharacters(host: string, c: char)
    requires ParseAton(host).Some? && c in host
    ensures c == '.' || DigitOf(c).Some? || c == 'x' || c == 'X'
  {
    JoinSplit(host, '.');
    CharacterOfJoin(Split(host, '.'), '.', c);
    if c != '.' {
      var p :| p in Split(host, '.') && c in p;
      PartParses(Split(host, '.'), p);
      NumberHolds(p, c);
    }
  }

  lemma NumericIsNotLocal(host: string)
    requires ParseAton(host).Some?
    ensures host != "" && host != "localhost" && !EndsWith(host, ".localhost")
    ensures forall front :: host != front + ".localhost"
  {
    EndsWithConcat(host, ".localhost");
    if host == "localhost" || EndsWith(host, ".localhost") {
      assert host[|host| - 1] == 't' by {
        if host != "localhost" {
          assert host[|host| - 1] == host[|host| - 10..][9];
        }
      }
      AcceptedCharacters(host, 't');
    }
  }

  /** A numeric host is never blocked for its name, only for its address. */
  lemma NumericHostIsBlockedByAddress(host: string, v6: string -> Option<nat>, nonPublic: Address -> bool)
    requires ParseAton(host).Some? && NeedsColon(v6)
    ensures ParseIp(host, v6) == Some(V4(ParseAton(host).value))
    ensures IsBlockedHost(host, v6, nonPublic) <==> nonPublic(V4(ParseAton(host).value))
  {
    if ParseStrict(host).Some? {
      ParsersAgree(host);
    }
    if ':' in host {
      AcceptedCharacters(host, ':');
    }
    NumericIsNotLocal(host);
  }

  /** A host that is not local by name and spells no address of a refused category. */
  ghost predicate IsPublic(host: string, v6: string -> Option<nat>, nonPublic: Address -> bool)
  {
    && host != "" && host != "localhost" && (forall front :: host != front + ".localhost")
    && (forall parts :: IsSpelled(parts) && Host(parts) == host ==> !nonPublic(V4(SpelledAddress(parts))))
    && (forall v :: v6(host) == Some(v) ==> !nonPublic(V6(v)))
  }

  lemma SpelledIsPublic(host: string, v6: string -> Option<nat>, nonPublic: Address -> bool)
    requires NeedsColon(v6) && ParseAton(host).Some?
    ensures IsBlockedHost(host, v6, nonPublic) <==> !IsPublic(host, v6, nonPublic)
  {
    var v := ParseAton(host).value;
    NumericHostIsBlockedByAddress(host, v6, nonPublic);
    AtonIsExact(host, v);
    forall parts | IsSpelled(parts) && Host(parts) == host ensures SpelledAddress(parts) == v {
      EverySpellingParses(parts);
    }
    if v6(host).Some? {
      AcceptedCharacters(host, ':');
    }
    NumericIsNotLocal(host);
  }

  /** Which hosts are refused, by name or by any spelling of an address. */
  lemma BlockedExactly(host: string, v6: string -> Option<nat>, nonPublic: Address -> bool)
    requires NeedsColon(v6)
    ensures IsBlockedHost(host, v6, nonPublic) <==> !IsPublic(host, v6, nonPublic)
  {
    EndsWithConcat(host, ".localhost");
    if ParseAton(host).Some? {
      SpelledIsPublic(host, v6, nonPublic);
    } else {
      if ParseStrict(host).Some? {
        ParsersAgree(host);
      }
      forall parts | IsSpelled(parts) ensures Host(parts) != host {
        EverySpellingParses(parts);
      }
    }
  }

  /** However an address is spelled, the verdict on it is the verdict on its dotted quad. */
  lemma VerdictDependsOnAddress(host: string, v6: string -> Option<nat>, nonPublic: Address -> bool)
    requires ParseAton(host).Some? && NeedsColon(v6)
    ensures var quad := Quad(ParseAton(host).value);
            && IsSpelled(quad) && ParseStrict(Host(quad)) == ParseAton(host)
            && (IsBlockedHost(host, v6, nonPublic) <==> IsBlockedHost(Host(quad), v6, nonPublic))
  {
    var v := ParseAton(host).value;
    QuadParses(v);
    NumericHostIsBlockedByAddress(host, v6, nonPublic);
    NumericHostIsBlockedByAddress(Host(Quad(v)), v6, nonPublic);
  }

  /** So no spelling of a refused address gets through, and none of an accepted one is stopped. */
  lemma SpellingsShareVerdict(a: seq<Spelling>, b: seq<Spelling>, v6: string -> Option<nat>, nonPublic: Address -> bool)
    requires IsSpelled(a) && IsSpelled(b) && NeedsColon(v6) && SpelledAddress(a) == SpelledAddress(b)
    ensures IsBlockedHost(Host(a), v6, nonPublic) <==> IsBlockedHost(Host(b), v6, nonPublic)
  {
    EverySpellingParses(a);
    EverySpellingParses(b);
    NumericHostIsBlockedByAddress(Host(a), v6, nonPublic);
    NumericHostIsBlockedByAddress(Host(b), v6, nonPublic);
  }
}
