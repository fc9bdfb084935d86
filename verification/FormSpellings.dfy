/**
 * The many ways a query can be written, and how `parse_qs` reads each of them (client.py): any byte
 * may be percent-encoded, with digits of either case, and a stray '%' stands for itself.
 */
module FormSpellings {
  import opened Wrappers
  import opened Texts
  import opened Base64Url
  import opened QueryStrings
  import Utf8

  /** A way to write one byte: as it is, as a plus, or as two hexadecimal digits, each in either case. */
  datatype Escape = AsIs | AsPlus | AsHex(upperHigh: bool, upperLow: bool)

  predicate CanWrite(b: byte, escape: Escape)
  {
    match escape
    case AsIs => b < 128 && b != '%' as int && b != '+' as int
    case AsPlus => b == ' ' as int
    case AsHex(_, _) => true
  }

  function HexLetter(n: nat, upper: bool): (c: char)
    requires n < 16
    ensures c < 128 as char && c != '+'
  {
    if n < 10 then ('0' as int + n) as char
    else if upper then ('A' as int + n - 10) as char
    else ('a' as int + n - 10) as char
  }

  function WriteByte(b: byte, escape: Escape): string
    requires CanWrite(b, escape)
  {
    match escape
    case AsIs => [b as char]
    case AsPlus => "+"
    case AsHex(upperHigh, upperLow) => ['%', HexLetter(b / 16, upperHigh), HexLetter(b % 16, upperLow)]
  }

  predicate CanWriteAll(b: seq<byte>, escapes: seq<Escape>)
  {
    |b| == |escapes| && forall i :: 0 <= i < |b| ==> CanWrite(b[i], escapes[i])
  }

  function WriteBytes(b: seq<byte>, escapes: seq<Escape>): string
    requires CanWriteAll(b, escapes)
  {
    if b == [] then "" else WriteByte(b[0], escapes[0]) + WriteBytes(b[1..], escapes[1..])
  }

  /** The bytes of one written byte, once its '+' is read as a space. */
  lemma WrittenByteEncodes(b: byte, escape: Escape, tail: string)
    requires CanWrite(b, escape)
    ensures Utf8.Encode(PlusToSpace(WriteByte(b, escape)) + tail)
            == (if escape.AsHex?
                then ['%' as int, HexLetter(b / 16, escape.upperHigh) as int, HexLetter(b % 16, escape.upperLow) as int]
                else [b])
               + Utf8.Encode(tail)
  {
    var head := PlusToSpace(WriteByte(b, escape));
    EncodeAsciiPrefix(head, tail);
    if escape.AsHex? {
      assert head == WriteByte(b, escape);
      assert Utf8.Encode(head)
          == ['%' as int, HexLetter(b / 16, escape.upperHigh) as int, HexLetter(b % 16, escape.upperLow) as int];
    } else {
      assert Utf8.Encode(head) == [b];
    }
  }

  lemma HexIsUnquoted(b: byte, upperHigh: bool, upperLow: bool, tail: seq<byte>)
    ensures UnquoteBytes(['%' as int, HexLetter(b / 16, upperHigh) as int, HexLetter(b % 16, upperLow) as int] + tail)
            == [b] + UnquoteBytes(tail)
  {
    var bytes: seq<byte> :=
      ['%' as int, HexLetter(b / 16, upperHigh) as int, HexLetter(b % 16, upperLow) as int] + tail;
    assert bytes[3..] == tail;
    assert HexValue(bytes[1]) == Some(b / 16) && HexValue(bytes[2]) == Some(b % 16);
  }

  lemma WrittenByteIsUnquoted(b: byte, escape: Escape, rest: string)
    requires CanWrite(b, escape)
    ensures UnquoteBytes(Utf8.Encode(PlusToSpace(WriteByte(b, escape) + rest)))
            == [b] + UnquoteBytes(Utf8.Encode(PlusToSpace(rest)))
  {
    var tail := PlusToSpace(rest);
    assert PlusToSpace(WriteByte(b, escape) + rest) == PlusToSpace(WriteByte(b, escape)) + tail;
    WrittenByteEncodes(b, escape, tail);
    match escape
    case AsHex(upperHigh, upperLow) => HexIsUnquoted(b, upperHigh, upperLow, Utf8.Encode(tail));
    case _ => UnquotePlain(b, Utf8.Encode(tail));
  }

  lemma {:induction false} WrittenBytesAreUnquoted(b: seq<byte>, escapes: seq<Escape>)
    requires CanWriteAll(b, escapes)
    ensures UnquoteBytes(Utf8.Encode(PlusToSpace(WriteBytes(b, escapes)))) == b
  {
    if b != [] {
      WrittenBytesAreUnquoted(b[1..], escapes[1..]);
      WrittenByteIsUnquoted(b[0], escapes[0], WriteBytes(b[1..], escapes[1..]));
    }
  }

  /** However a text is written, it is read back. */
  lemma EveryWritingIsRead(s: string, escapes: seq<Escape>)
    requires CanWriteAll(Utf8.Encode(s), escapes)
    ensures UnquotePlus(WriteBytes(Utf8.Encode(s), escapes)) == s
  {
    WrittenBytesAreUnquoted(Utf8.Encode(s), escapes);
    Utf8.DecodeEncode(s);
  }

  /** A character that is a hexadecimal digit in either case. */
  predicate IsHexByte(b: int)
  {
    || '0' as int <= b <= '9' as int
    || 'a' as int <= b <= 'f' as int
    || 'A' as int <= b <= 'F' as int
  }

  /** A '%' that two hexadecimal digits do not follow stands for itself. */
  lemma StrayPercentStays(tail: seq<byte>)
    requires !(|tail| >= 2 && IsHexByte(tail[0]) && IsHexByte(tail[1]))
    ensures UnquoteBytes(['%' as int] + tail) == ['%' as int] + UnquoteBytes(tail)
  {
    assert (['%' as int] + tail)[1..] == tail;
  }

  lemma QuoteFirst(s: string)
    requires s != "" && s[0] < 128 as char
    ensures QuotePlus(s) == QuoteByte(s[0] as int) + QuotePlus(s[1..])
  {
    var rest := Utf8.Encode(s[1..]);
    assert Utf8.Encode(s) == [s[0] as int] + rest;
    assert ([s[0] as int] + rest)[1..] == rest;
  }

  predicate IsPlainOrSpace(c: char)
  {
    'A' <= c <= 'Z' || 'a' <= c <= 'z' || '0' <= c <= '9' || c in "-._~ "
  }

  lemma PlainIsQuoted(c: char)
    requires IsPlainOrSpace(c)
    ensures c < 128 as char && QuoteByte(c as int) == (if c == ' ' then "+" else [c])
  {
    assert c in "-._~ " ==> c in "-._~" || c == ' ';
  }

  /** The writer escapes no unreserved character, and writes a space as a plus. */
  lemma {:induction false} UnreservedStays(s: string)
    requires forall c :: c in s ==> IsPlainOrSpace(c)
    ensures |QuotePlus(s)| == |s|
    ensures forall i :: 0 <= i < |s| ==> QuotePlus(s)[i] == if s[i] == ' ' then '+' else s[i]
  {
    if s != "" {
      assert s[0] in s && forall c :: c in s[1..] ==> c in s;
      PlainIsQuoted(s[0]);
      UnreservedStays(s[1..]);
      QuoteFirst(s);
    }
  }

  // -----  Items and queries  -----

  lemma {:induction false} PartitionWithout(s: string, sep: char)
    requires sep !in s
    ensures Partition(s, sep) == (s, None)
  {
    if s != "" {
      assert s[0] in s && forall c :: c in s[1..] ==> c in s;
      PartitionWithout(s[1..], sep);
      assert s == [s[0]] + s[1..];
    }
  }

  /** What one item contributes: a name with a value, a name with a blank one, or nothing. */
  lemma ItemIsRead(name: string, value: string, keepBlank: bool)
    requires '=' !in name
    ensures DecodeItem(name + "=" + value, keepBlank)
            == if value == "" && !keepBlank then [] else [(UnquotePlus(name), UnquotePlus(value))]
    ensures DecodeItem(name, keepBlank) == if name == "" || !keepBlank then [] else [(UnquotePlus(name), "")]
  {
    PartitionAt(name, '=', value);
    PartitionWithout(name, '=');
    if value == "" {
      assert UnquotePlus("") == "";
    }
  }

  lemma {:induction false} DecodeItemsConcat(a: seq<string>, b: seq<string>, keepBlank: bool)
    ensures DecodeItems(a + b, keepBlank) == DecodeItems(a, keepBlank) + DecodeItems(b, keepBlank)
  {
    if a == [] {
      assert a + b == b;
    } else {
      assert (a + b)[1..] == a[1..] + b;
      DecodeItemsConcat(a[1..], b, keepBlank);
    }
  }

  /** Whatever a query holds, it is read as what stands before each ampersand and what stands behind it. */
  lemma QueryIsRead(before: string, after: string, keepBlank: bool)
    ensures FormDecode(before + "&" + after, keepBlank)
            == FormDecode(before, keepBlank) + FormDecode(after, keepBlank)
    ensures '&' !in before ==> FormDecode(before, keepBlank) == DecodeItem(before, keepBlank)
  {
    SplitConcat(before, '&', after);
    assert before + "&" + after == before + ['&'] + after;
    DecodeItemsConcat(Split(before, '&'), Split(after, '&'), keepBlank);
    if '&' !in before {
      SplitWithout(before, '&');
      assert DecodeItems([before], keepBlank) == DecodeItem(before, keepBlank) + DecodeItems([before][1..], keepBlank);
    }
  }
}
