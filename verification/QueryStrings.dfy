/**
 * Form encoding as `urlencode` and `parse_qs` perform it
 * (appendix B of RFC 6749), and the merge of parameters into an existing query.
 */
module QueryStrings {
  import opened Wrappers
  import opened Texts
  import opened Base64Url
  import opened Pkce
  import Utf8

  type Pairs = seq<(string, string)>

  // -----  Percent encoding  -----

  /** The value of a byte read as a hexadecimal digit of either case. */
  function HexValue(b: int): Option<int>
  {
    if '0' as int <= b <= '9' as int then Some(b - '0' as int)
    else if 'A' as int <= b <= 'F' as int then Some(b - 'A' as int + 10)
    else if 'a' as int <= b <= 'f' as int then Some(b - 'a' as int + 10)
    else None
  }

  function HexDigit(n: int): (c: char)
    requires 0 <= n < 16
    ensures c < 128 as char && c != '&' && c != '=' && c != '+' && HexValue(c as int) == Some(n)
  {
    if n < 10 then ('0' as int + n) as char else ('A' as int + n - 10) as char
  }

  /** One byte as `quote_plus` writes it. */
  function QuoteByte(b: byte): string
  {
    if b < 128 && IsUnreserved(b as char) then [b as char]
    else if b == ' ' as int then "+"
    else ['%', HexDigit(b / 16), HexDigit(b % 16)]
  }

  function QuoteBytes(b: seq<byte>): string
  {
    if b == [] then "" else QuoteByte(b[0]) + QuoteBytes(b[1..])
  }

  function QuotePlus(s: string): string
  {
    QuoteBytes(Utf8.Encode(s))
  }

  /** `s.replace("+", " ")`. */
  function PlusToSpace(s: string): (t: string)
    ensures |t| == |s|
  {
    seq(|s|, i requires 0 <= i < |s| => if s[i] == '+' then ' ' else s[i])
  }

  /** `unquote_to_bytes`: a '%' not followed by two hexadecimal digits stands for itself. */
  function UnquoteBytes(b: seq<byte>): seq<byte>
  {
    if b == [] then []
    else if b[0] == '%' as int && |b| >= 3 && HexValue(b[1]).Some? && HexValue(b[2]).Some? then
      [HexValue(b[1]).value * 16 + HexValue(b[2]).value] + UnquoteBytes(b[3..])
    else [b[0]] + UnquoteBytes(b[1..])
  }

  function UnquotePlus(s: string): string
  {
    Utf8.Decode(UnquoteBytes(Utf8.Encode(PlusToSpace(s))))
  }

  /** Quoted text is ASCII and holds neither of the delimiters of a query. */
  ghost predicate IsQuoted(s: string)
  {
    forall c :: c in s ==> c < 128 as char && c != '&' && c != '='
  }

  lemma {:induction false} QuoteIsQuoted(b: seq<byte>)
    ensures IsQuoted(QuoteBytes(b))
  {
    if b != [] {
      QuoteIsQuoted(b[1..]);
      forall c | c in QuoteByte(b[0]) ensures c < 128 as char && c != '&' && c != '=' {
      }
    }
  }

  lemma QuoteBytesIsEmpty(b: seq<byte>)
    ensures QuoteBytes(b) == "" <==> b == []
  {
  }

  lemma EncodeAsciiPrefix(head: string, tail: string)
    requires forall c :: c in head ==> c < 128 as char
    ensures |Utf8.Encode(head)| == |head| && forall i :: 0 <= i < |head| ==> Utf8.Encode(head)[i] == head[i] as int
    ensures Utf8.Encode(head + tail) == Utf8.Encode(head) + Utf8.Encode(tail)
  {
    Utf8.EncodeAscii(head);
    Utf8.EncodeConcat(head, tail);
  }

  /** One quoted byte, with its '+' read as a space, as the bytes to be unquoted. */
  lemma QuotedByteEncodes(b: byte, tail: string)
    ensures Utf8.Encode(PlusToSpace(QuoteByte(b)) + tail)
            == (if |QuoteByte(b)| == 1 then [b] else ['%' as int, HexDigit(b / 16) as int, HexDigit(b % 16) as int])
               + Utf8.Encode(tail)
  {
    var head := PlusToSpace(QuoteByte(b));
    EncodeAsciiPrefix(head, tail);
    if |QuoteByte(b)| == 1 {
      assert Utf8.Encode(head) == [b];
    } else {
      assert head == QuoteByte(b);
      assert Utf8.Encode(head) == ['%' as int, HexDigit(b / 16) as int, HexDigit(b % 16) as int];
    }
  }

  lemma UnquotePlain(b: byte, tail: seq<byte>)
    requires b != '%' as int
    ensures UnquoteBytes([b] + tail) == [b] + UnquoteBytes(tail)
  {
    assert ([b] + tail)[1..] == tail;
  }

  lemma UnquoteEscaped(b: byte, tail: seq<byte>)
    ensures UnquoteBytes(['%' as int, HexDigit(b / 16) as int, HexDigit(b % 16) as int] + tail)
            == [b] + UnquoteBytes(tail)
  {
    var bytes: seq<byte> := ['%' as int, HexDigit(b / 16) as int, HexDigit(b % 16) as int] + tail;
    assert bytes[3..] == tail;
  }

  /** Undoing the quoting of one byte leaves the rest to be undone. */
  lemma UnquoteOne(b: byte, rest: string)
    ensures UnquoteBytes(Utf8.Encode(PlusToSpace(QuoteByte(b) + rest)))
            == [b] + UnquoteBytes(Utf8.Encode(PlusToSpace(rest)))
  {
    var tail := PlusToSpace(rest);
    assert PlusToSpace(QuoteByte(b) + rest) == PlusToSpace(QuoteByte(b)) + tail;
    QuotedByteEncodes(b, tail);
    if |QuoteByte(b)| == 1 {
      UnquotePlain(b, Utf8.Encode(tail));
    } else {
      UnquoteEscaped(b, Utf8.Encode(tail));
    }
  }

  lemma {:induction false} UnquoteQuoteBytes(b: seq<byte>)
    ensures UnquoteBytes(Utf8.Encode(PlusToSpace(QuoteBytes(b)))) == b
  {
    if b != [] {
      QuoteIsQuoted(b[1..]);
      UnquoteOne(b[0], QuoteBytes(b[1..]));
      UnquoteQuoteBytes(b[1..]);
    }
  }

  /** Any text, quoted and unquoted, is itself again. */
  lemma UnquoteQuote(s: string)
    ensures UnquotePlus(QuotePlus(s)) == s
    ensures IsQuoted(QuotePlus(s))
    ensures QuotePlus(s) == "" <==> s == ""
  {
    UnquoteQuoteBytes(Utf8.Encode(s));
    Utf8.DecodeEncode(s);
    QuoteIsQuoted(Utf8.Encode(s));
    QuoteBytesIsEmpty(Utf8.Encode(s));
  }

  // -----  Forms  -----

  function EncodePair(pair: (string, string)): string
  {
    QuotePlus(pair.0) + "=" + QuotePlus(pair.1)
  }

  function EncodePairs(pairs: Pairs): (parts: seq<string>)
    ensures |parts| == |pairs| && forall i :: 0 <= i < |pairs| ==> parts[i] == EncodePair(pairs[i])
  {
    seq(|pairs|, i requires 0 <= i < |pairs| => EncodePair(pairs[i]))
  }

  /** `urlencode` over the pairs of a dictionary. */
  function FormEncode(pairs: Pairs): string
  {
    Join(EncodePairs(pairs), '&')
  }

  /** The text before the first separator and, if there is one, the text after it. */
  function Partition(s: string, sep: char): (string, Option<string>)
  {
    if s == "" then ("", None)
    else if s[0] == sep then ("", Some(s[1..]))
    else
      var (before, after) := Partition(s[1..], sep);
      ([s[0]] + before, after)
  }

  /** What one `&`-separated item of a query contributes. */
  function DecodeItem(item: string, keepBlank: bool): Pairs
  {
    if item == "" then []
    else
      match Partition(item, '=')
      case (name, None) => if keepBlank then [(UnquotePlus(name), "")] else []
      case (name, Some(value)) =>
        if value == "" && !keepBlank then [] else [(UnquotePlus(name), UnquotePlus(value))]
  }

  function DecodeItems(items: seq<string>, keepBlank: bool): Pairs
  {
    if items == [] then [] else DecodeItem(items[0], keepBlank) + DecodeItems(items[1..], keepBlank)
  }

  /** `parse_qsl`. */
  function FormDecode(query: string, keepBlank: bool): Pairs
  {
    DecodeItems(Split(query, '&'), keepBlank)
  }

  lemma {:induction false} PartitionAt(before: string, sep: char, after: string)
    requires sep !in before
    ensures Partition(before + [sep] + after, sep) == (before, Some(after))
  {
    var s := before + [sep] + after;
    if before == "" {
      assert s[1..] == after;
    } else {
      assert before[0] in before && forall c :: c in before[1..] ==> c in before;
      assert s[1..] == before[1..] + [sep] + after;
      PartitionAt(before[1..], sep, after);
      assert s[0] == before[0] && before == [before[0]] + before[1..];
    }
  }

  lemma DecodeEncodePair(pair: (string, string), keepBlank: bool)
    ensures '&' !in EncodePair(pair)
    ensures DecodeItem(EncodePair(pair), keepBlank) == if pair.1 == "" && !keepBlank then [] else [pair]
  {
    UnquoteQuote(pair.0);
    UnquoteQuote(pair.1);
    PartitionAt(QuotePlus(pair.0), '=', QuotePlus(pair.1));
    assert pair == (pair.0, pair.1);
  }

  /** The pairs a decoder that drops blank values keeps. */
  function NonBlank(pairs: Pairs): Pairs
  {
    if pairs == [] then []
    else if pairs[0].1 == "" then NonBlank(pairs[1..])
    else [pairs[0]] + NonBlank(pairs[1..])
  }

  lemma {:induction false} DecodeEncodePairs(pairs: Pairs, keepBlank: bool)
    ensures DecodeItems(EncodePairs(pairs), keepBlank) == if keepBlank then pairs else NonBlank(pairs)
  {
    if pairs != [] {
      assert EncodePairs(pairs)[1..] == EncodePairs(pairs[1..]);
      DecodeEncodePair(pairs[0], keepBlank);
      DecodeEncodePairs(pairs[1..], keepBlank);
    }
  }

  /** A decoder reads back every pair of a form, save the blank ones if it drops those. */
  lemma FormRoundTrip(pairs: Pairs, keepBlank: bool)
    ensures FormDecode(FormEncode(pairs), keepBlank) == if keepBlank then pairs else NonBlank(pairs)
  {
    var parts := EncodePairs(pairs);
    if pairs == [] {
      assert Split("", '&') == [""];
      assert DecodeItems([""], keepBlank) == DecodeItem("", keepBlank) + DecodeItems([""][1..], keepBlank);
    } else {
      forall p | p in parts ensures '&' !in p {
        var i :| 0 <= i < |parts| && parts[i] == p;
        DecodeEncodePair(pairs[i], keepBlank);
      }
      SplitJoinWithout(parts, '&');
      DecodeEncodePairs(pairs, keepBlank);
    }
  }

  lemma UnquoteIsBlank(s: string)
    ensures UnquotePlus(s) == "" <==> s == ""
  {
    if s != "" {
      assert PlusToSpace(s) != "";
      assert Utf8.Encode(PlusToSpace(s)) != [];
      assert UnquoteBytes(Utf8.Encode(PlusToSpace(s))) != [];
    }
  }

  ghost predicate NoBlanks(pairs: Pairs)
  {
    forall i :: 0 <= i < |pairs| ==> pairs[i].1 != ""
  }

  lemma {:induction false} DecodedHasNoBlanks(items: seq<string>)
    ensures NoBlanks(DecodeItems(items, false))
  {
    if items != [] {
      DecodedHasNoBlanks(items[1..]);
      match Partition(items[0], '=')
      case (_, None) =>
      case (_, Some(value)) => UnquoteIsBlank(value);
    }
  }

  /** All the values a list of pairs gives a key, in order. */
  function Values(pairs: Pairs, key: string): seq<string>
  {
    if pairs == [] then []
    else
      var rest := Values(pairs[1..], key);
      if pairs[0].0 == key then [pairs[0].1] + rest else rest
  }

  lemma {:induction false} ValuesConcat(a: Pairs, b: Pairs, key: string)
    ensures Values(a + b, key) == Values(a, key) + Values(b, key)
  {
    if a == [] {
      assert a + b == b;
    } else {
      assert (a + b)[1..] == a[1..] + b;
      ValuesConcat(a[1..], b, key);
    }
  }

  lemma {:induction false} ValuesNonBlank(pairs: Pairs, key: string)
    requires forall v :: v in Values(pairs, key) ==> v != ""
    ensures Values(NonBlank(pairs), key) == Values(pairs, key)
  {
    if pairs != [] {
      var rest := Values(pairs[1..], key);
      assert forall v :: v in rest ==> v in Values(pairs, key);
      assert pairs[0].0 == key ==> pairs[0].1 in Values(pairs, key);
      ValuesNonBlank(pairs[1..], key);
    }
  }

  lemma {:induction false} ValuesHaveNoBlanks(pairs: Pairs, key: string)
    requires NoBlanks(pairs)
    ensures forall v :: v in Values(pairs, key) ==> v != ""
  {
    if pairs != [] {
      assert NoBlanks(pairs[1..]);
      ValuesHaveNoBlanks(pairs[1..], key);
    }
  }

  // -----  Dictionaries, which keep their keys in the order they were first set  -----

  type Dict = seq<(string, seq<string>)>

  function Get(dict: Dict, key: string): seq<string>
  {
    if dict == [] then [] else if dict[0].0 == key then dict[0].1 else Get(dict[1..], key)
  }

  /** `dict[key] = values`: a key already there keeps its place. */
  function Put(dict: Dict, key: string, values: seq<string>): Dict
  {
    if dict == [] then [(key, values)]
    else if dict[0].0 == key then [(key, values)] + dict[1..]
    else [dict[0]] + Put(dict[1..], key, values)
  }

  predicate HasKey(dict: Dict, key: string)
  {
    dict != [] && (dict[0].0 == key || HasKey(dict[1..], key))
  }

  lemma {:induction false} PutGives(dict: Dict, key: string, values: seq<string>, k: string)
    ensures Get(Put(dict, key, values), k) == if k == key then values else Get(dict, k)
    ensures HasKey(Put(dict, key, values), k) <==> k == key || HasKey(dict, k)
  {
    if dict != [] && dict[0].0 != key {
      PutGives(dict[1..], key, values, k);
    }
  }

  /** Each key once, and each with a value. */
  predicate IsDict(dict: Dict)
  {
    dict != [] ==> dict[0].1 != [] && !HasKey(dict[1..], dict[0].0) && IsDict(dict[1..])
  }

  lemma {:induction false} PutIsDict(dict: Dict, key: string, values: seq<string>)
    requires IsDict(dict) && values != []
    ensures IsDict(Put(dict, key, values))
  {
    if dict != [] && dict[0].0 != key {
      PutIsDict(dict[1..], key, values);
      PutGives(dict[1..], key, values, dict[0].0);
    }
  }

  /** `parse_qs` on decoded pairs: the values of a key collect in a list. */
  function Group(dict: Dict, pairs: Pairs): Dict
    decreases |pairs|
  {
    if pairs == [] then dict
    else Group(Put(dict, pairs[0].0, Get(dict, pairs[0].0) + [pairs[0].1]), pairs[1..])
  }

  /** `dict.update(other)`. */
  function Update(dict: Dict, other: Dict): Dict
    decreases |other|
  {
    if other == [] then dict else Update(Put(dict, other[0].0, other[0].1), other[1..])
  }

  function PairsOf(key: string, values: seq<string>): Pairs
  {
    if values == [] then [] else [(key, values[0])] + PairsOf(key, values[1..])
  }

  /** `urlencode(..., doseq=True)` writes a pair for each value of a key. */
  function Flatten(dict: Dict): Pairs
  {
    if dict == [] then [] else PairsOf(dict[0].0, dict[0].1) + Flatten(dict[1..])
  }

  /** The dictionary the built URL is written from: what its URL had, overridden by `params`. */
  function Merged(query: string, params: Dict): Dict
  {
    Update(Group([], FormDecode(query, false)), params)
  }

  /** The query of the built URL. */
  function MergeQuery(query: string, params: Dict): string
  {
    FormEncode(Flatten(Merged(query, params)))
  }

  lemma {:induction false} ValuesOfPairs(key: string, values: seq<string>, k: string)
    ensures Values(PairsOf(key, values), k) == if k == key then values else []
  {
    if values != [] {
      assert PairsOf(key, values)[1..] == PairsOf(key, values[1..]);
      ValuesOfPairs(key, values[1..], k);
    }
  }

  lemma {:induction false} GetWithoutKey(dict: Dict, key: string)
    requires !HasKey(dict, key)
    ensures Get(dict, key) == [] && Values(Flatten(dict), key) == []
  {
    if dict != [] {
      GetWithoutKey(dict[1..], key);
      ValuesOfPairs(dict[0].0, dict[0].1, key);
      ValuesConcat(PairsOf(dict[0].0, dict[0].1), Flatten(dict[1..]), key);
    }
  }

  /** Flattening loses nothing: the pairs give each key the values the dictionary does. */
  lemma {:induction false} ValuesFlatten(dict: Dict, key: string)
    requires IsDict(dict)
    ensures Values(Flatten(dict), key) == Get(dict, key)
  {
    if dict != [] {
      ValuesOfPairs(dict[0].0, dict[0].1, key);
      ValuesConcat(PairsOf(dict[0].0, dict[0].1), Flatten(dict[1..]), key);
      if dict[0].0 == key {
        GetWithoutKey(dict[1..], key);
      } else {
        ValuesFlatten(dict[1..], key);
      }
    }
  }

  lemma {:induction false} GroupCollects(dict: Dict, pairs: Pairs, key: string)
    requires IsDict(dict)
    ensures IsDict(Group(dict, pairs))
    ensures Get(Group(dict, pairs), key) == Get(dict, key) + Values(pairs, key)
    decreases |pairs|
  {
    if pairs != [] {
      var (k, values) := (pairs[0].0, Get(dict, pairs[0].0) + [pairs[0].1]);
      PutIsDict(dict, k, values);
      PutGives(dict, k, values, key);
      GroupCollects(Put(dict, k, values), pairs[1..], key);
    }
  }

  lemma {:induction false} UpdateOverrides(dict: Dict, other: Dict, key: string)
    requires IsDict(dict) && IsDict(other)
    ensures IsDict(Update(dict, other))
    ensures Get(Update(dict, other), key) == if HasKey(other, key) then Get(other, key) else Get(dict, key)
    decreases |other|
  {
    if other != [] {
      PutIsDict(dict, other[0].0, other[0].1);
      PutGives(dict, other[0].0, other[0].1, key);
      UpdateOverrides(Put(dict, other[0].0, other[0].1), other[1..], key);
    }
  }

  lemma {:induction false} UpdateKeys(dict: Dict, other: Dict, key: string)
    ensures HasKey(Update(dict, other), key) <==> HasKey(dict, key) || HasKey(other, key)
    decreases |other|
  {
    if other != [] {
      PutGives(dict, other[0].0, other[0].1, key);
      UpdateKeys(Put(dict, other[0].0, other[0].1), other[1..], key);
    }
  }

  lemma MergedGives(query: string, params: Dict, key: string)
    requires IsDict(params)
    ensures IsDict(Merged(query, params))
    ensures Get(Merged(query, params), key)
            == if HasKey(params, key) then Get(params, key) else Values(FormDecode(query, false), key)
    ensures HasKey(params, key) ==> HasKey(Merged(query, params), key)
  {
    GroupCollects([], FormDecode(query, false), key);
    UpdateOverrides(Group([], FormDecode(query, false)), params, key);
    UpdateKeys(Group([], FormDecode(query, false)), params, key);
  }

  /**
   * What a server reads out of the built URL, for every key: the parameter's values if it is
   * one of the parameters, and otherwise the non-blank values the URL already had, in order.
   */
  lemma MergedQueryReads(query: string, params: Dict, key: string)
    requires IsDict(params)
    ensures Values(FormDecode(MergeQuery(query, params), true), key)
            == if HasKey(params, key) then Get(params, key) else Values(FormDecode(query, false), key)
  {
    MergedGives(query, params, key);
    FormRoundTrip(Flatten(Merged(query, params)), true);
    ValuesFlatten(Merged(query, params), key);
  }
}
