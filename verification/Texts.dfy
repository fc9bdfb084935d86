/**
 * The text operations the rest of the model is built from: `str.split` and
 * `str.join` with a one-character separator, `str.strip`, prefixes and suffixes.
 * Whitespace is a parameter, so the theorems hold for every whitespace table.
 */
module Texts {

  /** `s.split(sep)`: one part more than there are separators. */
  function Split(s: string, sep: char): (parts: seq<string>)
    ensures parts != []
    ensures forall p :: p in parts ==> sep !in p
  {
    if s == "" then [""]
    else
      var rest := Split(s[1..], sep);
      if s[0] == sep then [""] + rest else [[s[0]] + rest[0]] + rest[1..]
  }

  /** `sep.join(parts)`. */
  function Join(parts: seq<string>, sep: char): string
  {
    if parts == [] then ""
    else if |parts| == 1 then parts[0]
    else parts[0] + [sep] + Join(parts[1..], sep)
  }

  /** The parts of every text in turn. */
  function SplitAll(texts: seq<string>, sep: char): seq<string>
  {
    if texts == [] then [] else Split(texts[0], sep) + SplitAll(texts[1..], sep)
  }

  lemma {:induction false} JoinSplit(s: string, sep: char)
    ensures Join(Split(s, sep), sep) == s
  {
    if s != "" {
      JoinSplit(s[1..], sep);
      var rest := Split(s[1..], sep);
      if s[0] == sep {
        assert ([""] + rest)[1..] == rest;
      } else {
        assert ([[s[0]] + rest[0]] + rest[1..])[1..] == rest[1..];
      }
      assert s == [s[0]] + s[1..];
    }
  }

  lemma {:induction false} SplitWithout(s: string, sep: char)
    requires sep !in s
    ensures Split(s, sep) == [s]
  {
    if s != "" {
      SplitWithout(s[1..], sep);
      assert s[0] in s;
      assert s == [s[0]] + s[1..];
    }
  }

  /** Splitting around one separator splits the two sides. */
  lemma {:induction false} SplitConcat(a: string, sep: char, b: string)
    ensures Split(a + [sep] + b, sep) == Split(a, sep) + Split(b, sep)
  {
    var s := a + [sep] + b;
    if a == "" {
      assert s[1..] == b;
    } else {
      assert s[1..] == a[1..] + [sep] + b;
      SplitConcat(a[1..], sep, b);
    }
  }

  /** Splitting a joined list splits each of its texts. */
  lemma {:induction false} SplitJoin(parts: seq<string>, sep: char)
    requires parts != []
    ensures Split(Join(parts, sep), sep) == SplitAll(parts, sep)
  {
    if |parts| == 1 {
      assert SplitAll(parts[1..], sep) == [];
    } else {
      SplitJoin(parts[1..], sep);
      SplitConcat(parts[0], sep, Join(parts[1..], sep));
    }
  }

  /** Parts free of the separator come back unchanged. */
  lemma {:induction false} SplitAllWithout(parts: seq<string>, sep: char)
    requires forall p :: p in parts ==> sep !in p
    ensures SplitAll(parts, sep) == parts
  {
    if parts != [] {
      SplitWithout(parts[0], sep);
      SplitAllWithout(parts[1..], sep);
    }
  }

  lemma SplitJoinWithout(parts: seq<string>, sep: char)
    requires parts != [] && forall p :: p in parts ==> sep !in p
    ensures Split(Join(parts, sep), sep) == parts
  {
    SplitJoin(parts, sep);
    SplitAllWithout(parts, sep);
  }

  lemma {:induction false} JoinAppend(a: seq<string>, b: seq<string>, sep: char)
    requires a != [] && b != []
    ensures Join(a + b, sep) == Join(a, sep) + [sep] + Join(b, sep)
  {
    if |a| == 1 {
      assert (a + b)[1..] == b;
    } else {
      assert (a + b)[1..] == a[1..] + b;
      JoinAppend(a[1..], b, sep);
    }
  }

  lemma {:induction false} InSplitAll(texts: seq<string>, sep: char, part: string)
    ensures part in SplitAll(texts, sep) <==> exists t :: t in texts && part in Split(t, sep)
  {
    if texts != [] {
      InSplitAll(texts[1..], sep, part);
      assert part in SplitAll(texts, sep) <==> part in Split(texts[0], sep) || part in SplitAll(texts[1..], sep);
      assert texts[0] in texts && forall t :: t in texts[1..] ==> t in texts;
      assert forall t :: t in texts ==> t == texts[0] || t in texts[1..];
    }
  }

  /** Whether no surrounding whitespace is left to trim. */
  predicate Stripped(s: string, ws: char -> bool)
  {
    s != "" ==> !ws(s[0]) && !ws(s[|s| - 1])
  }

  /** `s.strip()`. */
  function Strip(s: string, ws: char -> bool): (t: string)
    ensures Stripped(t, ws)
    ensures Stripped(s, ws) ==> t == s
    ensures forall c :: c in t ==> c in s
    ensures t == "" <==> forall c :: c in s ==> ws(c)
  {
    if s == "" then ""
    else if ws(s[0]) then Strip(s[1..], ws)
    else if ws(s[|s| - 1]) then Strip(s[..|s| - 1], ws)
    else s
  }

  /** The middle of a text from one place to another, everything outside of which is whitespace. */
  ghost predicate IsMiddle(s: string, from: nat, to: nat, t: string, ws: char -> bool)
  {
    && from <= to <= |s| && t == s[from..to]
    && (forall i :: 0 <= i < from ==> ws(s[i])) && (forall i :: to <= i < |s| ==> ws(s[i]))
  }

  lemma MiddleAfter(s: string, from: nat, to: nat, t: string, ws: char -> bool)
    requires s != "" && ws(s[0]) && IsMiddle(s[1..], from, to, t, ws)
    ensures IsMiddle(s, from + 1, to + 1, t, ws)
  {
    assert forall i :: 1 <= i < |s| ==> s[i] == s[1..][i - 1];
  }

  lemma MiddleBefore(s: string, from: nat, to: nat, t: string, ws: char -> bool)
    requires s != "" && ws(s[|s| - 1]) && IsMiddle(s[..|s| - 1], from, to, t, ws)
    ensures IsMiddle(s, from, to, t, ws)
  {
    assert forall i :: 0 <= i < |s| - 1 ==> s[i] == s[..|s| - 1][i];
  }

  /** Trimming takes off whitespace at the two ends and nothing else. */
  lemma {:induction false} StripIsMiddle(s: string, ws: char -> bool) returns (from: nat, to: nat)
    ensures IsMiddle(s, from, to, Strip(s, ws), ws)
    decreases |s|
  {
    from, to := 0, |s|;
    if s != "" && ws(s[0]) {
      from, to := StripIsMiddle(s[1..], ws);
      MiddleAfter(s, from, to, Strip(s, ws), ws);
      from, to := from + 1, to + 1;
    } else if s != "" && ws(s[|s| - 1]) {
      from, to := StripIsMiddle(s[..|s| - 1], ws);
      MiddleBefore(s, from, to, Strip(s, ws), ws);
    }
  }

  predicate EndsWith(s: string, suffix: string)
  {
    |suffix| <= |s| && s[|s| - |suffix|..] == suffix
  }

  lemma EndsWithConcat(s: string, suffix: string)
    ensures EndsWith(s, suffix) <==> exists front :: s == front + suffix
  {
    if EndsWith(s, suffix) {
      assert s == s[..|s| - |suffix|] + suffix;
    }
  }

  /** Texts in code-point order, the order `sorted` puts names in. */
  predicate Before(a: string, b: string)
  {
    b != "" && (a == "" || a[0] < b[0] || (a[0] == b[0] && Before(a[1..], b[1..])))
  }
}
