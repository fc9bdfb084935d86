/** Scope parsing, formatting and implicit-scope expansion (scopes.py). */
module Scopes {
  import opened Texts

  /** A scope to the scopes it implies; a scope without an entry implies none. */
  type ScopeMap = map<string, set<string>>

  function Implied(implicit: ScopeMap, scope: string): set<string>
  {
    if scope in implicit then implicit[scope] else {}
  }

  /** A chain of implications, each scope implying the next. */
  ghost predicate IsChain(implicit: ScopeMap, chain: seq<string>)
  {
    chain != [] && forall i :: 0 <= i < |chain| - 1 ==> chain[i + 1] in Implied(implicit, chain[i])
  }

  ghost predicate Leads(implicit: ScopeMap, chain: seq<string>, granted: set<string>, scope: string)
  {
    IsChain(implicit, chain) && chain[0] in granted && chain[|chain| - 1] == scope
  }

  /** The scope is granted, or implied by a granted one through some chain. */
  ghost predicate Holds(implicit: ScopeMap, granted: set<string>, scope: string)
  {
    exists chain :: Leads(implicit, chain, granted, scope)
  }

  /** Every scope the map can ever imply. */
  function AllImplied(implicit: ScopeMap): set<string>
  {
    set from, to | from in implicit && to in implicit[from] :: to
  }

  /** The scopes held: the specification of the worklist. */
  ghost function Closure(implicit: ScopeMap, granted: set<string>): set<string>
  {
    set s | s in granted + AllImplied(implicit) && Holds(implicit, granted, s)
  }

  ghost predicate IsClosed(implicit: ScopeMap, scopes: set<string>)
  {
    forall s :: s in scopes ==> Implied(implicit, s) <= scopes
  }

  lemma GrantedHolds(implicit: ScopeMap, granted: set<string>, scope: string)
    requires scope in granted
    ensures Holds(implicit, granted, scope)
  {
    assert Leads(implicit, [scope], granted, scope);
  }

  lemma ImpliedHolds(implicit: ScopeMap, granted: set<string>, scope: string, next: string)
    requires Holds(implicit, granted, scope) && next in Implied(implicit, scope)
    ensures Holds(implicit, granted, next)
  {
    var chain :| Leads(implicit, chain, granted, scope);
    assert Leads(implicit, chain + [next], granted, next);
  }

  /** A closed set that holds the start of a chain holds its end. */
  lemma {:induction false} ClosedHoldsChain(implicit: ScopeMap, chain: seq<string>, scopes: set<string>)
    requires IsClosed(implicit, scopes) && IsChain(implicit, chain) && chain[0] in scopes
    ensures chain[|chain| - 1] in scopes
  {
    if |chain| > 1 {
      assert chain[1] in Implied(implicit, chain[0]);
      ClosedHoldsChain(implicit, chain[1..], scopes);
    }
  }

  /** The domain the closure is cut from loses nothing. */
  lemma ClosureIsHeld(implicit: ScopeMap, granted: set<string>, scope: string)
    ensures scope in Closure(implicit, granted) <==> Holds(implicit, granted, scope)
  {
    if Holds(implicit, granted, scope) {
      var chain :| Leads(implicit, chain, granted, scope);
      if |chain| > 1 {
        assert chain[|chain| - 2 + 1] in Implied(implicit, chain[|chain| - 2]);
      }
    }
  }

  /** The closure is closed, and holds what was granted. */
  lemma ClosureIsClosed(implicit: ScopeMap, granted: set<string>)
    ensures granted <= Closure(implicit, granted)
    ensures IsClosed(implicit, Closure(implicit, granted))
  {
    var closure := Closure(implicit, granted);
    forall s | s in granted ensures s in closure {
      GrantedHolds(implicit, granted, s);
    }
    forall s, next | s in closure && next in Implied(implicit, s) ensures next in closure {
      ImpliedHolds(implicit, granted, s, next);
      ClosureIsHeld(implicit, granted, next);
    }
  }

  /** No smaller set will do: every closed superset of the granted scopes holds the closure. */
  lemma ClosureIsLeast(implicit: ScopeMap, granted: set<string>, scopes: set<string>)
    requires granted <= scopes && IsClosed(implicit, scopes)
    ensures Closure(implicit, granted) <= scopes
  {
    forall s | s in Closure(implicit, granted) ensures s in scopes {
      var chain :| Leads(implicit, chain, granted, s);
      ClosedHoldsChain(implicit, chain, scopes);
    }
  }

  lemma ClosureIsMonotone(implicit: ScopeMap, a: set<string>, b: set<string>)
    requires a <= b
    ensures Closure(implicit, a) <= Closure(implicit, b)
  {
    ClosureIsClosed(implicit, b);
    ClosureIsLeast(implicit, a, Closure(implicit, b));
  }

  lemma SameSet(a: set<string>, b: set<string>)
    requires a <= b && b <= a
    ensures a == b
  {
  }

  lemma ClosureIsIdempotent(implicit: ScopeMap, granted: set<string>)
    ensures Closure(implicit, Closure(implicit, granted)) == Closure(implicit, granted)
  {
    var closure := Closure(implicit, granted);
    ClosureIsClosed(implicit, granted);
    ClosureIsLeast(implicit, closure, closure);
    ClosureIsClosed(implicit, closure);
    SameSet(Closure(implicit, closure), closure);
  }

  lemma ClosureOfUnion(implicit: ScopeMap, a: set<string>, b: set<string>)
    ensures Closure(implicit, a + b) == Closure(implicit, a) + Closure(implicit, b)
  {
    ClosureIsMonotone(implicit, a, a + b);
    ClosureIsMonotone(implicit, b, a + b);
    ClosureIsClosed(implicit, a);
    ClosureIsClosed(implicit, b);
    ClosureIsLeast(implicit, a + b, Closure(implicit, a) + Closure(implicit, b));
    SameSet(Closure(implicit, a + b), Closure(implicit, a) + Closure(implicit, b));
  }

  predicate NoRepeats(list: seq<string>)
  {
    forall i, j :: 0 <= i < j < |list| ==> list[i] != list[j]
  }

  /** Each explicit scope is either popped already or pending exactly once. */
  ghost predicate Pending(explicit: set<string>, popped: set<string>, pending: seq<string>)
  {
    && (forall s :: s in explicit <==> s in popped || s in pending)
    && NoRepeats(pending)
    && (forall s :: s in pending ==> s !in popped)
  }

  lemma PushPending(explicit: set<string>, popped: set<string>, pending: seq<string>, next: string)
    requires Pending(explicit, popped, pending) && next !in explicit
    ensures Pending(explicit + {next}, popped, pending + [next])
  {
  }

  /** The inner loop: every implied scope not yet explicit becomes explicit and pending. */
  method PushImplied(implied: set<string>, known: set<string>, queue: seq<string>, ghost popped: set<string>)
    returns (explicit: set<string>, pending: seq<string>)
    requires Pending(known, popped, queue)
    ensures explicit == known + implied
    ensures Pending(explicit, popped, pending)
  {
    explicit, pending := known, queue;
    var rest := implied;
    while rest != {}
      invariant rest <= implied && explicit + rest == known + implied
      invariant Pending(explicit, popped, pending)
      decreases rest
    {
      var next :| next in rest;
      rest := rest - {next};
      if next !in explicit {
        PushPending(explicit, popped, pending, next);
        explicit := explicit + {next};
        pending := pending + [next];
      }
    }
  }

  /** What the popped scopes imply is explicit. */
  ghost predicate Expanded(implicit: ScopeMap, popped: set<string>, explicit: set<string>)
  {
    forall s :: s in popped ==> Implied(implicit, s) <= explicit
  }

  lemma ExpandOne(implicit: ScopeMap, popped: set<string>, scope: string, before: set<string>, after: set<string>)
    requires Expanded(implicit, popped, before) && after == before + Implied(implicit, scope)
    ensures Expanded(implicit, popped + {scope}, after)
  {
  }

  lemma PopPending(explicit: set<string>, popped: set<string>, pending: seq<string>)
    requires Pending(explicit, popped, pending) && pending != []
    ensures var last := |pending| - 1;
            pending[last] in explicit - popped && Pending(explicit, popped + {pending[last]}, pending[..last])
  {
    var last := |pending| - 1;
    assert pending == pending[..last] + [pending[last]];
  }

  /** `list(granted)`: the elements once each, in an order the caller cannot rely on. */
  method Listed(scopes: set<string>) returns (list: seq<string>)
    ensures forall s :: s in list <==> s in scopes
    ensures NoRepeats(list)
  {
    list := [];
    var rest := scopes;
    while rest != {}
      invariant rest <= scopes
      invariant forall s :: s in list <==> s in scopes && s !in rest
      invariant NoRepeats(list)
      decreases rest
    {
      var s :| s in rest;
      rest := rest - {s};
      list := list + [s];
    }
  }

  /** Where the worklist stands, between what was granted and a closed set. */
  ghost predicate Walks(
    implicit: ScopeMap, granted: set<string>, closed: set<string>, explicit: set<string>, popped: set<string>,
    pending: seq<string>)
  {
    && granted <= explicit <= closed && IsClosed(implicit, closed)
    && Pending(explicit, popped, pending) && Expanded(implicit, popped, explicit)
  }

  lemma TurnWalks(
    implicit: ScopeMap, granted: set<string>, closed: set<string>, explicit: set<string>, popped: set<string>,
    pending: seq<string>, next: set<string>, queue: seq<string>)
    requires Walks(implicit, granted, closed, explicit, popped, pending) && pending != []
    requires next == explicit + Implied(implicit, pending[|pending| - 1])
    requires Pending(next, popped + {pending[|pending| - 1]}, queue)
    ensures Walks(implicit, granted, closed, next, popped + {pending[|pending| - 1]}, queue)
    ensures pending[|pending| - 1] in closed - popped
  {
    var scope := pending[|pending| - 1];
    PopPending(explicit, popped, pending);
    ExpandOne(implicit, popped, scope, explicit, next);
    assert Implied(implicit, scope) <= closed;
  }

  lemma WalkStarts(implicit: ScopeMap, granted: set<string>, closed: set<string>, pending: seq<string>)
    requires granted <= closed && IsClosed(implicit, closed)
    requires NoRepeats(pending) && forall s :: s in pending <==> s in granted
    ensures Walks(implicit, granted, closed, granted, {}, pending)
  {
  }

  lemma WalkEnds(
    implicit: ScopeMap, granted: set<string>, closed: set<string>, explicit: set<string>, popped: set<string>)
    requires Walks(implicit, granted, closed, explicit, popped, [])
    ensures explicit == popped && granted <= explicit <= closed && IsClosed(implicit, explicit)
  {
  }

  /** One turn of the outer loop: pop a scope, and push what it implies. */
  method TakeTurn(
    implicit: ScopeMap, known: set<string>, queue: seq<string>,
    ghost granted: set<string>, ghost closed: set<string>, ghost popped: set<string>)
    returns (explicit: set<string>, pending: seq<string>)
    requires Walks(implicit, granted, closed, known, popped, queue) && queue != []
    ensures Walks(implicit, granted, closed, explicit, popped + {queue[|queue| - 1]}, pending)
    ensures queue[|queue| - 1] in closed - popped
    ensures explicit == known + Implied(implicit, queue[|queue| - 1])
  {
    var scope := queue[|queue| - 1];
    PopPending(known, popped, queue);
    explicit, pending := PushImplied(Implied(implicit, scope), known, queue[..|queue| - 1], popped + {scope});
    TurnWalks(implicit, granted, closed, known, popped, queue, explicit, pending);
  }

  /**
   * `resolve_implicit_scopes`: a worklist over a map that may be cyclic. The scopes
   * of a set are taken in no particular order, so the result holds for every
   * iteration order. `pops` counts the turns of the outer loop.
   */
  method ResolveImplicitScopes(granted: set<string>, implicit: ScopeMap) returns (explicit: set<string>, pops: nat)
    ensures explicit == Closure(implicit, granted)
    ensures pops == |explicit|
  {
    ghost var closure := Closure(implicit, granted);
    ClosureIsClosed(implicit, granted);
    explicit := granted;
    var pending := Listed(granted);
    WalkStarts(implicit, granted, closure, pending);
    pops := 0;
    ghost var popped: set<string> := {};
    while pending != []
      invariant Walks(implicit, granted, closure, explicit, popped, pending)
      invariant pops == |popped|
      decreases closure - popped
    {
      ghost var scope := pending[|pending| - 1];
      explicit, pending := TakeTurn(implicit, explicit, pending, granted, closure, popped);
      popped := popped + {scope};
      pops := pops + 1;
    }
    WalkEnds(implicit, granted, closure, explicit, popped);
    ClosureIsLeast(implicit, granted, explicit);
    SameSet(explicit, closure);
  }

  /** `parse_scope` takes a delimited text or an already split list. */
  datatype ScopeInput = Delimited(text: string) | Items(items: seq<string>)

  /** The comprehension `[s.strip() for s in parts if s.strip()]`. */
  function TrimmedParts(parts: seq<string>, ws: char -> bool): seq<string>
  {
    if parts == [] then []
    else
      var rest := TrimmedParts(parts[1..], ws);
      var s := Strip(parts[0], ws);
      if s == "" then rest else [s] + rest
  }

  function ParseScope(scope: ScopeInput, sep: char, ws: char -> bool): (scopes: seq<string>)
    ensures scope.Items? ==> scopes == scope.items
  {
    match scope
    case Items(items) => items
    case Delimited(text) =>
      if text == "" || Strip(text, ws) == "" then [] else TrimmedParts(Split(text, sep), ws)
  }

  function JoinScopes(scopes: seq<string>, sep: char): string
  {
    Join(scopes, sep)
  }

  /** A scope that survives being written into and read back from a delimited text. */
  predicate IsCleanScope(scope: string, sep: char, ws: char -> bool)
  {
    scope != "" && Stripped(scope, ws) && sep !in scope
  }

  lemma {:induction false} TrimmedPartsAreClean(parts: seq<string>, sep: char, ws: char -> bool)
    requires forall p :: p in parts ==> sep !in p
    ensures forall s :: s in TrimmedParts(parts, ws) ==> IsCleanScope(s, sep, ws)
  {
    if parts != [] {
      TrimmedPartsAreClean(parts[1..], sep, ws);
    }
  }

  lemma {:induction false} TrimmedPartsOfClean(parts: seq<string>, sep: char, ws: char -> bool)
    requires forall p :: p in parts ==> IsCleanScope(p, sep, ws)
    ensures TrimmedParts(parts, ws) == parts
  {
    if parts != [] {
      assert parts[0] in parts && IsCleanScope(parts[0], sep, ws);
      TrimmedPartsOfClean(parts[1..], sep, ws);
    }
  }

  /** A scope is parsed out of a text exactly when some part of the text trims to it. */
  lemma {:induction false} InTrimmedParts(parts: seq<string>, ws: char -> bool, scope: string)
    ensures scope in TrimmedParts(parts, ws) <==> scope != "" && exists p :: p in parts && Strip(p, ws) == scope
  {
    if parts != [] {
      InTrimmedParts(parts[1..], ws, scope);
      assert parts[0] in parts && forall p :: p in parts[1..] ==> p in parts;
      assert forall p :: p in parts ==> p == parts[0] || p in parts[1..];
    }
  }

  lemma {:induction false} TrimmedPartsOfBlank(parts: seq<string>, ws: char -> bool)
    requires forall p :: p in parts ==> Strip(p, ws) == ""
    ensures TrimmedParts(parts, ws) == []
  {
    if parts != [] {
      TrimmedPartsOfBlank(parts[1..], ws);
    }
  }

  lemma {:induction false} SplitCharacters(s: string, sep: char, part: string, c: char)
    requires part in Split(s, sep) && c in part
    ensures c in s
  {
    if s != "" {
      var rest := Split(s[1..], sep);
      if part in rest {
        SplitCharacters(s[1..], sep, part, c);
      } else if s[0] != sep {
        assert part == [s[0]] + rest[0];
        if c != s[0] {
          SplitCharacters(s[1..], sep, rest[0], c);
        }
      }
    }
  }

  /** The early return on blank text is the general rule, not an exception to it. */
  lemma ParseIsTrimmedParts(text: string, sep: char, ws: char -> bool)
    ensures ParseScope(Delimited(text), sep, ws) == TrimmedParts(Split(text, sep), ws)
  {
    if text == "" || Strip(text, ws) == "" {
      forall p | p in Split(text, sep) ensures Strip(p, ws) == "" {
        forall c | c in p ensures ws(c) {
          SplitCharacters(text, sep, p, c);
        }
      }
      TrimmedPartsOfBlank(Split(text, sep), ws);
    }
  }

  lemma ParsedScopesAreClean(text: string, sep: char, ws: char -> bool)
    ensures forall s :: s in ParseScope(Delimited(text), sep, ws) ==> IsCleanScope(s, sep, ws)
  {
    ParseIsTrimmedParts(text, sep, ws);
    TrimmedPartsAreClean(Split(text, sep), sep, ws);
  }

  /** Joining then parsing is the identity exactly on lists of clean scopes. */
  lemma ParseJoin(scopes: seq<string>, sep: char, ws: char -> bool)
    ensures ParseScope(Delimited(JoinScopes(scopes, sep)), sep, ws) == scopes
            <==> forall s :: s in scopes ==> IsCleanScope(s, sep, ws)
  {
    ParsedScopesAreClean(JoinScopes(scopes, sep), sep, ws);
    if scopes != [] && forall s :: s in scopes ==> IsCleanScope(s, sep, ws) {
      ParseIsTrimmedParts(JoinScopes(scopes, sep), sep, ws);
      SplitJoinWithout(scopes, sep);
      TrimmedPartsOfClean(scopes, sep, ws);
    }
  }

  /** A scope with the separator inside comes back as two. */
  lemma SpacedScopeIsSplit(a: string, b: string, sep: char, ws: char -> bool)
    requires IsCleanScope(a, sep, ws) && IsCleanScope(b, sep, ws)
    ensures ParseScope(Delimited(JoinScopes([a + [sep] + b], sep)), sep, ws) == [a, b]
  {
    SplitConcat(a, sep, b);
    SplitWithout(a, sep);
    SplitWithout(b, sep);
    ParseIsTrimmedParts(a + [sep] + b, sep, ws);
    TrimmedPartsOfClean([a, b], sep, ws);
    assert [a] + [b] == [a, b];
  }

  /** So joining and parsing `["read write"]` with a space gives two scopes, whatever counts as whitespace besides. */
  lemma ReadWriteIsSplit(ws: char -> bool)
    requires forall c :: c in "readwrite" ==> !ws(c)
    ensures ParseScope(Delimited(JoinScopes(["read write"], ' ')), ' ', ws) == ["read", "write"] != ["read write"]
  {
    assert "readwrite"[0] == 'r' && "readwrite"[3] == 'd' && "readwrite"[4] == 'w' && "readwrite"[8] == 'e';
    assert IsCleanScope("read", ' ', ws) && IsCleanScope("write", ' ', ws);
    SpacedScopeIsSplit("read", "write", ' ', ws);
    assert "read" + [' '] + "write" == "read write";
  }

  /** Parsing normalises: writing a parsed list out and parsing it again changes nothing. */
  lemma ParseIsStable(text: string, sep: char, ws: char -> bool)
    ensures var parsed := ParseScope(Delimited(text), sep, ws);
            ParseScope(Delimited(JoinScopes(parsed, sep)), sep, ws) == parsed
  {
    ParsedScopesAreClean(text, sep, ws);
    ParseJoin(ParseScope(Delimited(text), sep, ws), sep, ws);
  }

  /** Which scopes a text names. */
  lemma ParsesExactly(text: string, sep: char, ws: char -> bool, scope: string)
    ensures scope in ParseScope(Delimited(text), sep, ws)
            <==> scope != "" && exists p :: p in Split(text, sep) && Strip(p, ws) == scope
  {
    ParseIsTrimmedParts(text, sep, ws);
    InTrimmedParts(Split(text, sep), ws, scope);
  }
}
