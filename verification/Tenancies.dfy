/** Tenancies and the domains an identity owns (models.py). */
module Tenancies {
  import opened Wrappers

  datatype Tenancy = Tenancy(id: Option<string>, name: Option<string>, domain: Option<string>, ownsEmailDomain: bool)

  /** `domain.strip().lower()`: trimming and case folding. */
  type Fold = string -> string

  /** `_verified_domain`: the domain owned, folded; none when ownership is not asserted or names nothing. */
  function VerifiedDomain(tenancy: Tenancy, fold: Fold): Option<string>
  {
    if !tenancy.ownsEmailDomain || tenancy.domain.None? then None
    else
      var folded := fold(tenancy.domain.value);
      if folded == "" then None else Some(folded)
  }

  /** `owns_domain`. */
  predicate OwnsDomain(tenancies: seq<Tenancy>, domain: string, fold: Fold)
  {
    var target := fold(domain);
    target != "" && exists tenancy :: tenancy in tenancies && VerifiedDomain(tenancy, fold) == Some(target)
  }

  /** `domain_owning_tenancies`. */
  function DomainOwningTenancies(tenancies: seq<Tenancy>, fold: Fold): seq<Tenancy>
  {
    if tenancies == [] then []
    else
      var rest := DomainOwningTenancies(tenancies[1..], fold);
      if VerifiedDomain(tenancies[0], fold).Some? then [tenancies[0]] + rest else rest
  }

  /** Ownership is asserted, of a domain that is not blank. */
  ghost predicate Asserts(tenancy: Tenancy, fold: Fold)
  {
    tenancy.ownsEmailDomain && tenancy.domain.Some? && fold(tenancy.domain.value) != ""
  }

  /** A domain is owned exactly when it is not blank and some tenancy asserts one that folds to the same text. */
  lemma OwnsExactly(tenancies: seq<Tenancy>, domain: string, fold: Fold)
    ensures OwnsDomain(tenancies, domain, fold)
            <==> fold(domain) != ""
                 && exists tenancy :: tenancy in tenancies && Asserts(tenancy, fold)
                                      && fold(tenancy.domain.value) == fold(domain)
  {
    forall tenancy
      ensures fold(domain) != "" ==>
                (VerifiedDomain(tenancy, fold) == Some(fold(domain))
                 <==> Asserts(tenancy, fold) && fold(tenancy.domain.value) == fold(domain))
    {
    }
  }

  /** Which tenancies are listed. */
  lemma {:induction false} ListedExactly(tenancies: seq<Tenancy>, fold: Fold, tenancy: Tenancy)
    ensures tenancy in DomainOwningTenancies(tenancies, fold) <==> tenancy in tenancies && Asserts(tenancy, fold)
  {
    if tenancies != [] {
      ListedExactly(tenancies[1..], fold, tenancy);
    }
  }

  /** The places, in order, of the listed tenancies among all of them, the first of which is at `from`. */
  function Places(tenancies: seq<Tenancy>, fold: Fold, from: nat): seq<nat>
  {
    if tenancies == [] then []
    else
      var rest := Places(tenancies[1..], fold, from + 1);
      if VerifiedDomain(tenancies[0], fold).Some? then [from] + rest else rest
  }

  lemma {:induction false} PlacesPointAtListed(tenancies: seq<Tenancy>, fold: Fold, from: nat)
    ensures var places := Places(tenancies, fold, from);
            var listed := DomainOwningTenancies(tenancies, fold);
            && |places| == |listed|
            && (forall k :: 0 <= k < |places| ==>
                  from <= places[k] < from + |tenancies| && tenancies[places[k] - from] == listed[k])
    decreases |tenancies|
  {
    if tenancies != [] {
      PlacesPointAtListed(tenancies[1..], fold, from + 1);
    }
  }

  ghost predicate Increases(places: seq<nat>, from: nat)
  {
    && (forall k :: 0 <= k < |places| ==> places[k] >= from)
    && (forall k, l :: 0 <= k < l < |places| ==> places[k] < places[l])
  }

  lemma IncreasesFrom(places: seq<nat>, from: nat)
    requires Increases(places, from + 1)
    ensures Increases(places, from) && Increases([from] + places, from)
  {
    var longer := [from] + places;
    assert forall k :: 1 <= k < |longer| ==> longer[k] == places[k - 1];
  }

  lemma {:induction false} PlacesIncrease(tenancies: seq<Tenancy>, fold: Fold, from: nat)
    ensures Increases(Places(tenancies, fold, from), from)
    decreases |tenancies|
  {
    if tenancies != [] {
      PlacesIncrease(tenancies[1..], fold, from + 1);
      IncreasesFrom(Places(tenancies[1..], fold, from + 1), from);
    }
  }

  lemma {:induction false} PlacesAreAll(tenancies: seq<Tenancy>, fold: Fold, from: nat, i: nat)
    requires i < |tenancies| && VerifiedDomain(tenancies[i], fold).Some?
    ensures from + i in Places(tenancies, fold, from)
    decreases |tenancies|
  {
    if i > 0 {
      PlacesAreAll(tenancies[1..], fold, from + 1, i - 1);
    }
  }

  /** The list keeps provider order, and each qualifying tenancy is listed as often as it occurs. */
  lemma ListKeepsOrder(tenancies: seq<Tenancy>, fold: Fold) returns (places: seq<nat>)
    ensures |places| == |DomainOwningTenancies(tenancies, fold)|
    ensures forall k :: 0 <= k < |places| ==>
              places[k] < |tenancies| && tenancies[places[k]] == DomainOwningTenancies(tenancies, fold)[k]
    ensures forall k, l :: 0 <= k < l < |places| ==> places[k] < places[l]
    ensures forall i :: 0 <= i < |tenancies| && VerifiedDomain(tenancies[i], fold).Some? ==> i in places
  {
    places := Places(tenancies, fold, 0);
    PlacesPointAtListed(tenancies, fold, 0);
    PlacesIncrease(tenancies, fold, 0);
    forall i | 0 <= i < |tenancies| && VerifiedDomain(tenancies[i], fold).Some? ensures i in places {
      PlacesAreAll(tenancies, fold, 0, i);
    }
  }

  /** Listing and gating agree: what is listed is owned, and what is owned is listed. */
  lemma ListAndGateAgree(tenancies: seq<Tenancy>, fold: Fold)
    ensures forall tenancy :: tenancy in DomainOwningTenancies(tenancies, fold) ==>
              tenancy.domain.Some? && OwnsDomain(tenancies, tenancy.domain.value, fold)
    ensures forall domain :: OwnsDomain(tenancies, domain, fold) <==>
              exists tenancy :: tenancy in DomainOwningTenancies(tenancies, fold)
                                && VerifiedDomain(tenancy, fold) == Some(fold(domain))
    ensures DomainOwningTenancies(tenancies, fold) != [] <==> exists domain :: OwnsDomain(tenancies, domain, fold)
  {
    var listed := DomainOwningTenancies(tenancies, fold);
    forall tenancy | tenancy in listed
      ensures tenancy.domain.Some? && OwnsDomain(tenancies, tenancy.domain.value, fold)
    {
      ListedExactly(tenancies, fold, tenancy);
    }
    forall domain
      ensures OwnsDomain(tenancies, domain, fold)
              <==> exists tenancy :: tenancy in listed && VerifiedDomain(tenancy, fold) == Some(fold(domain))
    {
      if OwnsDomain(tenancies, domain, fold) {
        var tenancy :| tenancy in tenancies && VerifiedDomain(tenancy, fold) == Some(fold(domain));
        ListedExactly(tenancies, fold, tenancy);
      }
      if tenancy :| tenancy in listed && VerifiedDomain(tenancy, fold) == Some(fold(domain)) {
        ListedExactly(tenancies, fold, tenancy);
      }
    }
    if listed != [] {
      assert listed[0] in listed;
      assert OwnsDomain(tenancies, listed[0].domain.value, fold);
    }
  }

  /** The order of the tenancies does not matter to the gate. */
  lemma GateIgnoresOrder(a: seq<Tenancy>, b: seq<Tenancy>, domain: string, fold: Fold)
    requires multiset(a) == multiset(b)
    ensures OwnsDomain(a, domain, fold) == OwnsDomain(b, domain, fold)
  {
    assert forall tenancy :: tenancy in a <==> tenancy in multiset(a);
    assert forall tenancy :: tenancy in b <==> tenancy in multiset(b);
  }
}
