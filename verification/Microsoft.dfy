/** Microsoft identities and the domains they own (providers/microsoft.py). */
module Microsoft {
  import opened Wrappers
  import opened Texts
  import opened Json
  import opened Tenancies
  import Base64Url

  const CONSUMERS_TENANT := "9188040d-6c67-4c5b-b112-36a304b66dad"

  /** `json.loads`, which fails on bytes that are not JSON. */
  type Loads = seq<Base64Url.byte> -> Option<Value>

  /** `_decode_jwt_claims`: the payload of a token whose signature is not looked at. */
  function DecodeJwtClaims(token: string, loads: Loads): Option<Fields>
  {
    var parts := Split(token, '.');
    if |parts| < 2 then None
    else
      match Base64Url.Decode(Base64Url.Repad(parts[1]))
      case None => None
      case Some(payload) =>
        match loads(payload)
        case Some(Object(claims)) => Some(claims)
        case _ => None
  }

  predicate IsHex(c: char)
  {
    '0' <= c <= '9' || 'a' <= c <= 'f' || 'A' <= c <= 'F'
  }

  /** The 8-4-4-4-12 shape of a GUID. */
  predicate IsGuid(s: string)
  {
    |s| == 36 && forall i :: 0 <= i < 36 ==> if i in {8, 13, 18, 23} then s[i] == '-' else IsHex(s[i])
  }

  function IssuerOf(tid: string): string
  {
    "https://login.microsoftonline.com/" + tid + "/v2.0"
  }

  /** `_verified_workforce_tenant_id`: the checks in turn, each ending in no tenant. */
  function VerifiedWorkforceTenantId(claims: Fields): Option<string>
  {
    var tid := TextField(claims, "tid");
    if tid.None? || !IsGuid(tid.value) then None
    else if tid.value == CONSUMERS_TENANT then None
    else if Field(claims, "iss") != Some(Text(IssuerOf(tid.value))) then None
    else
      var idp := Field(claims, "idp");
      if idp.Some? && idp.value.Text? && idp != Field(claims, "iss") then None else tid
  }

  /** A status `raise_for_status` lets through. */
  predicate IsSuccess(status: nat)
  {
    200 <= status < 300
  }

  /** `_fetch_organization`: the first organization the directory names, if it names one. */
  function FetchOrganization(directory: Outcome): Option<Fields>
  {
    match directory
    case TransportError => None
    case Reply(status, body) =>
      if !IsSuccess(status) || body.None? then None
      else
        var organizations := if body.value.Object? then Field(body.value.fields, "value") else None;
        match organizations
        case Some(Array(items)) =>
          if items == [] then None
          else (match items[0]
                case Object(organization) => Some(organization)
                case _ => None)
        case _ => None
  }

  /** The usable names among a directory's verified domains. */
  function DomainNames(entries: seq<Value>): seq<string>
  {
    if entries == [] then []
    else
      var rest := DomainNames(entries[1..]);
      match entries[0]
      case Object(entry) =>
        if TextField(entry, "name").Some? && TextField(entry, "name").value != "" then
          [TextField(entry, "name").value] + rest
        else rest
      case _ => rest
  }

  function TenanciesOf(names: seq<string>, tenantId: string, displayName: Option<string>): (tenancies: seq<Tenancy>)
    ensures |tenancies| == |names|
    ensures forall i :: 0 <= i < |names| ==> tenancies[i] == Tenancy(Some(tenantId), displayName, Some(names[i]), true)
  {
    seq(|names|, i requires 0 <= i < |names| => Tenancy(Some(tenantId), displayName, Some(names[i]), true))
  }

  /** `_fetch_verified_tenancies`: bound to the validated tenant, or nothing. */
  function FetchVerifiedTenancies(directory: Outcome, tenantId: string): seq<Tenancy>
  {
    match FetchOrganization(directory)
    case None => []
    case Some(organization) =>
      if Field(organization, "id") != Some(Text(tenantId)) then []
      else
        match Field(organization, "verifiedDomains")
        case Some(Array(entries)) =>
          TenanciesOf(DomainNames(entries), tenantId, TextField(organization, "displayName"))
        case _ => []
  }

  datatype IdentityError = FetchFailed | NotJson | NotAnObject | InvalidProfile

  datatype Profile = Profile(subject: Option<string>, emailVerified: Option<bool>, tenancies: seq<Tenancy>, raw: Fields)

  /** `_fetch_userinfo`. */
  function FetchUserinfo(userinfo: Outcome): Result<Fields, IdentityError>
  {
    match userinfo
    case TransportError => Err(FetchFailed)
    case Reply(status, body) =>
      if !IsSuccess(status) then Err(FetchFailed)
      else if body.None? then Err(NotJson)
      else if !body.value.Object? then Err(NotAnObject)
      else Ok(body.value.fields)
  }

  /** A field when it is a nonempty string. */
  function NonEmptyField(fields: Fields, name: string): Option<string>
  {
    var text := TextField(fields, name);
    if text.Some? && text.value != "" then text else None
  }

  /** `_subject`: the ID token's `sub` before the userinfo's. */
  function Subject(claims: Option<Fields>, userinfo: Fields): Option<string>
  {
    if claims.Some? && NonEmptyField(claims.value, "sub").Some? then NonEmptyField(claims.value, "sub")
    else NonEmptyField(userinfo, "sub")
  }

  function EmailVerified(claims: Option<Fields>): Option<bool>
  {
    match claims
    case Some(fields) =>
      (match Field(fields, "email_verified")
       case Some(Bool(verified)) => Some(verified)
       case _ => None)
    case None => None
  }

  /** The claims of the ID token, when there is a nonempty one. */
  function ClaimsOf(idToken: Option<string>, loads: Loads): Option<Fields>
  {
    if idToken.Some? && idToken.value != "" then DecodeJwtClaims(idToken.value, loads) else None
  }

  /** The profile takes a text or nothing: no other JSON value makes a name, an email address or an avatar. */
  predicate FitsProfile(userinfo: Fields)
  {
    forall name :: name in {"email", "name", "picture"} && name in userinfo ==>
                     userinfo[name].Text? || userinfo[name].Null?
  }

  /** `fetch_identity`; the directory's answer is used only when a tenant was validated. */
  function FetchIdentity(userinfo: Outcome, idToken: Option<string>, directory: Outcome, loads: Loads)
    : Result<Profile, IdentityError>
  {
    match FetchUserinfo(userinfo)
    case Err(error) => Err(error)
    case Ok(payload) =>
      var claims := ClaimsOf(idToken, loads);
      // The profile is built last, when the directory has answered; only then are its fields checked.
      var tenantId := if claims.Some? then VerifiedWorkforceTenantId(claims.value) else None;
      var tenancies := if tenantId.Some? then FetchVerifiedTenancies(directory, tenantId.value) else [];
      if !FitsProfile(payload) then Err(InvalidProfile)
      else Ok(Profile(Subject(claims, payload), EmailVerified(claims), tenancies, payload))
  }

  // -----  Reading the token  -----

  lemma PartsOfToken(header: string, body: string, signature: string)
    requires '.' !in header && '.' !in body
    ensures var parts := Split(header + "." + body + "." + signature, '.');
            |parts| >= 2 && parts[0] == header && parts[1] == body
  {
    var rest := body + ['.'] + signature;
    SplitWithout(header, '.');
    SplitWithout(body, '.');
    SplitConcat(body, '.', signature);
    SplitConcat(header, '.', rest);
    assert header + "." + body + "." + signature == header + ['.'] + rest;
  }

  /** The payload of a well-formed token is read back whole, whatever its header and signature. */
  lemma ClaimsOfIssuedToken(header: string, payload: seq<Base64Url.byte>, signature: string, loads: Loads)
    requires '.' !in header
    ensures DecodeJwtClaims(header + "." + Base64Url.StripPad(Base64Url.Encode(payload)) + "." + signature, loads)
            == match loads(payload)
               case Some(Object(claims)) => Some(claims)
               case _ => None
  {
    var body := Base64Url.StripPad(Base64Url.Encode(payload));
    Base64Url.UnpaddedRoundTrip(payload);
    Base64Url.UnpaddedShape(payload);
    assert '.' !in body by {
      assert !Base64Url.IsSymbol('.');
    }
    PartsOfToken(header, body, signature);
  }

  /** What follows the second part of a token: nothing, or a dot and anything at all. */
  ghost predicate IsTail(tail: string)
  {
    tail == "" || tail[0] == '.'
  }

  /** The token's second part, padding restored, decodes to a JSON object with these claims. */
  ghost predicate IsTokenOf(
    token: string, claims: Fields, loads: Loads, header: string, body: string, tail: string,
    payload: seq<Base64Url.byte>)
  {
    && '.' !in header && '.' !in body && IsTail(tail) && token == header + "." + body + tail
    && Base64Url.Decode(Base64Url.Repad(body)) == Some(payload) && loads(payload) == Some(Object(claims))
  }

  /** There is an ID token, and it bears these claims. */
  ghost predicate Bears(idToken: Option<string>, claims: Fields, loads: Loads)
  {
    && idToken.Some?
    && exists header, body, tail, payload :: IsTokenOf(idToken.value, claims, loads, header, body, tail, payload)
  }

  lemma DotFirst(front: string, tail: string)
    requires tail != "" && tail[0] == '.'
    ensures front + tail == front + "." + tail[1..]
  {
    assert tail == "." + tail[1..];
  }

  lemma PartsOfTail(header: string, body: string, tail: string)
    requires '.' !in header && '.' !in body && IsTail(tail)
    ensures var parts := Split(header + "." + body + tail, '.');
            |parts| >= 2 && parts[0] == header && parts[1] == body
  {
    SplitWithout(header, '.');
    SplitWithout(body, '.');
    if tail == "" {
      SplitConcat(header, '.', body);
      assert header + "." + body + tail == header + ['.'] + body;
    } else {
      PartsOfToken(header, body, tail[1..]);
      DotFirst(header + "." + body, tail);
    }
  }

  /** A text with a dot is its first part, a dot, its second part, and a tail. */
  lemma TokenOfParts(token: string) returns (tail: string)
    requires |Split(token, '.')| >= 2
    ensures var parts := Split(token, '.');
            && '.' !in parts[0] && '.' !in parts[1] && IsTail(tail) && token == parts[0] + "." + parts[1] + tail
  {
    var parts := Split(token, '.');
    JoinSplit(token, '.');
    assert parts[0] in parts && parts[1] in parts;
    if |parts| == 2 {
      tail := "";
      assert parts == [parts[0], parts[1]] && parts[1..] == [parts[1]];
    } else {
      tail := "." + Join(parts[2..], '.');
      assert parts[1..][1..] == parts[2..];
    }
  }

  /** The claims read are exactly those the token bears. */
  lemma ClaimsExactly(idToken: Option<string>, loads: Loads, claims: Fields)
    ensures ClaimsOf(idToken, loads) == Some(claims) <==> Bears(idToken, claims, loads)
  {
    if idToken.Some? {
      var token := idToken.value;
      if header, body, tail, payload :| IsTokenOf(token, claims, loads, header, body, tail, payload) {
        PartsOfTail(header, body, tail);
        assert |token| > 0;
      }
      if ClaimsOf(idToken, loads) == Some(claims) {
        var parts := Split(token, '.');
        var tail := TokenOfParts(token);
        var payload := Base64Url.Decode(Base64Url.Repad(parts[1])).value;
        assert IsTokenOf(token, claims, loads, parts[0], parts[1], tail, payload);
      }
    }
  }

  // -----  Who owns a domain  -----

  ghost predicate IsHexText(text: string, length: nat)
  {
    |text| == length && forall c :: c in text ==> c in "0123456789abcdefABCDEF"
  }

  /** Five groups of hexadecimal digits with hyphens between them. */
  ghost predicate AreGroups(s: string, a: string, b: string, c: string, d: string, e: string)
  {
    && IsHexText(a, 8) && IsHexText(b, 4) && IsHexText(c, 4) && IsHexText(d, 4) && IsHexText(e, 12)
    && s == a + ("-" + (b + ("-" + (c + ("-" + (d + ("-" + e)))))))
  }

  lemma HexExactly(c: char)
    ensures IsHex(c) <==> c in "0123456789abcdefABCDEF"
  {
    var digits := "0123456789abcdefABCDEF";
    if '0' <= c <= '9' {
      assert digits[c as int - '0' as int] == c;
    } else if 'a' <= c <= 'f' {
      assert digits[c as int - 'a' as int + 10] == c;
    } else if 'A' <= c <= 'F' {
      assert digits[c as int - 'A' as int + 16] == c;
    }
  }

  lemma HexPart(s: string, from: nat, to: nat)
    requires from <= to <= |s|
    ensures IsHexText(s[from..to], to - from) <==> forall i :: from <= i < to ==> IsHex(s[i])
  {
    var part := s[from..to];
    forall i | from <= i < to ensures IsHex(s[i]) <==> part[i - from] in "0123456789abcdefABCDEF" {
      HexExactly(s[i]);
    }
    if IsHexText(part, to - from) {
      forall i | from <= i < to ensures IsHex(s[i]) {
        assert part[i - from] in part;
      }
    }
  }

  lemma CutAtHyphen(s: string, n: nat)
    requires n < |s| && s[n] == '-'
    ensures s == s[..n] + ("-" + s[n + 1..])
  {
  }

  lemma JoinedAtHyphen(head: string, tail: string)
    ensures var s := head + ("-" + tail);
            |s| == |head| + 1 + |tail| && s[..|head|] == head && s[|head|] == '-' && s[|head| + 1..] == tail
  {
  }

  /** Groups with hyphens between them are at these places. */
  lemma GroupsAt(s: string, a: string, b: string, c: string, d: string, e: string)
    requires AreGroups(s, a, b, c, d, e)
    ensures |s| == 36 && s[8] == '-' && s[13] == '-' && s[18] == '-' && s[23] == '-'
    ensures s[0..8] == a && s[9..13] == b && s[14..18] == c && s[19..23] == d && s[24..36] == e
  {
    var fourth := d + ("-" + e);
    var third := c + ("-" + fourth);
    var second := b + ("-" + third);
    JoinedAtHyphen(a, second);
    JoinedAtHyphen(b, third);
    JoinedAtHyphen(c, fourth);
    JoinedAtHyphen(d, e);
    assert s[9..] == second && s[14..] == second[5..] == third && s[19..] == third[5..] == fourth;
    assert s[24..] == fourth[5..] == e;
    assert s[9..13] == second[..4] && s[14..18] == third[..4] && s[19..23] == fourth[..4];
    assert s[13] == second[4] && s[18] == third[4] && s[23] == fourth[4];
  }

  /** A text with hyphens at these places is made of these groups. */
  lemma GroupsOf(s: string)
    requires |s| == 36 && s[8] == '-' && s[13] == '-' && s[18] == '-' && s[23] == '-'
    ensures s == s[0..8] + ("-" + (s[9..13] + ("-" + (s[14..18] + ("-" + (s[19..23] + ("-" + s[24..36])))))))
  {
    var second, third, fourth := s[9..], s[14..], s[19..];
    CutAtHyphen(s, 8);
    CutAtHyphen(second, 4);
    CutAtHyphen(third, 4);
    CutAtHyphen(fourth, 4);
    assert second[..4] == s[9..13] && second[5..] == third && third[..4] == s[14..18] && third[5..] == fourth;
    assert fourth[..4] == s[19..23] && fourth[5..] == s[24..36] && s[..8] == s[0..8];
  }

  lemma HexGroups(s: string)
    requires |s| == 36
    ensures IsHexText(s[0..8], 8) && IsHexText(s[9..13], 4) && IsHexText(s[14..18], 4) && IsHexText(s[19..23], 4)
            && IsHexText(s[24..36], 12)
            <==> forall i :: 0 <= i < 36 && i !in {8, 13, 18, 23} ==> IsHex(s[i])
  {
    HexPart(s, 0, 8);
    HexPart(s, 9, 13);
    HexPart(s, 14, 18);
    HexPart(s, 19, 23);
    HexPart(s, 24, 36);
  }

  /** The test on places is the test on groups. */
  lemma GuidExactly(s: string)
    ensures IsGuid(s) <==> exists a, b, c, d, e :: AreGroups(s, a, b, c, d, e)
  {
    if a, b, c, d, e :| AreGroups(s, a, b, c, d, e) {
      GroupsAt(s, a, b, c, d, e);
      HexGroups(s);
    }
    if IsGuid(s) {
      GroupsOf(s);
      HexGroups(s);
      assert AreGroups(s, s[0..8], s[9..13], s[14..18], s[19..23], s[24..36]);
    }
  }

  /** The token vouches for a member of an organization's tenant. */
  ghost predicate VouchesFor(claims: Fields, tid: string)
  {
    var issuer := "https://login.microsoftonline.com/" + tid + "/v2.0";
    && Field(claims, "tid") == Some(Text(tid))
    && (exists a, b, c, d, e :: AreGroups(tid, a, b, c, d, e)) && tid != "9188040d-6c67-4c5b-b112-36a304b66dad"
    && Field(claims, "iss") == Some(Text(issuer))
    && forall idp :: Field(claims, "idp") == Some(Text(idp)) ==> idp == issuer
  }

  /** The directory answered successfully, and the first organization it named is this one. */
  ghost predicate AnswersWith(directory: Outcome, organization: Fields)
  {
    exists status: nat, body: Fields, organizations ::
      && directory == Reply(status, Some(Object(body))) && 200 <= status < 300
      && Field(body, "value") == Some(Array(organizations))
      && organizations != [] && organizations[0] == Object(organization)
  }

  /** The organization has this id, and the name is among its verified domains. */
  ghost predicate HasDomain(organization: Fields, tid: string, name: string)
  {
    && Field(organization, "id") == Some(Text(tid)) && name != ""
    && exists entries, entry: Fields ::
         && Field(organization, "verifiedDomains") == Some(Array(entries))
         && Object(entry) in entries && Field(entry, "name") == Some(Text(name))
  }

  lemma OrganizationExactly(directory: Outcome, organization: Fields)
    ensures FetchOrganization(directory) == Some(organization) <==> AnswersWith(directory, organization)
  {
    if FetchOrganization(directory) == Some(organization) {
      var body := directory.body.value.fields;
      var organizations := body["value"].items;
      assert directory == Reply(directory.status, Some(Object(body)));
      assert Field(body, "value") == Some(Array(organizations));
    }
  }

  lemma {:induction false} InDomainNames(entries: seq<Value>, name: string)
    ensures name in DomainNames(entries)
            <==> name != ""
                 && exists entry: Fields :: Object(entry) in entries && Field(entry, "name") == Some(Text(name))
  {
    if entries != [] {
      InDomainNames(entries[1..], name);
      assert entries[0] in entries && forall v :: v in entries[1..] ==> v in entries;
      assert forall v :: v in entries ==> v == entries[0] || v in entries[1..];
    }
  }

  /** The tenancies of an organization are exactly its verified domains, all bound to the tenant. */
  lemma TenanciesExactly(directory: Outcome, tid: string, name: string)
    ensures forall tenancy :: tenancy in FetchVerifiedTenancies(directory, tid) ==>
              && tenancy.ownsEmailDomain && tenancy.id == Some(tid) && tenancy.domain.Some?
              && FetchOrganization(directory).Some?
              && tenancy.name == TextField(FetchOrganization(directory).value, "displayName")
    ensures (exists tenancy :: tenancy in FetchVerifiedTenancies(directory, tid) && tenancy.domain == Some(name))
            <==> exists organization :: AnswersWith(directory, organization) && HasDomain(organization, tid, name)
  {
    var tenancies := FetchVerifiedTenancies(directory, tid);
    forall organization
      ensures AnswersWith(directory, organization) <==> FetchOrganization(directory) == Some(organization)
    {
      OrganizationExactly(directory, organization);
    }
    if FetchOrganization(directory).Some? {
      var organization := FetchOrganization(directory).value;
      var domains := Field(organization, "verifiedDomains");
      if Field(organization, "id") == Some(Text(tid)) && domains.Some? && domains.value.Array? {
        var entries := domains.value.items;
        var names := DomainNames(entries);
        InDomainNames(entries, name);
        assert HasDomain(organization, tid, name) <==> name in names;
        if name in names {
          var i :| 0 <= i < |names| && names[i] == name;
          assert tenancies[i] in tenancies;
        }
      } else {
        assert tenancies == [] && !HasDomain(organization, tid, name);
      }
    }
  }

  lemma TenantIsVouchedFor(claims: Fields, tid: string)
    ensures VerifiedWorkforceTenantId(claims) == Some(tid) <==> VouchesFor(claims, tid)
  {
    GuidExactly(tid);
  }

  /** The token vouches for a tenant whose organization, as the directory answers, has the domain. */
  ghost predicate DomainIsVerified(
    idToken: Option<string>, directory: Outcome, loads: Loads, domain: string, fold: Fold)
  {
    exists claims, tid, organization, name ::
      && Bears(idToken, claims, loads) && VouchesFor(claims, tid)
      && AnswersWith(directory, organization) && HasDomain(organization, tid, name)
      && fold(name) == fold(domain)
  }

  lemma OwnedIsVerified(idToken: Option<string>, directory: Outcome, loads: Loads, domain: string, fold: Fold,
                        claims: Fields, tid: string)
    requires ClaimsOf(idToken, loads) == Some(claims) && VerifiedWorkforceTenantId(claims) == Some(tid)
    requires OwnsDomain(FetchVerifiedTenancies(directory, tid), domain, fold)
    ensures DomainIsVerified(idToken, directory, loads, domain, fold)
  {
    ClaimsExactly(idToken, loads, claims);
    TenantIsVouchedFor(claims, tid);
    OwnsExactly(FetchVerifiedTenancies(directory, tid), domain, fold);
    var tenancy :| tenancy in FetchVerifiedTenancies(directory, tid) && Asserts(tenancy, fold)
                   && fold(tenancy.domain.value) == fold(domain);
    TenanciesExactly(directory, tid, tenancy.domain.value);
    var organization :| AnswersWith(directory, organization) && HasDomain(organization, tid, tenancy.domain.value);
  }

  lemma VerifiedIsOwned(idToken: Option<string>, directory: Outcome, loads: Loads, domain: string, fold: Fold)
    requires fold(domain) != "" && DomainIsVerified(idToken, directory, loads, domain, fold)
    ensures ClaimsOf(idToken, loads).Some? && VerifiedWorkforceTenantId(ClaimsOf(idToken, loads).value).Some?
    ensures OwnsDomain(FetchVerifiedTenancies(
                         directory, VerifiedWorkforceTenantId(ClaimsOf(idToken, loads).value).value), domain, fold)
  {
    var claims, tid, organization, name :|
      && Bears(idToken, claims, loads) && VouchesFor(claims, tid)
      && AnswersWith(directory, organization) && HasDomain(organization, tid, name)
      && fold(name) == fold(domain);
    ClaimsExactly(idToken, loads, claims);
    TenantIsVouchedFor(claims, tid);
    TenanciesExactly(directory, tid, name);
    var tenancy :| tenancy in FetchVerifiedTenancies(directory, tid) && tenancy.domain == Some(name);
    assert Asserts(tenancy, fold) && fold(tenancy.domain.value) == fold(domain);
    OwnsExactly(FetchVerifiedTenancies(directory, tid), domain, fold);
  }

  ghost predicate IsTextOrAbsent(fields: Fields, name: string)
  {
    || Field(fields, name) == None || Field(fields, name) == Some(Null)
    || exists text :: Field(fields, name) == Some(Text(text))
  }

  /** A successful reply with a JSON object whose profile fields, where there are any, are texts or null. */
  ghost predicate IsUserinfo(userinfo: Outcome)
  {
    exists status: nat, payload: Fields ::
      && userinfo == Reply(status, Some(Object(payload))) && 200 <= status < 300
      && IsTextOrAbsent(payload, "email") && IsTextOrAbsent(payload, "name") && IsTextOrAbsent(payload, "picture")
  }

  lemma UserinfoExactly(userinfo: Outcome)
    ensures FetchUserinfo(userinfo).Ok? && FitsProfile(FetchUserinfo(userinfo).value) <==> IsUserinfo(userinfo)
  {
    if FetchUserinfo(userinfo).Ok? {
      var payload := FetchUserinfo(userinfo).value;
      forall name ensures IsTextOrAbsent(payload, name)
                          <==> name !in payload || payload[name].Text? || payload[name].Null?
      {
        assert name in payload && payload[name].Text? ==> Field(payload, name) == Some(Text(payload[name].s));
      }
      assert userinfo == Reply(userinfo.status, Some(Object(payload)));
    }
  }

  /** Which userinfo outcomes fail, and how; what the token and the directory say never makes a sign-in fail. */
  lemma FailsExactly(userinfo: Outcome, idToken: Option<string>, directory: Outcome, loads: Loads)
    ensures var r := FetchIdentity(userinfo, idToken, directory, loads);
            match userinfo
            case TransportError => r == Err(FetchFailed)
            case Reply(status, body) =>
              if !(200 <= status < 300) then r == Err(FetchFailed)
              else match body
                   case None => r == Err(NotJson)
                   case Some(Object(payload)) => if IsUserinfo(userinfo) then r.Ok? && r.value.raw == payload
                                                 else r == Err(InvalidProfile)
                   case Some(_) => r == Err(NotAnObject)
  {
    UserinfoExactly(userinfo);
  }

  /**
   * Exactly which domains a Microsoft identity owns: the domain is not blank, the ID token vouches
   * for an organization's tenant, and the directory, answering for that very tenant, lists the
   * domain. Whether there is a profile depends on the userinfo alone, never on the token or the
   * directory.
   */
  lemma OwnershipIsExact(
    userinfo: Outcome, idToken: Option<string>, directory: Outcome, loads: Loads, domain: string, fold: Fold)
    ensures var r := FetchIdentity(userinfo, idToken, directory, loads);
            && (r.Ok? <==> IsUserinfo(userinfo))
            && (r.Ok? ==>
                  (OwnsDomain(r.value.tenancies, domain, fold)
                   <==> fold(domain) != "" && DomainIsVerified(idToken, directory, loads, domain, fold)))
  {
    var r := FetchIdentity(userinfo, idToken, directory, loads);
    UserinfoExactly(userinfo);
    if r.Ok? {
      if fold(domain) != "" && DomainIsVerified(idToken, directory, loads, domain, fold) {
        VerifiedIsOwned(idToken, directory, loads, domain, fold);
      }
      if OwnsDomain(r.value.tenancies, domain, fold) {
        var claims := ClaimsOf(idToken, loads).value;
        OwnedIsVerified(idToken, directory, loads, domain, fold, claims, VerifiedWorkforceTenantId(claims).value);
      }
    }
  }

  /** The source names a subject: a nonempty text under `sub`. */
  predicate Names(fields: Fields, subject: string)
  {
    subject != "" && Field(fields, "sub") == Some(Text(subject))
  }

  /** The profile's subject is the one the ID token names, or, if it names none, the userinfo's. */
  lemma SubjectIsExact(userinfo: Outcome, idToken: Option<string>, directory: Outcome, loads: Loads, subject: string)
    ensures var r := FetchIdentity(userinfo, idToken, directory, loads);
            r.Ok? ==>
              && userinfo.Reply? && userinfo.body == Some(Object(r.value.raw))
              && (r.value.subject == Some(subject)
                  <==> if exists claims, other :: Bears(idToken, claims, loads) && Names(claims, other)
                       then exists claims :: Bears(idToken, claims, loads) && Names(claims, subject)
                       else Names(r.value.raw, subject))
              && forall verified :: r.value.emailVerified == Some(verified)
                   <==> exists claims :: Bears(idToken, claims, loads)
                                         && Field(claims, "email_verified") == Some(Bool(verified))
  {
    forall claims ensures ClaimsOf(idToken, loads) == Some(claims) <==> Bears(idToken, claims, loads) {
      ClaimsExactly(idToken, loads, claims);
    }
    var claims := ClaimsOf(idToken, loads);
    if claims.Some? && NonEmptyField(claims.value, "sub").Some? {
      assert Names(claims.value, NonEmptyField(claims.value, "sub").value);
    }
  }

  /** The token bears these claims and no others. */
  ghost predicate BearsOnly(idToken: Option<string>, claims: Fields, loads: Loads)
  {
    forall other :: Bears(idToken, other, loads) <==> other == claims
  }

  /** An issued token bears its payload's claims, and no others. */
  lemma IssuedTokenBears(header: string, payload: seq<Base64Url.byte>, signature: string, loads: Loads, claims: Fields)
    requires '.' !in header && loads(payload) == Some(Object(claims))
    ensures var token := header + "." + Base64Url.StripPad(Base64Url.Encode(payload)) + "." + signature;
            BearsOnly(Some(token), claims, loads)
  {
    var token := header + "." + Base64Url.StripPad(Base64Url.Encode(payload)) + "." + signature;
    ClaimsOfIssuedToken(header, payload, signature, loads);
    assert token != "";
    forall other ensures Bears(Some(token), other, loads) <==> other == claims {
      ClaimsExactly(Some(token), loads, other);
    }
  }

  /** The claims vouch for a tenant whose organization, as the directory answers, has the domain. */
  ghost predicate ClaimsVerify(claims: Fields, directory: Outcome, domain: string, fold: Fold)
  {
    exists tid, organization, name ::
      && VouchesFor(claims, tid) && AnswersWith(directory, organization) && HasDomain(organization, tid, name)
      && fold(name) == fold(domain)
  }

  lemma OneBearerVerifies(
    idToken: Option<string>, claims: Fields, directory: Outcome, loads: Loads, domain: string, fold: Fold)
    requires BearsOnly(idToken, claims, loads)
    ensures DomainIsVerified(idToken, directory, loads, domain, fold) <==> ClaimsVerify(claims, directory, domain, fold)
  {
    assert Bears(idToken, claims, loads);
    if DomainIsVerified(idToken, directory, loads, domain, fold) {
      var other, tid, organization, name :|
        && Bears(idToken, other, loads) && VouchesFor(other, tid)
        && AnswersWith(directory, organization) && HasDomain(organization, tid, name)
        && fold(name) == fold(domain);
      assert other == claims;
    }
  }

  lemma BearerNames(
    userinfo: Outcome, idToken: Option<string>, claims: Fields, directory: Outcome, loads: Loads, subject: string)
    requires BearsOnly(idToken, claims, loads) && Names(claims, subject)
    ensures var r := FetchIdentity(userinfo, idToken, directory, loads);
            r.Ok? ==> r.value.subject == Some(subject)
  {
    assert Bears(idToken, claims, loads);
    SubjectIsExact(userinfo, idToken, directory, loads, subject);
  }

  /**
   * Sign-in with an issued token, in terms of its payload alone: which domains the profile owns,
   * and whom it is about.
   */
  lemma IssuedTokenDecides(
    userinfo: Outcome, header: string, payload: seq<Base64Url.byte>, signature: string, claims: Fields,
    directory: Outcome, loads: Loads, domain: string, subject: string, fold: Fold)
    requires '.' !in header && loads(payload) == Some(Object(claims))
    ensures var token := header + "." + Base64Url.StripPad(Base64Url.Encode(payload)) + "." + signature;
            var r := FetchIdentity(userinfo, Some(token), directory, loads);
            r.Ok? ==>
              && (OwnsDomain(r.value.tenancies, domain, fold)
                  <==> fold(domain) != "" && ClaimsVerify(claims, directory, domain, fold))
              && (Names(claims, subject) ==> r.value.subject == Some(subject))
  {
    var token := header + "." + Base64Url.StripPad(Base64Url.Encode(payload)) + "." + signature;
    IssuedTokenBears(header, payload, signature, loads, claims);
    OneBearerVerifies(Some(token), claims, directory, loads, domain, fold);
    OwnershipIsExact(userinfo, Some(token), directory, loads, domain, fold);
    if Names(claims, subject) {
      BearerNames(userinfo, Some(token), claims, directory, loads, subject);
    }
  }

  /** Whenever the directory fails to answer for the tenant, no domain at all is owned. */
  lemma DirectoryFailureOwnsNothing(
    userinfo: Outcome, idToken: Option<string>, directory: Outcome, loads: Loads, domain: string, fold: Fold)
    requires forall claims, tid, organization ::
               Bears(idToken, claims, loads) && VouchesFor(claims, tid)
               && AnswersWith(directory, organization)
               ==> Field(organization, "id") != Some(Text(tid))
    ensures var r := FetchIdentity(userinfo, idToken, directory, loads);
            r.Ok? ==> !OwnsDomain(r.value.tenancies, domain, fold) && r.value.tenancies == []
  {
    var r := FetchIdentity(userinfo, idToken, directory, loads);
    if r.Ok? && ClaimsOf(idToken, loads).Some? {
      var claims := ClaimsOf(idToken, loads).value;
      var tid := VerifiedWorkforceTenantId(claims);
      if tid.Some? && FetchOrganization(directory).Some? {
        ClaimsExactly(idToken, loads, claims);
        TenantIsVouchedFor(claims, tid.value);
        OrganizationExactly(directory, FetchOrganization(directory).value);
      }
    }
  }
}
