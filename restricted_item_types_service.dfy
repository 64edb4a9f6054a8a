/**
 * The restricted-item-types policy evaluator of the vault service layer.
 *
 * Each organization may hold a "restricted item types" policy whose `data`
 * lists cipher types its members may not view. The evaluator decodes every
 * policy's data tolerantly, unions the decoded lists, and for each restricted
 * type lists the organizations that still allow viewing it; a cipher is then
 * restricted when its type is listed and its owner does not allow it.
 *
 * The observable pipeline of the source is a plain function of its inputs
 * here: the feature flag, the optional active user, the organizations and the
 * enabled policies. `JSON.parse` is the parameter `parse`.
 */
module RestrictedItemTypesService {
  import opened Text
  import opened Seqs

  /** Numeric values of the CipherType enumeration. */
  type CipherType = int
  const Login: CipherType := 1
  const SecureNote: CipherType := 2
  const Card: CipherType := 3
  const Identity: CipherType := 4
  const SshKey: CipherType := 5

  type OrganizationId = string

  /** A JSON-like value as a policy's `data` may hold it. Arrays are arrays of
      cipher types; objects map keys to values. */
  datatype Json =
    | JNull
    | JBool(b: bool)
    | JNumber(n: int)
    | JString(s: string)
    | JList(types: seq<CipherType>)
    | JObject(fields: map<string, Json>)

  /** JavaScript truthiness: null, false, 0 and "" are falsy. */
  predicate Truthy(j: Json) {
    match j
    case JNull => false
    case JBool(b) => b
    case JNumber(n) => n != 0
    case JString(s) => s != ""
    case _ => true
  }

  datatype Policy = Policy(organizationId: OrganizationId, data: Json)

  datatype RestrictedCipherType = RestrictedCipherType(cipherType: CipherType, allowViewOrgIds: seq<OrganizationId>)

  /** The part of a cipher the decision looks at; an absent or empty
      organization id means an individually owned item. */
  datatype Cipher = Cipher(cipherType: CipherType, organizationId: Option<OrganizationId>)

  const UpperKey: string := "RestrictedItemTypes"
  const LowerKey: string := "restrictedItemTypes"

  // ---------------------------------------------------------------------
  // Decoder

  /** The list stored under a key: an array is taken as it is, null (and,
      in this model, any other value) gives the empty list. */
  function KeyedList(v: Json): seq<CipherType> {
    if v.JList? then v.types else []
  }

  /** The list carried by an already parsed payload: an array directly, else
      the `RestrictedItemTypes` key, else the `restrictedItemTypes` key. */
  function ListOfShape(parsed: Json): seq<CipherType> {
    match parsed
    case JList(ts) => ts
    case JObject(f) =>
      if UpperKey in f then KeyedList(f[UpperKey])
      else if LowerKey in f then KeyedList(f[LowerKey])
      else []
    case _ => []
  }

  /** The tolerant decoder of a policy's `data`: falsy data gives nothing; a
      string is parsed first and an unparseable one gives nothing. */
  function RestrictedTypes(data: Json, parse: string -> Option<Json>): (r: seq<CipherType>)
    ensures !Truthy(data) ==> r == []
    ensures data.JString? && parse(data.s).None? ==> r == []
    ensures data.JList? ==> r == data.types
    ensures data.JObject? && UpperKey in data.fields ==> r == KeyedList(data.fields[UpperKey])
    ensures data.JObject? && UpperKey !in data.fields && LowerKey in data.fields
            ==> r == KeyedList(data.fields[LowerKey])
    ensures data.JObject? && UpperKey !in data.fields && LowerKey !in data.fields ==> r == []
    ensures data.JObject? && UpperKey in data.fields && data.fields[UpperKey] == JNull ==> r == []
    ensures (data.JNumber? || data.JBool?) ==> r == []
  {
    if !Truthy(data) then []
    else if data.JString? then
      match parse(data.s)
      case None => []
      case Some(parsed) => ListOfShape(parsed)
    else ListOfShape(data)
  }

  /** Every accepted shape of the payload `[Card]` decodes to `[Card]`:
      the array, either key, and the JSON text of any of them. */
  lemma AllShapesDecodeAlike(ts: seq<CipherType>, text: string, parse: string -> Option<Json>)
    requires text != ""
    requires parse(text).Some?
    requires parse(text).value in {JList(ts), JObject(map[UpperKey := JList(ts)]), JObject(map[LowerKey := JList(ts)])}
    ensures RestrictedTypes(JList(ts), parse) == ts
    ensures RestrictedTypes(JObject(map[UpperKey := JList(ts)]), parse) == ts
    ensures RestrictedTypes(JObject(map[LowerKey := JList(ts)]), parse) == ts
    ensures RestrictedTypes(JString(text), parse) == ts
  {
    assert UpperKey != LowerKey;
  }

  /** When both keys are present the capitalised one wins. */
  lemma UpperKeyTakesPrecedence(upper: seq<CipherType>, lower: seq<CipherType>, parse: string -> Option<Json>)
    ensures RestrictedTypes(JObject(map[UpperKey := JList(upper), LowerKey := JList(lower)]), parse) == upper
  {
    assert UpperKey != LowerKey;
  }

  // ---------------------------------------------------------------------
  // Union of the decoded lists

  predicate NoDuplicates<T(==)>(xs: seq<T>) {
    forall i, j :: 0 <= i < j < |xs| ==> xs[i] != xs[j]
  }

  /** `policies.flatMap(restrictedTypes)` */
  function AllDecoded(policies: seq<Policy>, parse: string -> Option<Json>): (r: seq<CipherType>)
    ensures forall t :: t in r <==> exists p :: p in policies && t in RestrictedTypes(p.data, parse)
  {
    if |policies| == 0 then []
    else
      var last := policies[|policies| - 1];
      var front := policies[..|policies| - 1];
      var r := AllDecoded(front, parse) + RestrictedTypes(last.data, parse);
      assert forall p :: p in policies <==> p in front || p == last;
      r
  }

  /** `flatMap` works policy by policy: the list of a concatenation is the
      concatenation of the lists, and one policy contributes its own decoded
      list, so the flattened list follows the policies' order. */
  lemma {:induction false} AllDecodedAppend(ps: seq<Policy>, qs: seq<Policy>, parse: string -> Option<Json>)
    ensures AllDecoded(ps + qs, parse) == AllDecoded(ps, parse) + AllDecoded(qs, parse)
    ensures |ps| == 1 ==> AllDecoded(ps, parse) == RestrictedTypes(ps[0].data, parse)
  {
    if |qs| == 0 {
      assert ps + qs == ps;
    } else {
      var all := ps + qs;
      assert all[..|all| - 1] == ps + qs[..|qs| - 1];
      assert all[|all| - 1] == qs[|qs| - 1];
      AllDecodedAppend(ps, qs[..|qs| - 1], parse);
    }
    if |ps| == 1 {
      assert ps[..0] == [];
    }
  }

  /** `Array.from(new Set(xs))`: the distinct elements of `xs` in the order
      of their first occurrence. */
  function Dedup<T(==,!new)>(xs: seq<T>): (r: seq<T>)
    ensures forall x :: x in r <==> x in xs
    ensures NoDuplicates(r)
  {
    if |xs| == 0 then []
    else
      var d := Dedup(xs[..|xs| - 1]);
      var x := xs[|xs| - 1];
      assert forall y :: y in xs <==> y in xs[..|xs| - 1] || y == x;
      if x in d then d else d + [x]
  }

  /** Every occurrence in `xs` of an element of `r` is preceded by an
      occurrence of each element listed before it in `r`. */
  ghost predicate InFirstOccurrenceOrder<T>(r: seq<T>, xs: seq<T>) {
    forall i, j, k :: 0 <= i < j < |r| && 0 <= k < |xs| && xs[k] == r[j] ==> r[i] in xs[..k]
  }

  /** First-occurrence order: every occurrence in `xs` of a later element of
      `Dedup(xs)` is preceded by an occurrence of each earlier element. */
  lemma {:induction false} DedupKeepsFirstOccurrenceOrder<T(!new)>(xs: seq<T>)
    ensures InFirstOccurrenceOrder(Dedup(xs), xs)
  {
    if |xs| > 0 {
      var front := xs[..|xs| - 1];
      var x := xs[|xs| - 1];
      var d := Dedup(front);
      var r := Dedup(xs);
      DedupKeepsFirstOccurrenceOrder(front);
      forall i, j, k | 0 <= i < j < |r| && 0 <= k < |xs| && xs[k] == r[j]
        ensures r[i] in xs[..k]
      {
        assert i < |d| && r[i] == d[i];
        assert d[i] in front;
        if k < |xs| - 1 {
          assert front[k] == xs[k];
          assert front[..k] == xs[..k];
          assert j < |d|;
          assert r[j] == d[j];
          assert d[i] in front[..k];
        } else {
          assert xs[..k] == front;
        }
      }
    }
  }

  /** The restricted-type domain: the union of all policies' lists. */
  function AllRestrictedTypes(policies: seq<Policy>, parse: string -> Option<Json>): (r: seq<CipherType>)
    ensures NoDuplicates(r)
    ensures forall t :: t in r <==> exists p :: p in policies && t in RestrictedTypes(p.data, parse)
    ensures InFirstOccurrenceOrder(r, AllDecoded(policies, parse))
  {
    DedupKeepsFirstOccurrenceOrder(AllDecoded(policies, parse));
    Dedup(AllDecoded(policies, parse))
  }

  // ---------------------------------------------------------------------
  // Organizations that still allow a type

  /** `enabledPolicies.find(p => p.organizationId === orgId)` */
  function FirstPolicyOf(policies: seq<Policy>, orgId: OrganizationId): (r: Option<Policy>)
    ensures r.None? <==> forall p :: p in policies ==> p.organizationId != orgId
    ensures r.Some? ==> r.value in policies && r.value.organizationId == orgId
  {
    if |policies| == 0 then None
    else if policies[0].organizationId == orgId then Some(policies[0])
    else
      var r := FirstPolicyOf(policies[1..], orgId);
      assert forall p :: p in policies <==> p == policies[0] || p in policies[1..];
      r
  }

  /** The policy found is the first one of the organization. */
  lemma {:induction false} FirstPolicyOfIsFirst(policies: seq<Policy>, orgId: OrganizationId, k: nat)
    requires k < |policies| && policies[k].organizationId == orgId
    requires forall j :: 0 <= j < k ==> policies[j].organizationId != orgId
    ensures FirstPolicyOf(policies, orgId) == Some(policies[k])
  {
    if k > 0 {
      FirstPolicyOfIsFirst(policies[1..], orgId, k - 1);
    }
  }

  /** An organization allows a type when it has no policy, or its first policy
      does not list the type. */
  predicate OrgAllows(policies: seq<Policy>, orgId: OrganizationId, t: CipherType, parse: string -> Option<Json>) {
    match FirstPolicyOf(policies, orgId)
    case None => true
    case Some(p) => t !in RestrictedTypes(p.data, parse)
  }

  /** The test `orgs.filter` applies for type `t`. */
  function AllowsType(policies: seq<Policy>, t: CipherType, parse: string -> Option<Json>): OrganizationId -> bool {
    o => OrgAllows(policies, o, t, parse)
  }

  /** `orgs.filter(org => allows).map(org => org.id)`: the organizations, in
      their order, with those that do not allow the type removed. */
  function AllowViewOrgIds(orgs: seq<OrganizationId>, policies: seq<Policy>, t: CipherType, parse: string -> Option<Json>): (r: seq<OrganizationId>)
    ensures |r| <= |orgs|
    ensures forall o :: o in r <==> o in orgs && OrgAllows(policies, o, t, parse)
  {
    Filtered(orgs, AllowsType(policies, t, parse))
  }

  /** The allow list keeps the organizations' order and repetitions: the
      list of a concatenation is the concatenation of the lists, one
      organization is listed exactly when it allows the type, and an
      allowing organization occurs as often as in `orgs`. */
  lemma AllowViewOrgIdsInOrder(front: seq<OrganizationId>, back: seq<OrganizationId>, policies: seq<Policy>, t: CipherType, parse: string -> Option<Json>)
    ensures AllowViewOrgIds(front + back, policies, t, parse) == AllowViewOrgIds(front, policies, t, parse) + AllowViewOrgIds(back, policies, t, parse)
    ensures |front| == 1 ==> AllowViewOrgIds(front, policies, t, parse) == if OrgAllows(policies, front[0], t, parse) then front else []
    ensures forall o :: multiset(AllowViewOrgIds(front, policies, t, parse))[o] == if OrgAllows(policies, o, t, parse) then multiset(front)[o] else 0
  {
    FilteredAppend(front, back, AllowsType(policies, t, parse));
    FilteredMultiplicity(front, AllowsType(policies, t, parse));
  }

  /** One entry per restricted type, in union order. */
  function Aggregate(orgs: seq<OrganizationId>, policies: seq<Policy>, parse: string -> Option<Json>): (r: seq<RestrictedCipherType>)
    ensures var types := AllRestrictedTypes(policies, parse);
            && |r| == |types|
            && (forall i :: 0 <= i < |r| ==> r[i].cipherType == types[i])
            && (forall i :: 0 <= i < |r| ==> r[i].allowViewOrgIds == AllowViewOrgIds(orgs, policies, types[i], parse))
  {
    var types := AllRestrictedTypes(policies, parse);
    seq(|types|, i requires 0 <= i < |types| =>
      RestrictedCipherType(types[i], AllowViewOrgIds(orgs, policies, types[i], parse)))
  }

  // ---------------------------------------------------------------------
  // The gate in front of the aggregation

  /** The emitted list: empty when the feature flag is off or no user is
      active, else the aggregation over that user's organizations and
      enabled policies. */
  function Restricted(flagOn: bool, userId: Option<string>, orgs: seq<OrganizationId>, policies: seq<Policy>, parse: string -> Option<Json>): (r: seq<RestrictedCipherType>)
    ensures !flagOn || userId.None? ==> r == []
    ensures flagOn && userId.Some? ==> r == Aggregate(orgs, policies, parse)
    ensures flagOn && userId.Some? ==> |r| == |AllRestrictedTypes(policies, parse)|
    ensures forall i, j :: 0 <= i < j < |r| ==> r[i].cipherType != r[j].cipherType
  {
    if !flagOn || userId.None? then [] else Aggregate(orgs, policies, parse)
  }

  datatype Emission = Emitted(value: seq<RestrictedCipherType>) | Errored(message: string)

  /** The pipeline as written: when no user is active, the empty array from
      the user step is destructured by the following aggregation as
      `[orgs, enabledPolicies]`, both undefined, and `enabledPolicies.flatMap`
      throws, so the stream errors instead of emitting `[]`. */
  function RestrictedAsWritten(flagOn: bool, userId: Option<string>, orgs: seq<OrganizationId>, policies: seq<Policy>, parse: string -> Option<Json>): (r: Emission)
    ensures !flagOn ==> r == Emitted([])
    ensures flagOn && userId.None? ==> r.Errored?
    ensures flagOn && userId.Some? ==> r == Emitted(Aggregate(orgs, policies, parse))
  {
    if !flagOn then Emitted([])
    else if userId.None? then Errored("TypeError: Cannot read properties of undefined (reading 'flatMap')")
    else Emitted(Aggregate(orgs, policies, parse))
  }

  /** Flag on and nobody signed in: the source errors where `Restricted`
      emits no restrictions; everywhere else the two agree. */
  lemma NoUserDiscrepancy(orgs: seq<OrganizationId>, policies: seq<Policy>, parse: string -> Option<Json>)
    ensures RestrictedAsWritten(true, None, orgs, policies, parse).Errored?
    ensures Restricted(true, None, orgs, policies, parse) == []
    ensures forall flag: bool, user: Option<string> ::
              RestrictedAsWritten(flag, user, orgs, policies, parse).Emitted? ==>
              RestrictedAsWritten(flag, user, orgs, policies, parse).value == Restricted(flag, user, orgs, policies, parse)
  {
  }

  // ---------------------------------------------------------------------
  // The decision for one cipher

  /** `restrictedTypes.find(r => r.cipherType === t)` */
  function FindRestriction(restrictedTypes: seq<RestrictedCipherType>, t: CipherType): (r: Option<RestrictedCipherType>)
    ensures r.None? <==> forall x :: x in restrictedTypes ==> x.cipherType != t
    ensures r.Some? ==> r.value in restrictedTypes && r.value.cipherType == t
  {
    if |restrictedTypes| == 0 then None
    else if restrictedTypes[0].cipherType == t then Some(restrictedTypes[0])
    else
      var r := FindRestriction(restrictedTypes[1..], t);
      assert forall x :: x in restrictedTypes <==> x == restrictedTypes[0] || x in restrictedTypes[1..];
      r
  }

  /** The entry found is the first one of the type. */
  lemma {:induction false} FindRestrictionIsFirst(restrictedTypes: seq<RestrictedCipherType>, t: CipherType, k: nat)
    requires k < |restrictedTypes| && restrictedTypes[k].cipherType == t
    requires forall j :: 0 <= j < k ==> restrictedTypes[j].cipherType != t
    ensures FindRestriction(restrictedTypes, t) == Some(restrictedTypes[k])
  {
    if k > 0 {
      FindRestrictionIsFirst(restrictedTypes[1..], t, k - 1);
    }
  }

  predicate OwnedByOrganization(c: Cipher) {
    c.organizationId.Some? && c.organizationId.value != ""
  }

  /** Whether the cipher may not be viewed. */
  function IsCipherRestricted(c: Cipher, restrictedTypes: seq<RestrictedCipherType>): (r: bool)
    ensures (forall x :: x in restrictedTypes ==> x.cipherType != c.cipherType) ==> !r
    ensures forall x :: x in restrictedTypes && x.cipherType == c.cipherType && !OwnedByOrganization(c) ==> r
    ensures OwnedByOrganization(c) && FindRestriction(restrictedTypes, c.cipherType).Some? ==>
              (r <==> c.organizationId.value !in FindRestriction(restrictedTypes, c.cipherType).value.allowViewOrgIds)
  {
    match FindRestriction(restrictedTypes, c.cipherType)
    case None => false
    case Some(restriction) =>
      if OwnedByOrganization(c) then c.organizationId.value !in restriction.allowViewOrgIds
      else true
  }

  /** The aggregation holds at most one entry per type, so the entry the
      decision finds for a restricted type is the one computed for it. */
  lemma {:induction false} FindInAggregate(orgs: seq<OrganizationId>, policies: seq<Policy>, parse: string -> Option<Json>, t: CipherType)
    requires t in AllRestrictedTypes(policies, parse)
    ensures FindRestriction(Aggregate(orgs, policies, parse), t) == Some(RestrictedCipherType(t, AllowViewOrgIds(orgs, policies, t, parse)))
  {
    var types := AllRestrictedTypes(policies, parse);
    var agg := Aggregate(orgs, policies, parse);
    var k :| 0 <= k < |types| && types[k] == t;
    var f := FindRestriction(agg, t);
    assert agg[k].cipherType == t;
    var i :| 0 <= i < |agg| && agg[i] == f.value;
    assert types[i] == t;
    assert i == k;
  }

  /** End to end: with the flag on and a user signed in, a cipher owned by a
      listed organization is restricted exactly when that organization's
      first policy lists the cipher's type. */
  lemma OrgCipherRestrictedIffOwnPolicyLists(orgs: seq<OrganizationId>, policies: seq<Policy>, parse: string -> Option<Json>, user: string, c: Cipher)
    requires OwnedByOrganization(c) && c.organizationId.value in orgs
    ensures IsCipherRestricted(c, Restricted(true, Some(user), orgs, policies, parse)) <==>
            !OrgAllows(policies, c.organizationId.value, c.cipherType, parse)
  {
    var t := c.cipherType;
    var o := c.organizationId.value;
    var rs := Restricted(true, Some(user), orgs, policies, parse);
    if t in AllRestrictedTypes(policies, parse) {
      FindInAggregate(orgs, policies, parse, t);
    } else {
      match FirstPolicyOf(policies, o)
      case None =>
      case Some(p) =>
        assert t !in RestrictedTypes(p.data, parse);
    }
  }

  /** An individually owned cipher is restricted exactly when some policy
      lists its type. */
  lemma IndividualCipherRestrictedIffAnyPolicyLists(orgs: seq<OrganizationId>, policies: seq<Policy>, parse: string -> Option<Json>, user: string, c: Cipher)
    requires !OwnedByOrganization(c)
    ensures IsCipherRestricted(c, Restricted(true, Some(user), orgs, policies, parse)) <==>
            exists p :: p in policies && c.cipherType in RestrictedTypes(p.data, parse)
  {
    var t := c.cipherType;
    var rs := Restricted(true, Some(user), orgs, policies, parse);
    if t in AllRestrictedTypes(policies, parse) {
      FindInAggregate(orgs, policies, parse, t);
    } else {
    }
  }

  /** The aggregation inputs of the scenario below: card is the one
      restricted type, and only organization B lets its members view cards. */
  lemma TwoOrganizationInputs(parse: string -> Option<Json>)
    ensures AllRestrictedTypes([Policy("A", JList([Card]))], parse) == [Card]
    ensures AllowViewOrgIds(["A", "B"], [Policy("A", JList([Card]))], Card, parse) == ["B"]
  {
    var ps := [Policy("A", JList([Card]))];
    assert AllDecoded(ps, parse) == [Card] by {
      assert ps[..0] == [];
    }
    assert Dedup([Card]) == [Card] by {
      assert [Card][..0] == [];
    }
    assert FirstPolicyOf(ps, "B") == None by {
      assert ps[1..] == [];
    }
    var orgs: seq<OrganizationId> := ["A", "B"];
    assert orgs[1..] == ["B"];
  }

  /** Organizations [A, B] with A's policy restricting cards: cards stay
      visible through B only; A's card is restricted, B's is not. */
  lemma TwoOrganizationScenario(parse: string -> Option<Json>)
    ensures Restricted(true, Some("u"), ["A", "B"], [Policy("A", JList([Card]))], parse)
            == [RestrictedCipherType(Card, ["B"])]
    ensures IsCipherRestricted(Cipher(Card, Some("A")), [RestrictedCipherType(Card, ["B"])])
    ensures !IsCipherRestricted(Cipher(Card, Some("B")), [RestrictedCipherType(Card, ["B"])])
  {
    TwoOrganizationInputs(parse);
    var r := Restricted(true, Some("u"), ["A", "B"], [Policy("A", JList([Card]))], parse);
    assert |r| == 1 && r[0] == RestrictedCipherType(Card, ["B"]);
    CardsViewableThroughB();
  }

  /** With cards viewable only through B, A's card is hidden and B's shown. */
  lemma CardsViewableThroughB()
    ensures IsCipherRestricted(Cipher(Card, Some("A")), [RestrictedCipherType(Card, ["B"])])
    ensures !IsCipherRestricted(Cipher(Card, Some("B")), [RestrictedCipherType(Card, ["B"])])
  {
    var rs := [RestrictedCipherType(Card, ["B"])];
    assert FindRestriction(rs, Card) == Some(rs[0]) by {
      assert rs[..0] == [];
    }
  }
}
