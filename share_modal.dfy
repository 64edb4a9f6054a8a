/**
 * The vault's share dialog. The user picks members and groups of an
 * organization, each with a collection permission. Submitting either
 * offers an existing collection with exactly those grants (one the user may
 * reshare) or creates a new collection, named by the user or after the
 * people it is shared with, and assigns the item to it.
 */
module ShareModal {
  import opened Text
  import opened Seqs

  /** `CollectionPermission`, the access levels of the access selector. */
  datatype Permission = View | ViewExceptPass | Edit | EditExceptPass | Manage

  /** `AccessItemType`: what an access-selector entry stands for. */
  datatype AccessItemType = CollectionItem | GroupItem | MemberItem

  /** An entry of the form's `access` value; `permission` is absent when the
      selector left it unset. */
  datatype AccessItemValue = AccessItemValue(id: string, itemType: AccessItemType, permission: Option<Permission>)

  /** A stored grant of a collection to one member or group. */
  datatype CollectionAccess = CollectionAccess(id: string, readOnly: bool, hidePasswords: bool, manage: bool)

  /** An existing collection of the organization; either grant list may be
      absent. */
  datatype Collection = Collection(id: string, users: Option<seq<CollectionAccess>>, groups: Option<seq<CollectionAccess>>)

  /** The signed-in organization member. A missing name is the empty string:
      both are falsy and take the same branches. */
  datatype Member = Member(id: string, name: string, email: string)

  /** An entry the access selector offers: a group (`email` is unused) or a
      member, labelled by name or else by email. */
  datatype AccessItemView = AccessItemView(id: string, itemType: AccessItemType, labelName: string, email: string)

  /** `PermissionSet`: the grants to members and to groups, by id. */
  datatype PermissionSet = PermissionSet(users: map<string, Permission>, groups: map<string, Permission>)

  // ---------------------------------------------------------------------
  // Permission levels
  // ---------------------------------------------------------------------

  /** `convertCollectionAccessToPermission`: `manage` decides first, then
      `readOnly` separates viewing from editing, and `hidePasswords` picks the
      "except passwords" variant of either. */
  function ConvertCollectionAccessToPermission(access: CollectionAccess): (p: Permission)
    ensures p == Manage <==> access.manage
    ensures p == View || p == ViewExceptPass <==> !access.manage && access.readOnly
    ensures p == ViewExceptPass || p == EditExceptPass <==> !access.manage && access.hidePasswords
  {
    if access.manage then Manage
    else if access.readOnly then
      if access.hidePasswords then ViewExceptPass else View
    else
      if access.hidePasswords then EditExceptPass else Edit
  }

  /** The flags that store a permission level for `id`. */
  function GrantOf(id: string, p: Permission): CollectionAccess {
    CollectionAccess(id, p == View || p == ViewExceptPass, p == ViewExceptPass || p == EditExceptPass, p == Manage)
  }

  /** Every level is stored by some flags and decoded back. */
  lemma DecodeGrantOf(id: string, p: Permission)
    ensures ConvertCollectionAccessToPermission(GrantOf(id, p)) == p
  {
  }

  /** `item.permission || CollectionPermission.View` */
  function LevelOf(permission: Option<Permission>): Permission {
    if permission.Some? then permission.value else View
  }

  // ---------------------------------------------------------------------
  // Permission sets
  // ---------------------------------------------------------------------

  /** The map of `s` that collects entries of type `t`; collection entries
      go nowhere. */
  function Grants(s: PermissionSet, t: AccessItemType): map<string, Permission> {
    match t
    case MemberItem => s.users
    case GroupItem => s.groups
    case CollectionItem => map[]
  }

  /** `getCurrentPermissionSet`, over the entries of `access` in order. */
  function ProposedPermissionSet(access: seq<AccessItemValue>): PermissionSet {
    if |access| == 0 then PermissionSet(map[], map[])
    else
      var s := ProposedPermissionSet(access[..|access| - 1]);
      var item := access[|access| - 1];
      if item.itemType.MemberItem? then s.(users := s.users[item.id := LevelOf(item.permission)])
      else if item.itemType.GroupItem? then s.(groups := s.groups[item.id := LevelOf(item.permission)])
      else s
  }

  /** Members land in `users` and groups in `groups`: an id has a grant of
      a type exactly when some entry of that type carries it. */
  lemma {:induction false} ProposedKeys(access: seq<AccessItemValue>, t: AccessItemType, id: string)
    requires !t.CollectionItem?
    ensures id in Grants(ProposedPermissionSet(access), t)
            <==> exists i :: 0 <= i < |access| && access[i].itemType == t && access[i].id == id
  {
    if |access| > 0 {
      var front := access[..|access| - 1];
      ProposedKeys(front, t, id);
      if exists i :: 0 <= i < |front| && front[i].itemType == t && front[i].id == id {
        var i :| 0 <= i < |front| && front[i].itemType == t && front[i].id == id;
        assert access[i] == front[i];
      }
      if exists i :: 0 <= i < |access| && access[i].itemType == t && access[i].id == id {
        var i :| 0 <= i < |access| && access[i].itemType == t && access[i].id == id;
        if i < |front| {
          assert front[i] == access[i];
        }
      }
    }
  }

  /** The last entry of a type for an id sets its level: later entries
      overwrite earlier ones, and an unset level reads as View. */
  lemma {:induction false} ProposedLastEntryWins(access: seq<AccessItemValue>, i: nat)
    requires i < |access| && !access[i].itemType.CollectionItem?
    requires forall j :: i < j < |access| ==> !(access[j].itemType == access[i].itemType && access[j].id == access[i].id)
    ensures var g := Grants(ProposedPermissionSet(access), access[i].itemType);
            access[i].id in g && g[access[i].id] == LevelOf(access[i].permission)
  {
    if i < |access| - 1 {
      var front := access[..|access| - 1];
      assert front[i] == access[i];
      ProposedLastEntryWins(front, i);
    }
  }

  /** The grants a stored list makes, by id; a later grant for an id
      overwrites an earlier one, as `Map.set` does. */
  function AccessMap(grants: seq<CollectionAccess>): (m: map<string, Permission>)
    ensures forall k :: k in m <==> exists g :: g in grants && g.id == k
  {
    if |grants| == 0 then map[]
    else
      var last := grants[|grants| - 1];
      var before := AccessMap(grants[..|grants| - 1]);
      assert forall g :: g in grants <==> g in grants[..|grants| - 1] || g == last;
      before[last.id := ConvertCollectionAccessToPermission(last)]
  }

  /** The last stored grant for an id sets its level. */
  lemma {:induction false} AccessMapLastWins(grants: seq<CollectionAccess>, i: nat)
    requires i < |grants|
    requires forall j :: i < j < |grants| ==> grants[j].id != grants[i].id
    ensures AccessMap(grants)[grants[i].id] == ConvertCollectionAccessToPermission(grants[i])
  {
    if i < |grants| - 1 {
      var front := grants[..|grants| - 1];
      assert front[i] == grants[i];
      AccessMapLastWins(front, i);
    }
  }

  /** `getCollectionPermissionSet`: an absent list grants nothing. */
  function CollectionPermissionSet(c: Collection): PermissionSet {
    PermissionSet(
      if c.users.Some? then AccessMap(c.users.value) else map[],
      if c.groups.Some? then AccessMap(c.groups.value) else map[])
  }

  /** One map of `arePermissionSetsEqual`: the same size, and every entry of
      the first found with the same level in the second. */
  predicate SameGrants(m1: map<string, Permission>, m2: map<string, Permission>) {
    |m1| == |m2| && forall k :: k in m1 ==> k in m2 && m2[k] == m1[k]
  }

  /** `arePermissionSetsEqual`, as the source compares. */
  predicate PermissionSetsEqual(set1: PermissionSet, set2: PermissionSet) {
    SameGrants(set1.users, set2.users) && SameGrants(set1.groups, set2.groups)
  }

  lemma SubsetOfSameSize(a: set<string>, b: set<string>)
    requires a <= b && |a| == |b|
    ensures a == b
  {
    assert b == a + (b - a);
    assert |b - a| == 0;
  }

  /** Comparing by size and lookups is map equality. */
  lemma SameGrantsIffEqual(m1: map<string, Permission>, m2: map<string, Permission>)
    ensures SameGrants(m1, m2) <==> m1 == m2
  {
    if SameGrants(m1, m2) {
      assert |m1.Keys| == |m1| && |m2.Keys| == |m2|;
      SubsetOfSameSize(m1.Keys, m2.Keys);
    }
  }

  /** The comparison holds exactly for equal permission sets, so it is
      reflexive and symmetric. */
  lemma PermissionSetsEqualIffSame(set1: PermissionSet, set2: PermissionSet)
    ensures PermissionSetsEqual(set1, set2) <==> set1 == set2
    ensures PermissionSetsEqual(set1, set1)
    ensures PermissionSetsEqual(set1, set2) == PermissionSetsEqual(set2, set1)
  {
    SameGrantsIffEqual(set1.users, set2.users);
    SameGrantsIffEqual(set1.groups, set2.groups);
    SameGrantsIffEqual(set2.users, set1.users);
    SameGrantsIffEqual(set2.groups, set1.groups);
    SameGrantsIffEqual(set1.users, set1.users);
    SameGrantsIffEqual(set1.groups, set1.groups);
  }

  /** Changing the level of any one member breaks the match. */
  lemma ChangedLevelBreaksEquality(s: PermissionSet, id: string, p: Permission)
    requires id in s.users && s.users[id] != p
    ensures !PermissionSetsEqual(s, s.(users := s.users[id := p]))
  {
    PermissionSetsEqualIffSame(s, s.(users := s.users[id := p]));
  }

  // ---------------------------------------------------------------------
  // Duplicate collections
  // ---------------------------------------------------------------------

  /** `collection.users?.find(user => user.id === id)` */
  function FindAccess(grants: seq<CollectionAccess>, id: string): (r: Option<CollectionAccess>)
    ensures r.Some? ==> r.value in grants && r.value.id == id
    ensures r.None? <==> forall i :: 0 <= i < |grants| ==> grants[i].id != id
  {
    if |grants| == 0 then None
    else if grants[0].id == id then Some(grants[0])
    else FindAccess(grants[1..], id)
  }

  /** The first grant with the id is the one found. */
  lemma {:induction false} FindAccessFirst(grants: seq<CollectionAccess>, id: string, i: nat)
    requires i < |grants| && grants[i].id == id
    requires forall j :: 0 <= j < i ==> grants[j].id != id
    ensures FindAccess(grants, id) == Some(grants[i])
  {
    if i > 0 {
      FindAccessFirst(grants[1..], id, i - 1);
    }
  }

  /** `canUserShareInCollection`: only the user's own first grant counts, and
      only Manage and Edit allow resharing. */
  function CanUserShareInCollection(currentUser: Option<Member>, c: Collection): bool {
    if currentUser.None? || c.users.None? then false
    else
      match FindAccess(c.users.value, currentUser.value.id)
      case None => false
      case Some(access) =>
        var p := ConvertCollectionAccessToPermission(access);
        p == Manage || p == Edit
  }

  /** The user may reshare exactly when their first direct grant has
      `manage` set, or neither `readOnly` nor `hidePasswords`; group grants
      never count. */
  lemma CanShareIffFirstGrant(currentUser: Option<Member>, c: Collection, groups: Option<seq<CollectionAccess>>)
    ensures CanUserShareInCollection(currentUser, c) <==>
              currentUser.Some? && c.users.Some? &&
              var found := FindAccess(c.users.value, currentUser.value.id);
              found.Some? && (found.value.manage || (!found.value.readOnly && !found.value.hidePasswords))
    ensures CanUserShareInCollection(currentUser, c) == CanUserShareInCollection(currentUser, c.(groups := groups))
    ensures currentUser.None? ==> !CanUserShareInCollection(currentUser, c)
  {
  }

  /** A collection `findCollectionWithSamePermissions` accepts. */
  predicate IsDuplicate(currentUser: Option<Member>, proposed: PermissionSet, c: Collection) {
    CanUserShareInCollection(currentUser, c) && CollectionPermissionSet(c) == proposed
  }

  /** `findCollectionWithSamePermissions` over `collections`. */
  function FirstDuplicate(collections: seq<Collection>, currentUser: Option<Member>, proposed: PermissionSet): (r: Option<Collection>)
    ensures r.Some? ==> r.value in collections && IsDuplicate(currentUser, proposed, r.value)
    ensures r.None? <==> forall i :: 0 <= i < |collections| ==> !IsDuplicate(currentUser, proposed, collections[i])
  {
    if |collections| == 0 then None
    else if IsDuplicate(currentUser, proposed, collections[0]) then Some(collections[0])
    else FirstDuplicate(collections[1..], currentUser, proposed)
  }

  /** The first accepted collection, in list order, is the one found. */
  lemma {:induction false} FirstDuplicateIsFirst(collections: seq<Collection>, currentUser: Option<Member>, proposed: PermissionSet, i: nat)
    requires i < |collections| && IsDuplicate(currentUser, proposed, collections[i])
    requires forall j :: 0 <= j < i ==> !IsDuplicate(currentUser, proposed, collections[j])
    ensures FirstDuplicate(collections, currentUser, proposed) == Some(collections[i])
  {
    if i > 0 {
      FirstDuplicateIsFirst(collections[1..], currentUser, proposed, i - 1);
    }
  }

  // ---------------------------------------------------------------------
  // Generated collection names
  // ---------------------------------------------------------------------

  const DefaultCollectionName: string := "Shared Collection"

  /** `email.split("@")[0]`: everything before the first '@'. */
  function EmailPrefix(email: string): (r: string)
    ensures |r| <= |email| && r == email[..|r|] && '@' !in r
    ensures |r| < |email| ==> email[|r|] == '@'
  {
    SplitFirstIsPrefix(email, '@');
    Split(email, '@')[0]
  }

  /** `getFirstNameOrFallback`: the email's local part for a blank name,
      otherwise the first space-separated word of the trimmed name (never
      empty, so the source's second fallback is never taken). */
  function FirstNameOrFallback(fullName: string, email: string): (r: string)
    ensures Trim(fullName) == "" ==> r == EmailPrefix(email)
    ensures Trim(fullName) != "" ==>
              var t := Trim(fullName);
              r != "" && ' ' !in r && |r| <= |t| && r == t[..|r|] && (|r| < |t| ==> t[|r|] == ' ')
  {
    if fullName == "" || Trim(fullName) == "" then EmailPrefix(email)
    else
      var t := Trim(fullName);
      SplitFirstIsPrefix(t, ' ');
      var firstName := Split(t, ' ')[0];
      if firstName != "" then firstName else EmailPrefix(email)
  }

  /** The test of the sharee filter: an entry that is not the current user. */
  function IsShareeOf(currentUserId: string): AccessItemValue -> bool {
    (x: AccessItemValue) => x.id != currentUserId
  }

  /** The entries other than the current user's, in order. */
  function Sharees(access: seq<AccessItemValue>, currentUserId: string): (r: seq<AccessItemValue>)
    ensures |r| <= |access|
    ensures forall x :: x in r <==> x in access && x.id != currentUserId
  {
    Filtered(access, IsShareeOf(currentUserId))
  }

  /** The sharees keep the access list's order and repetitions, so the
      name lists them as they were added: the sharees of a concatenation
      are the concatenated sharees, one entry is a sharee exactly when it is
      not the user's, and a sharee occurs as often as in the list. */
  lemma ShareesInOrder(front: seq<AccessItemValue>, back: seq<AccessItemValue>, currentUserId: string)
    ensures Sharees(front + back, currentUserId) == Sharees(front, currentUserId) + Sharees(back, currentUserId)
    ensures |front| == 1 ==> Sharees(front, currentUserId) == (if front[0].id != currentUserId then front else [])
    ensures forall x :: multiset(Sharees(front, currentUserId))[x] == if x.id != currentUserId then multiset(front)[x] else 0
  {
    FilteredAppend(front, back, IsShareeOf(currentUserId));
    FilteredMultiplicity(front, IsShareeOf(currentUserId));
  }

  /** `accessItems.find(item => item.id === id && item.type === t)` */
  function FindAccessItem(items: seq<AccessItemView>, id: string, t: AccessItemType): (r: Option<AccessItemView>)
    ensures r.Some? ==> r.value in items && r.value.id == id && r.value.itemType == t
    ensures r.None? <==> forall i :: 0 <= i < |items| ==> !(items[i].id == id && items[i].itemType == t)
  {
    if |items| == 0 then None
    else if items[0].id == id && items[0].itemType == t then Some(items[0])
    else FindAccessItem(items[1..], id, t)
  }

  /** The item found is the first with the id and type. */
  lemma {:induction false} FindAccessItemIsFirst(items: seq<AccessItemView>, id: string, t: AccessItemType, k: nat)
    requires k < |items| && items[k].id == id && items[k].itemType == t
    requires forall j :: 0 <= j < k ==> !(items[j].id == id && items[j].itemType == t)
    ensures FindAccessItem(items, id, t) == Some(items[k])
  {
    if k > 0 {
      FindAccessItemIsFirst(items[1..], id, t, k - 1);
    }
  }

  /** The name a sharee contributes: a group's label, a member's first name,
      or a placeholder when the selector does not know the entry. */
  function ShareeName(sharee: AccessItemValue, items: seq<AccessItemView>): string {
    if sharee.itemType.GroupItem? then
      match FindAccessItem(items, sharee.id, GroupItem)
      case Some(group) => if group.labelName != "" then group.labelName else "Unknown Group"
      case None => "Unknown Group"
    else
      match FindAccessItem(items, sharee.id, MemberItem)
      case Some(user) => FirstNameOrFallback(user.labelName, user.email)
      case None => "Unknown User"
  }

  function ShareeNames(sharees: seq<AccessItemValue>, items: seq<AccessItemView>): (names: seq<string>)
    ensures |names| == |sharees|
    ensures forall i :: 0 <= i < |sharees| ==> names[i] == ShareeName(sharees[i], items)
  {
    seq(|sharees|, i requires 0 <= i < |sharees| => ShareeName(sharees[i], items))
  }

  /** The sharee part of the name, by how many sharees there are. */
  function ShareePart(names: seq<string>): string
    requires |names| >= 1
  {
    if |names| == 1 then names[0]
    else if |names| == 2 then names[0] + " & " + names[1]
    else if |names| <= 5 then Join(names[..|names| - 1], ", ") + " & " + names[|names| - 1]
    else Join(names[..3], ", ") + " & " + IntToString(|names| - 3) + " others"
  }

  /** An English list, defined on its own: one item alone, two joined by
      " & ", and more as the first item, a comma, and the list of the rest. */
  function Listing(items: seq<string>): string
    requires |items| >= 1
  {
    if |items| == 1 then items[0]
    else if |items| == 2 then items[0] + " & " + items[1]
    else items[0] + ", " + Listing(items[1..])
  }

  /** A list of two or more is every item but the last joined by commas,
      then " & " and the last. */
  lemma {:induction false} ListingOfSeveral(items: seq<string>)
    requires |items| >= 2
    ensures Listing(items) == Join(items[..|items| - 1], ", ") + " & " + items[|items| - 1]
  {
    if |items| == 2 {
      assert items[..1] == [items[0]];
    } else {
      var n := |items|;
      ListingOfSeveral(items[1..]);
      assert items[..n - 1][1..] == items[1..][..n - 2];
      assert Join(items[..n - 1], ", ") == items[0] + ", " + Join(items[..n - 1][1..], ", ");
    }
  }

  /** Up to five names, the sharee part lists them all. */
  lemma ShareePartOfFew(names: seq<string>)
    requires 1 <= |names| <= 5
    ensures ShareePart(names) == Listing(names)
  {
    if |names| > 2 {
      ListingOfSeveral(names);
    }
  }

  /** Beyond five, the sharee part lists the first three names and then
      how many others there are. */
  lemma ShareePartOfMany(names: seq<string>)
    requires |names| > 5
    ensures ShareePart(names) == Listing(names[..3] + [NatToString(|names| - 3) + " others"])
  {
    var count := NatToString(|names| - 3);
    var shown := names[..3] + [count + " others"];
    ListingOfSeveral(shown);
    assert shown[..3] == names[..3] && shown[3] == count + " others";
    var head := Join(names[..3], ", ") + " & ";
    assert ShareePart(names) == head + count + " others";
    assert head + count + " others" == head + (count + " others");
  }

  /** The sharee part lists every name, in order, when there are at most
      five; beyond five it lists the first three and then how many others
      there are. */
  lemma ShareePartIsListing(names: seq<string>)
    requires |names| >= 1
    ensures |names| <= 5 ==> ShareePart(names) == Listing(names)
    ensures |names| > 5 ==> ShareePart(names) == Listing(names[..3] + [NatToString(|names| - 3) + " others"])
  {
    if |names| <= 5 {
      ShareePartOfFew(names);
    } else {
      ShareePartOfMany(names);
    }
  }

  /** `generateCollectionName` */
  function GenerateCollectionName(currentUser: Option<Member>, access: seq<AccessItemValue>, items: seq<AccessItemView>): string {
    if currentUser.None? then DefaultCollectionName
    else
      var sharees := Sharees(access, currentUser.value.id);
      if |sharees| == 0 then DefaultCollectionName
      else
        var sharerName := FirstNameOrFallback(currentUser.value.name, currentUser.value.email);
        sharerName + " + " + ShareePart(ShareeNames(sharees, items))
  }

  /** The default name is used exactly when there is no current user or no
      one else is in the access list; any other name joins the sharer and
      the sharees with " + ". */
  lemma GeneratedNameIsDefaultIffNoSharees(currentUser: Option<Member>, access: seq<AccessItemValue>, items: seq<AccessItemView>)
    ensures GenerateCollectionName(currentUser, access, items) == DefaultCollectionName
            <==> currentUser.None? || forall x :: x in access ==> x.id == currentUser.value.id
  {
    if currentUser.Some? {
      var sharees := Sharees(access, currentUser.value.id);
      if |sharees| > 0 {
        var sharer := FirstNameOrFallback(currentUser.value.name, currentUser.value.email);
        var r := GenerateCollectionName(currentUser, access, items);
        assert r[|sharer| + 1] == '+';
        assert '+' !in DefaultCollectionName;
        assert sharees[0] in access && sharees[0].id != currentUser.value.id;
      }
    }
  }

  /** With a user and at least one sharee, the name is the user's first
      name, " + ", and the listing of the sharees' names in access-list
      order: all of them up to five, otherwise the first three and the count
      of the rest. */
  lemma GeneratedNameListsSharees(user: Member, access: seq<AccessItemValue>, items: seq<AccessItemView>)
    requires Sharees(access, user.id) != []
    ensures var names := ShareeNames(Sharees(access, user.id), items);
            var sharer := FirstNameOrFallback(user.name, user.email) + " + ";
            && (|names| <= 5 ==> GenerateCollectionName(Some(user), access, items) == sharer + Listing(names))
            && (|names| > 5 ==>
                  GenerateCollectionName(Some(user), access, items) == sharer + Listing(names[..3] + [NatToString(|names| - 3) + " others"]))
  {
    ShareePartIsListing(ShareeNames(Sharees(access, user.id), items));
  }

  // ---------------------------------------------------------------------
  // Creating and assigning
  // ---------------------------------------------------------------------

  /** What `createCollection` sends: the organization, the name, and the
      member and group entries of the access list. */
  datatype NewCollection = NewCollection(organizationId: string, name: string, users: seq<AccessItemValue>, groups: seq<AccessItemValue>)

  /** The test of `createCollection`'s filters: an entry of type `t`. */
  function HasType(t: AccessItemType): AccessItemValue -> bool {
    (x: AccessItemValue) => x.itemType == t
  }

  /** The entries of `access` of type `t`, in order. */
  function EntriesOfType(access: seq<AccessItemValue>, t: AccessItemType): (r: seq<AccessItemValue>)
    ensures |r| <= |access|
    ensures forall x :: x in r <==> x in access && x.itemType == t
  {
    Filtered(access, HasType(t))
  }

  /** `createCollection`'s request: the typed name unless it is blank, in
      which case the generated one. */
  function CollectionRequest(organizationId: string, providedName: string, currentUser: Option<Member>,
                             access: seq<AccessItemValue>, items: seq<AccessItemView>): NewCollection
  {
    var name := if providedName == "" || Trim(providedName) == "" then GenerateCollectionName(currentUser, access, items) else providedName;
    NewCollection(organizationId, name, EntriesOfType(access, MemberItem), EntriesOfType(access, GroupItem))
  }

  /** The request keeps a typed name and replaces a blank one by the
      generated name; its users are exactly the member entries and its
      groups exactly the group entries. */
  lemma CollectionRequestFacts(organizationId: string, providedName: string, currentUser: Option<Member>,
                               access: seq<AccessItemValue>, items: seq<AccessItemView>)
    ensures var r := CollectionRequest(organizationId, providedName, currentUser, access, items);
            && r.organizationId == organizationId
            && (Trim(providedName) != "" ==> r.name == providedName)
            && (Trim(providedName) == "" ==> r.name == GenerateCollectionName(currentUser, access, items))
            && (forall x :: x in r.users <==> x in access && x.itemType.MemberItem?)
            && (forall x :: x in r.groups <==> x in access && x.itemType.GroupItem?)
  {
  }

  /** The item being shared, as decrypted: its organization ("" when it is in
      the individual vault) and the collections it is in. */
  datatype CipherRef = CipherRef(organizationId: string, collectionIds: seq<string>)

  /** `assignOrganizationItemToCollection`'s update: the id list to save, or
      nothing (and no save call) when the item is already in the collection. */
  function AddCollectionId(existing: seq<string>, collectionId: string): (r: Option<seq<string>>)
    ensures r.None? <==> collectionId in existing
    ensures r.Some? ==> |r.value| == |existing| + 1 && r.value[..|existing|] == existing && collectionId in r.value
  {
    if collectionId in existing then None else Some(existing + [collectionId])
  }

  /** Assigning twice is assigning once: the second finds the id present and
      saves nothing; and ids stay distinct. */
  lemma AddCollectionIdIdempotent(existing: seq<string>, collectionId: string)
    ensures var after := if AddCollectionId(existing, collectionId).Some? then AddCollectionId(existing, collectionId).value else existing;
            collectionId in after && AddCollectionId(after, collectionId).None?
    ensures NoRepeats(existing) && AddCollectionId(existing, collectionId).Some? ==> NoRepeats(AddCollectionId(existing, collectionId).value)
  {
  }

  predicate NoRepeats(ids: seq<string>) {
    forall i, j :: 0 <= i < j < |ids| ==> ids[i] != ids[j]
  }

  /** The server call assigning the item: sharing an individual item into
      the organization with that one collection, saving an organization
      item's new collection list, no call, or a thrown error. */
  datatype Assignment = ShareToOrganization(collectionIds: seq<string>) | SaveCollections(collectionIds: seq<string>) | NoSave | Failed

  /** `assignOrganizationItemToCollection` for collection `collectionId`. */
  function AssignOrganizationItem(cipher: CipherRef, collectionId: string): (r: Assignment)
    ensures r.NoSave? || r.SaveCollections?
    ensures r.NoSave? <==> collectionId in cipher.collectionIds
    ensures r.SaveCollections? ==> r.collectionIds == cipher.collectionIds + [collectionId]
  {
    match AddCollectionId(cipher.collectionIds, collectionId)
    case None => NoSave
    case Some(ids) => SaveCollections(ids)
  }

  /** `assignCipherToCollection` as written: an organization item looks the
      new collection up among the collections loaded when the dialog opened. */
  function AssignCipherToCollectionAsWritten(cipher: CipherRef, existingCollections: seq<Collection>, collectionId: string): (r: Assignment)
    ensures r.Failed? <==> cipher.organizationId != "" && forall c :: c in existingCollections ==> c.id != collectionId
    ensures !r.Failed? ==> r == AssignCipherToCollection(cipher, collectionId)
  {
    if cipher.organizationId == "" then ShareToOrganization([collectionId])
    else if forall i :: 0 <= i < |existingCollections| ==> existingCollections[i].id != collectionId then Failed
    else AssignOrganizationItem(cipher, collectionId)
  }

  /** A collection just created is not among those loaded before, so for an
      organization item the assignment as written always fails. */
  lemma NewCollectionAssignmentFails(cipher: CipherRef, existingCollections: seq<Collection>, collectionId: string)
    requires cipher.organizationId != ""
    requires forall c :: c in existingCollections ==> c.id != collectionId
    ensures AssignCipherToCollectionAsWritten(cipher, existingCollections, collectionId) == Failed
  {
    assert forall i :: 0 <= i < |existingCollections| ==> existingCollections[i] in existingCollections;
  }

  /** `assignCipherToCollection` as intended: the item goes into the
      collection it was just shared to. */
  function AssignCipherToCollection(cipher: CipherRef, collectionId: string): (r: Assignment)
    ensures !r.Failed?
    ensures cipher.organizationId == "" ==> r == ShareToOrganization([collectionId])
    ensures r.SaveCollections? ==> collectionId in r.collectionIds && |r.collectionIds| > |cipher.collectionIds| && r.collectionIds[..|cipher.collectionIds|] == cipher.collectionIds
    ensures r.NoSave? ==> collectionId in cipher.collectionIds
    ensures cipher.organizationId != "" ==>
              && !r.ShareToOrganization?
              && (r.NoSave? <==> collectionId in cipher.collectionIds)
              && (r.SaveCollections? ==> r.collectionIds == cipher.collectionIds + [collectionId])
  {
    if cipher.organizationId == "" then ShareToOrganization([collectionId])
    else AssignOrganizationItem(cipher, collectionId)
  }

  /** Where the collection was already loaded, both agree. */
  lemma AssignmentAgreesWhenLoaded(cipher: CipherRef, existingCollections: seq<Collection>, i: nat)
    requires i < |existingCollections|
    ensures AssignCipherToCollectionAsWritten(cipher, existingCollections, existingCollections[i].id)
            == AssignCipherToCollection(cipher, existingCollections[i].id)
  {
  }

  // ---------------------------------------------------------------------
  // The dialog
  // ---------------------------------------------------------------------

  /** What a submit did, as the toast it shows (or none). */
  datatype SubmitOutcome = Ignored | ExistingCollectionStep | Shared | CreatedButNotAssigned | CreationFailed

  /** Where `submit` stands at its first `await`: already returned, or
      sending the request to create a collection. */
  datatype SubmitStep = Returned(outcome: SubmitOutcome) | Creating(request: Option<NewCollection>)

  class ShareModalComponent {
    var cipher: CipherRef
    var organizationId: Option<string>
    var existingCollections: seq<Collection>
    var accessItems: seq<AccessItemView>
    var currentUser: Option<Member>
    var loading: bool
    var submitting: bool
    var showExistingCollectionStep: bool
    var existingCollection: Option<Collection>
    var collectionName: string
    var access: seq<AccessItemValue>
    var createdCollectionId: string
    var sharingComplete: bool

    /** The dialog after `loadData`, given what it fetched: the first
        organization the user may create collections in (none closes the
        dialog and leaves it loading), that organization's collections and
        selectable items, and the user among its members. The user starts in
        the access list with Manage. */
    constructor (cipher: CipherRef, organizationId: Option<string>, existingCollections: seq<Collection>,
                 accessItems: seq<AccessItemView>, currentUser: Option<Member>)
      ensures this.cipher == cipher && this.organizationId == organizationId
      ensures this.existingCollections == (if organizationId.Some? then existingCollections else [])
      ensures this.accessItems == (if organizationId.Some? then accessItems else [])
      ensures this.currentUser == (if organizationId.Some? then currentUser else None)
      ensures loading <==> organizationId.None?
      ensures access == if organizationId.Some? && currentUser.Some? then [AccessItemValue(currentUser.value.id, MemberItem, Some(Manage))] else []
      ensures !submitting && !showExistingCollectionStep && existingCollection.None? && collectionName == ""
      ensures createdCollectionId == "" && !sharingComplete
    {
      this.cipher := cipher;
      this.organizationId := organizationId;
      submitting := false;
      showExistingCollectionStep := false;
      existingCollection := None;
      collectionName := "";
      createdCollectionId := "";
      sharingComplete := false;
      if organizationId.None? {
        this.existingCollections := [];
        this.accessItems := [];
        this.currentUser := None;
        access := [];
        loading := true;
      } else {
        this.existingCollections := existingCollections;
        this.accessItems := accessItems;
        this.currentUser := currentUser;
        access := if currentUser.Some? then [AccessItemValue(currentUser.value.id, MemberItem, Some(Manage))] else [];
        loading := false;
      }
    }

    /** The user edits the form. */
    method SetForm(name: string, entries: seq<AccessItemValue>)
      modifies this`collectionName, this`access
      ensures collectionName == name && access == entries
    {
      collectionName := name;
      access := entries;
    }

    /** `canSave`: loaded, and someone besides the user in the list. */
    predicate CanSave()
      reads this
    {
      !loading && |access| > 1
    }

    /** `getCurrentPermissionSet` */
    method GetCurrentPermissionSet() returns (permissionSet: PermissionSet)
      ensures permissionSet == ProposedPermissionSet(access)
    {
      permissionSet := PermissionSet(map[], map[]);
      var i := 0;
      while i < |access|
        invariant 0 <= i <= |access|
        invariant permissionSet == ProposedPermissionSet(access[..i])
      {
        assert access[..i + 1][..i] == access[..i];
        var item := access[i];
        if item.itemType.MemberItem? {
          permissionSet := permissionSet.(users := permissionSet.users[item.id := LevelOf(item.permission)]);
        } else if item.itemType.GroupItem? {
          permissionSet := permissionSet.(groups := permissionSet.groups[item.id := LevelOf(item.permission)]);
        }
        i := i + 1;
      }
      assert access[..i] == access;
    }

    /** `getCollectionPermissionSet` */
    method GetCollectionPermissionSet(collection: Collection) returns (permissionSet: PermissionSet)
      ensures permissionSet == CollectionPermissionSet(collection)
    {
      var users: map<string, Permission> := map[];
      if collection.users.Some? {
        users := FillAccessMap(collection.users.value);
      }
      var groups: map<string, Permission> := map[];
      if collection.groups.Some? {
        groups := FillAccessMap(collection.groups.value);
      }
      permissionSet := PermissionSet(users, groups);
    }

    /** One `forEach` of `getCollectionPermissionSet`. */
    method FillAccessMap(grants: seq<CollectionAccess>) returns (m: map<string, Permission>)
      ensures m == AccessMap(grants)
    {
      m := map[];
      var i := 0;
      while i < |grants|
        invariant 0 <= i <= |grants|
        invariant m == AccessMap(grants[..i])
      {
        assert grants[..i + 1][..i] == grants[..i];
        m := m[grants[i].id := ConvertCollectionAccessToPermission(grants[i])];
        i := i + 1;
      }
      assert grants[..i] == grants;
    }

    /** `arePermissionSetsEqual`: true exactly for equal permission sets. */
    method ArePermissionSetsEqual(set1: PermissionSet, set2: PermissionSet) returns (equal: bool)
      ensures equal == PermissionSetsEqual(set1, set2)
      ensures equal <==> set1 == set2
    {
      PermissionSetsEqualIffSame(set1, set2);
      equal := SameEntries(set1.users, set2.users);
      if equal {
        equal := SameEntries(set1.groups, set2.groups);
      }
    }

    /** One size check and `for ... of` loop of `arePermissionSetsEqual`. */
    method SameEntries(m1: map<string, Permission>, m2: map<string, Permission>) returns (same: bool)
      ensures same == SameGrants(m1, m2)
    {
      if |m1| != |m2| {
        return false;
      }
      var pending := m1.Keys;
      while pending != {}
        invariant pending <= m1.Keys
        invariant forall k :: k in m1 && k !in pending ==> k in m2 && m2[k] == m1[k]
        decreases pending
      {
        var k :| k in pending;
        if k !in m2 || m2[k] != m1[k] {
          return false;
        }
        pending := pending - {k};
      }
      return true;
    }

    /** `findCollectionWithSamePermissions` */
    method FindCollectionWithSamePermissions() returns (found: Option<Collection>)
      ensures found == FirstDuplicate(existingCollections, currentUser, ProposedPermissionSet(access))
    {
      var currentPermissions := GetCurrentPermissionSet();
      var i := 0;
      while i < |existingCollections|
        invariant 0 <= i <= |existingCollections|
        invariant FirstDuplicate(existingCollections, currentUser, currentPermissions)
                  == FirstDuplicate(existingCollections[i..], currentUser, currentPermissions)
      {
        var collection := existingCollections[i];
        assert existingCollections[i..][0] == collection && existingCollections[i..][1..] == existingCollections[i + 1..];
        if CanUserShareInCollection(currentUser, collection) {
          var collectionPermissions := GetCollectionPermissionSet(collection);
          var equal := ArePermissionSetsEqual(currentPermissions, collectionPermissions);
          if equal {
            return Some(collection);
          }
        }
        i := i + 1;
      }
      return None;
    }

    /** Whether `submit` returns at once: nothing to save, a submit in
        flight, or the existing-collection step showing. */
    predicate Blocked()
      reads this
    {
      !CanSave() || submitting || showExistingCollectionStep
    }

    /** The collection `submit` would offer instead of creating one. */
    function Duplicate(): Option<Collection>
      reads this
    {
      FirstDuplicate(existingCollections, currentUser, ProposedPermissionSet(access))
    }

    /** The collection `createCollection` builds from the form, or nothing
        without an organization (where it throws). */
    function PendingRequest(): Option<NewCollection>
      reads this`organizationId, this`collectionName, this`currentUser, this`access, this`accessItems
    {
      if organizationId.Some? then Some(CollectionRequest(organizationId.value, collectionName, currentUser, access, accessItems)) else None
    }

    /** The synchronous half of `submit`, up to the `await` on
        `createCollection`: the guards, the duplicate check, and otherwise
        `submitting` raised and the request about to be sent. */
    method BeginSubmit() returns (step: SubmitStep)
      modifies this`submitting, this`showExistingCollectionStep, this`existingCollection
      ensures old(Blocked()) ==>
                step == Returned(Ignored) && submitting == old(submitting)
                && showExistingCollectionStep == old(showExistingCollectionStep) && existingCollection == old(existingCollection)
      ensures !old(Blocked()) && old(Duplicate()).Some? ==>
                step == Returned(ExistingCollectionStep)
                && existingCollection == old(Duplicate()) && showExistingCollectionStep && !submitting
      ensures !old(Blocked()) && old(Duplicate()).None? ==>
                step == Creating(old(PendingRequest()))
                && submitting && !showExistingCollectionStep && existingCollection == old(existingCollection)
    {
      if !CanSave() || submitting {
        return Returned(Ignored);
      }
      if showExistingCollectionStep {
        return Returned(Ignored);
      }
      var duplicateCollection := FindCollectionWithSamePermissions();
      if duplicateCollection.Some? {
        existingCollection := duplicateCollection;
        showExistingCollectionStep := true;
        return Returned(ExistingCollectionStep);
      }
      submitting := true;
      step := Creating(PendingRequest());
    }

    /** The half of `submit` after `createCollection` answers. `saved` is
        the id the server gives the new collection, or nothing when saving
        fails (without an organization `createCollection` throws before
        any call). Given an id, `assignCipherToCollection` and the completed
        share (with a warning when the server refuses the assignment);
        otherwise the creation error. Either way `submitting` drops. */
    method FinishSubmit(saved: Option<string>, assignmentAccepted: bool) returns (outcome: SubmitOutcome, assignment: Option<Assignment>)
      modifies this`submitting, this`createdCollectionId, this`sharingComplete
      ensures !submitting
      ensures organizationId.None? || saved.None? ==>
                outcome == CreationFailed && assignment.None?
                && createdCollectionId == old(createdCollectionId) && sharingComplete == old(sharingComplete)
      ensures organizationId.Some? && saved.Some? ==>
                assignment == Some(AssignCipherToCollection(cipher, saved.value))
                && createdCollectionId == saved.value && sharingComplete
                && outcome == (if assignmentAccepted then Shared else CreatedButNotAssigned)
    {
      if organizationId.None? || saved.None? {
        outcome, assignment := CreationFailed, None;
      } else {
        assignment := Some(AssignCipherToCollection(cipher, saved.value));
        createdCollectionId := saved.value;
        sharingComplete := true;
        outcome := if assignmentAccepted then Shared else CreatedButNotAssigned;
      }
      submitting := false;
    }

    /** `submit` run to completion with nothing in between. */
    method Submit(saved: Option<string>, assignmentAccepted: bool) returns (outcome: SubmitOutcome, request: Option<NewCollection>, assignment: Option<Assignment>)
      modifies this`submitting, this`showExistingCollectionStep, this`existingCollection
      modifies this`createdCollectionId, this`sharingComplete
      ensures old(Blocked()) ==>
                outcome == Ignored && request.None? && assignment.None? && submitting == old(submitting)
                && showExistingCollectionStep == old(showExistingCollectionStep) && existingCollection == old(existingCollection)
                && createdCollectionId == old(createdCollectionId) && sharingComplete == old(sharingComplete)
      ensures !old(Blocked()) && old(Duplicate()).Some? ==>
                outcome == ExistingCollectionStep && request.None? && assignment.None?
                && existingCollection == old(Duplicate()) && showExistingCollectionStep && !submitting
                && createdCollectionId == old(createdCollectionId) && sharingComplete == old(sharingComplete)
      ensures !old(Blocked()) && old(Duplicate()).None? ==>
                !submitting && !showExistingCollectionStep && existingCollection == old(existingCollection)
                && outcome != Ignored && outcome != ExistingCollectionStep
                && request == old(PendingRequest())
                && (organizationId.None? || saved.None? ==>
                      outcome == CreationFailed && assignment.None?
                      && createdCollectionId == old(createdCollectionId) && sharingComplete == old(sharingComplete))
                && (organizationId.Some? && saved.Some? ==>
                      assignment == Some(AssignCipherToCollection(cipher, saved.value))
                      && createdCollectionId == saved.value && sharingComplete
                      && outcome == (if assignmentAccepted then Shared else CreatedButNotAssigned))
    {
      var step := BeginSubmit();
      if step.Returned? {
        return step.outcome, None, None;
      }
      request := step.request;
      outcome, assignment := FinishSubmit(saved, assignmentAccepted);
    }
  }

  /** A second submit while the first awaits the server is turned away by
      the `submitting` guard and changes nothing; the first then completes
      as if it had been alone. */
  method SubmitWhileCreating(modal: ShareModalComponent, saved: Option<string>, accepted: bool)
      returns (second: SubmitOutcome, outcome: SubmitOutcome)
    modifies modal`submitting, modal`showExistingCollectionStep, modal`existingCollection
    modifies modal`createdCollectionId, modal`sharingComplete
    requires !modal.Blocked() && modal.Duplicate().None?
    ensures second == Ignored
    ensures !modal.submitting && !modal.showExistingCollectionStep && modal.existingCollection == old(modal.existingCollection)
    ensures modal.organizationId.None? || saved.None? ==>
              outcome == CreationFailed
              && modal.createdCollectionId == old(modal.createdCollectionId) && modal.sharingComplete == old(modal.sharingComplete)
    ensures modal.organizationId.Some? && saved.Some? ==>
              modal.createdCollectionId == saved.value && modal.sharingComplete
              && outcome == (if accepted then Shared else CreatedButNotAssigned)
  {
    var step := modal.BeginSubmit();
    var request, assignment;
    second, request, assignment := modal.Submit(saved, accepted);
    var finalAssignment;
    outcome, finalAssignment := modal.FinishSubmit(saved, accepted);
  }

  /** Submitting twice after a duplicate was offered does nothing more. */
  method SubmitAgainAfterDuplicate(modal: ShareModalComponent, saved: Option<string>, accepted: bool)
      returns (second: SubmitOutcome)
    modifies modal`submitting, modal`showExistingCollectionStep, modal`existingCollection
    modifies modal`createdCollectionId, modal`sharingComplete
    requires !modal.Blocked() && modal.Duplicate().Some?
    ensures second == Ignored
    ensures modal.existingCollection == old(modal.Duplicate()) && modal.showExistingCollectionStep
    ensures modal.createdCollectionId == old(modal.createdCollectionId) && modal.sharingComplete == old(modal.sharingComplete)
  {
    var first, request1, assignment1 := modal.Submit(saved, accepted);
    var request2, assignment2;
    second, request2, assignment2 := modal.Submit(saved, accepted);
  }
}
