/**
 * One item row of the vault table: the permission label it shows and which
 * of its controls (checkbox, menu entries) are offered. What the vault's
 * item helpers compute about the item (its type, whether it is deleted,
 * which values can be copied) is given, not computed.
 */
module VaultCipherRow {
  import opened Text
  import opened RestrictedItemTypesService
  import opened Seqs

  /** The fields of the item the row reads directly. `organizationId` is
      absent for an item of the individual vault. */
  datatype Cipher = Cipher(
    organizationId: Option<string>,
    collectionIds: seq<string>,
    hasOldAttachments: bool,
    edit: bool,
    viewPassword: bool,
    organizationUseTotp: bool)

  /** What the item helpers report about the item. */
  datatype CipherFacts = CipherFacts(
    cipherType: CipherType,
    isDeleted: bool,
    hasCopyableUsername: bool,
    hasCopyablePassword: bool,
    hasTotp: bool,
    canLaunch: bool,
    hasAttachments: bool)

  /** The row's inputs that are not about the item. */
  datatype RowInputs = RowInputs(
    organizationCount: nat,
    canEditCipher: bool,
    canRestoreCipher: bool,
    cloneable: bool,
    showPremiumFeatures: bool,
    viewingOrgVault: bool)

  datatype Organization = Organization(id: string, canEditAllCiphers: bool)

  /** A collection of the table. `labelId` is the label key of its permission
      in the permission list, absent when the list has none for it. */
  datatype CollectionView = CollectionView(id: string, isAssigned: bool, labelId: Option<string>)

  // ---------------------------------------------------------------------
  // Permission label
  // ---------------------------------------------------------------------

  /** The label keys from most to least powerful. */
  const PermissionPriority: seq<string> :=
    ["manageCollection", "editItems", "editItemsHidePass", "viewItems", "viewItemsHidePass"]

  /** The test of `permissionText`'s filter: an assigned collection the
      item is in. The item's id list is searched with `find`, which yields
      the id itself, so a collection whose id is the empty string never
      passes. */
  function IsConsideredIn(collectionIds: seq<string>): CollectionView -> bool {
    (c: CollectionView) => c.isAssigned && c.id in collectionIds && c.id != ""
  }

  /** The collections `permissionText` weighs, in table order. */
  function Considered(collections: seq<CollectionView>, collectionIds: seq<string>): (r: seq<CollectionView>)
    ensures |r| <= |collections|
    ensures forall c :: c in r <==> c in collections && c.isAssigned && c.id in collectionIds && c.id != ""
  {
    Filtered(collections, IsConsideredIn(collectionIds))
  }

  /** The weighed collections keep the table's order and repetitions, which
      decide between the one-collection and several-collections branches:
      the list of a concatenation is the concatenation of the lists, one
      collection is kept exactly when it passes the test, and a passing
      collection occurs as often as in the table. */
  lemma ConsideredInOrder(front: seq<CollectionView>, back: seq<CollectionView>, collectionIds: seq<string>)
    ensures Considered(front + back, collectionIds) == Considered(front, collectionIds) + Considered(back, collectionIds)
    ensures |front| == 1 ==>
              Considered(front, collectionIds)
              == (if front[0].isAssigned && front[0].id in collectionIds && front[0].id != "" then front else [])
    ensures forall c :: multiset(Considered(front, collectionIds))[c]
              == if c.isAssigned && c.id in collectionIds && c.id != "" then multiset(front)[c] else 0
  {
    FilteredAppend(front, back, IsConsideredIn(collectionIds));
    FilteredMultiplicity(front, IsConsideredIn(collectionIds));
  }

  function Labels(collections: seq<CollectionView>): (labels: seq<Option<string>>)
    ensures |labels| == |collections|
    ensures forall i :: 0 <= i < |collections| ==> labels[i] == collections[i].labelId
  {
    seq(|collections|, i requires 0 <= i < |collections| => collections[i].labelId)
  }

  /** `permissionPriority.find(perm => labels.includes(perm))` from index
      `from` on. */
  function HighestFrom(labels: seq<Option<string>>, from: nat): (r: Option<string>)
    requires from <= |PermissionPriority|
    ensures r.Some? ==> exists k :: from <= k < |PermissionPriority| && r.value == PermissionPriority[k]
                          && Some(PermissionPriority[k]) in labels
                          && forall j :: from <= j < k ==> Some(PermissionPriority[j]) !in labels
    ensures r.None? <==> forall j :: from <= j < |PermissionPriority| ==> Some(PermissionPriority[j]) !in labels
    decreases |PermissionPriority| - from
  {
    if from == |PermissionPriority| then None
    else if Some(PermissionPriority[from]) in labels then Some(PermissionPriority[from])
    else HighestFrom(labels, from + 1)
  }

  /** The strongest permission among the labels. */
  function Highest(labels: seq<Option<string>>): Option<string> {
    HighestFrom(labels, 0)
  }

  /** No label outranks the one chosen, and only which labels occur matters,
      not their order or repetition. */
  lemma HighestIsStrongest(labels: seq<Option<string>>, other: seq<Option<string>>, k: nat)
    requires k < |PermissionPriority| && Some(PermissionPriority[k]) in labels
    ensures Highest(labels).Some?
    ensures exists j :: 0 <= j <= k && Highest(labels) == Some(PermissionPriority[j])
    ensures (forall l :: l in labels <==> l in other) ==> Highest(labels) == Highest(other)
  {
    var r := Highest(labels);
    var j :| 0 <= j < |PermissionPriority| && r.value == PermissionPriority[j]
              && Some(PermissionPriority[j]) in labels
              && forall i :: 0 <= i < j ==> Some(PermissionPriority[i]) !in labels;
    assert j <= k;
    if forall l :: l in labels <==> l in other {
      SameLabelsSameHighest(labels, other, 0);
    }
  }

  lemma {:induction false} SameLabelsSameHighest(labels: seq<Option<string>>, other: seq<Option<string>>, from: nat)
    requires from <= |PermissionPriority|
    requires forall l :: l in labels <==> l in other
    ensures HighestFrom(labels, from) == HighestFrom(other, from)
    decreases |PermissionPriority| - from
  {
    if from < |PermissionPriority| {
      SameLabelsSameHighest(labels, other, from + 1);
    }
  }

  /** `permissionText`, as the i18n key it translates (absent when the key
      passed is `undefined`). */
  function PermissionText(cipher: Cipher, collections: seq<CollectionView>): (key: Option<string>)
    ensures cipher.organizationId.None? || cipher.organizationId == Some("") || |cipher.collectionIds| == 0
            ==> key == Some("manageCollection")
  {
    if cipher.organizationId.None? || cipher.organizationId.value == "" || |cipher.collectionIds| == 0 then
      Some("manageCollection")
    else
      var filtered := Considered(collections, cipher.collectionIds);
      if |filtered| == 1 then filtered[0].labelId
      else if |filtered| > 1 then Highest(Labels(filtered))
      else Some("noAccess")
  }

  /** For an organization item in some collection: "noAccess" when no
      assigned collection holds it, that collection's label when one does,
      and otherwise the strongest label among them. */
  lemma PermissionTextOfOrganizationItem(cipher: Cipher, collections: seq<CollectionView>)
    requires cipher.organizationId.Some? && cipher.organizationId.value != "" && |cipher.collectionIds| > 0
    ensures var filtered := Considered(collections, cipher.collectionIds);
            (forall c :: c in collections && c.isAssigned ==> c.id !in cipher.collectionIds || c.id == "")
              ==> PermissionText(cipher, collections) == Some("noAccess")
    ensures var filtered := Considered(collections, cipher.collectionIds);
            |filtered| == 1 ==> PermissionText(cipher, collections) == filtered[0].labelId
    ensures var filtered := Considered(collections, cipher.collectionIds);
            forall k :: 0 <= k < |PermissionPriority| && |filtered| > 1 &&
                        (exists c :: c in filtered && c.labelId == Some(PermissionPriority[k]))
              ==> exists j :: 0 <= j <= k && PermissionText(cipher, collections) == Some(PermissionPriority[j])
  {
    var filtered := Considered(collections, cipher.collectionIds);
    assert |filtered| > 0 ==> filtered[0] in filtered;
    forall k | 0 <= k < |PermissionPriority| && |filtered| > 1 &&
               (exists c :: c in filtered && c.labelId == Some(PermissionPriority[k]))
      ensures exists j :: 0 <= j <= k && PermissionText(cipher, collections) == Some(PermissionPriority[j])
    {
      var c :| c in filtered && c.labelId == Some(PermissionPriority[k]);
      var i :| 0 <= i < |filtered| && filtered[i] == c;
      assert Labels(filtered)[i] == c.labelId;
      HighestIsStrongest(Labels(filtered), Labels(filtered), k);
    }
  }

  /** With several collections weighed, the text is a label one of them
      holds, and it is absent (`t(undefined)`) exactly when none of them
      holds a label of the priority list. */
  lemma PermissionTextAmongSeveral(cipher: Cipher, collections: seq<CollectionView>)
    requires cipher.organizationId.Some? && cipher.organizationId.value != "" && |cipher.collectionIds| > 0
    requires |Considered(collections, cipher.collectionIds)| > 1
    ensures var filtered := Considered(collections, cipher.collectionIds);
            PermissionText(cipher, collections).Some? ==>
              exists c :: c in filtered && c.labelId == PermissionText(cipher, collections)
    ensures var filtered := Considered(collections, cipher.collectionIds);
            PermissionText(cipher, collections).None? <==>
              forall c, k :: c in filtered && 0 <= k < |PermissionPriority| ==> c.labelId != Some(PermissionPriority[k])
  {
    var filtered := Considered(collections, cipher.collectionIds);
    var labels := Labels(filtered);
    assert PermissionText(cipher, collections) == HighestFrom(labels, 0);
    if PermissionText(cipher, collections).Some? {
      var k :| 0 <= k < |PermissionPriority| && PermissionText(cipher, collections) == Some(PermissionPriority[k])
               && Some(PermissionPriority[k]) in labels;
      var i :| 0 <= i < |labels| && labels[i] == Some(PermissionPriority[k]);
      assert filtered[i] in filtered;
    } else {
      forall c, k | c in filtered && 0 <= k < |PermissionPriority|
        ensures c.labelId != Some(PermissionPriority[k])
      {
        var i :| 0 <= i < |filtered| && filtered[i] == c;
        assert labels[i] == c.labelId;
      }
    }
  }

  // ---------------------------------------------------------------------
  // Controls
  // ---------------------------------------------------------------------

  /** `ngOnInit`: the organization with the item's id, when it has one. */
  function OrganizationOf(organizations: seq<Organization>, organizationId: Option<string>): (r: Option<Organization>)
    ensures r.Some? ==> r.value in organizations && organizationId == Some(r.value.id)
    ensures organizationId.Some? && r.None? ==> forall o :: o in organizations ==> o.id != organizationId.value
  {
    if organizationId.None? || |organizations| == 0 then None
    else if organizations[0].id == organizationId.value then Some(organizations[0])
    else OrganizationOf(organizations[1..], organizationId)
  }

  /** The organization found is the first one with the item's id. */
  lemma {:induction false} OrganizationOfIsFirst(organizations: seq<Organization>, organizationId: string, k: nat)
    requires k < |organizations| && organizations[k].id == organizationId
    requires forall j :: 0 <= j < k ==> organizations[j].id != organizationId
    ensures OrganizationOf(organizations, Some(organizationId)) == Some(organizations[k])
  {
    if k > 0 {
      OrganizationOfIsFirst(organizations[1..], organizationId, k - 1);
    }
  }

  /** `showCheckbox` */
  function ShowCheckbox(viewingOrgVault: bool, organization: Option<Organization>, cipher: Cipher): (r: bool)
    ensures !viewingOrgVault || organization.None? ==> r
    ensures viewingOrgVault && organization.Some? && !organization.value.canEditAllCiphers ==> (r <==> cipher.edit && cipher.viewPassword)
  {
    if !viewingOrgVault || organization.None? then true
    else organization.value.canEditAllCiphers || (cipher.edit && cipher.viewPassword)
  }

  /** `showFixOldAttachments`: only items of the individual vault. */
  function ShowFixOldAttachments(cipher: Cipher): (r: bool)
    ensures r ==> cipher.organizationId.None? && cipher.hasOldAttachments
  {
    cipher.hasOldAttachments && cipher.organizationId.None?
  }

  /** `isNotDeletedLoginCipher`: a login not in the trash. */
  predicate IsNotDeletedLoginCipher(facts: CipherFacts) {
    facts.cipherType == Login && !facts.isDeleted
  }

  /** `showCopyUsername` */
  predicate ShowCopyUsername(facts: CipherFacts) {
    IsNotDeletedLoginCipher(facts) && facts.hasCopyableUsername
  }

  /** `showCopyPassword`: a live login whose password the user may see. */
  function ShowCopyPassword(cipher: Cipher, facts: CipherFacts): (r: bool)
    ensures r ==> facts.cipherType == Login && !facts.isDeleted && cipher.viewPassword && facts.hasCopyablePassword
  {
    IsNotDeletedLoginCipher(facts) && cipher.viewPassword && facts.hasCopyablePassword
  }

  /** `showCopyTotp`, with `showTotpCopyButton` folded in: a TOTP seed and either the organization's TOTP feature or premium. */
  predicate ShowCopyTotp(cipher: Cipher, facts: CipherFacts, inputs: RowInputs) {
    IsNotDeletedLoginCipher(facts) && facts.hasTotp && (cipher.organizationUseTotp || inputs.showPremiumFeatures)
  }

  /** `showLaunchUri` */
  predicate ShowLaunchUri(facts: CipherFacts) {
    IsNotDeletedLoginCipher(facts) && facts.canLaunch
  }

  /** `isDeletedCanRestore` */
  predicate IsDeletedCanRestore(facts: CipherFacts, inputs: RowInputs) {
    facts.isDeleted && inputs.canRestoreCipher
  }

  /** `showAttachments` */
  predicate ShowAttachments(facts: CipherFacts, inputs: RowInputs) {
    inputs.canEditCipher || facts.hasAttachments
  }

  /** `showClone` */
  predicate ShowClone(facts: CipherFacts, inputs: RowInputs) {
    inputs.cloneable && !facts.isDeleted
  }

  /** `showShare`: some organization to share into, and the item not deleted. */
  predicate ShowShare(facts: CipherFacts, inputs: RowInputs) {
    inputs.organizationCount > 0 && !facts.isDeleted
  }

  /** The copy and launch actions are for live logins only, and a deleted
      item offers none of them, nor cloning or sharing; restoring is offered
      only for a deleted item. */
  lemma RowActionsOfDeletedOrOtherTypes(cipher: Cipher, facts: CipherFacts, inputs: RowInputs)
    ensures ShowCopyUsername(facts) || ShowCopyPassword(cipher, facts) || ShowCopyTotp(cipher, facts, inputs) || ShowLaunchUri(facts)
            ==> IsNotDeletedLoginCipher(facts)
    ensures facts.isDeleted ==> !ShowClone(facts, inputs) && !ShowShare(facts, inputs) && !IsNotDeletedLoginCipher(facts)
    ensures IsDeletedCanRestore(facts, inputs) <==> facts.isDeleted && inputs.canRestoreCipher
    ensures inputs.canEditCipher ==> ShowAttachments(facts, inputs)
  {
  }

  /** `hideMenu` */
  predicate HideMenu(cipher: Cipher, facts: CipherFacts, inputs: RowInputs) {
    !(IsDeletedCanRestore(facts, inputs)
      || ShowCopyUsername(facts)
      || ShowCopyPassword(cipher, facts)
      || ShowCopyTotp(cipher, facts, inputs)
      || ShowLaunchUri(facts)
      || ShowAttachments(facts, inputs)
      || ShowClone(facts, inputs)
      || ShowShare(facts, inputs)
      || inputs.canEditCipher
      || (facts.isDeleted && inputs.canRestoreCipher))
  }

  /** The entries the row's menu can hold. */
  datatype MenuAction = Restore | CopyUsername | CopyPassword | CopyTotp | LaunchUri | Attachments | Clone | Share | Edit

  /** The entries offered for the row. */
  function MenuActions(cipher: Cipher, facts: CipherFacts, inputs: RowInputs): set<MenuAction> {
    (if facts.isDeleted && inputs.canRestoreCipher then {Restore} else {})
    + (if ShowCopyUsername(facts) then {CopyUsername} else {})
    + (if ShowCopyPassword(cipher, facts) then {CopyPassword} else {})
    + (if ShowCopyTotp(cipher, facts, inputs) then {CopyTotp} else {})
    + (if ShowLaunchUri(facts) then {LaunchUri} else {})
    + (if ShowAttachments(facts, inputs) then {Attachments} else {})
    + (if ShowClone(facts, inputs) then {Clone} else {})
    + (if ShowShare(facts, inputs) then {Share} else {})
    + (if inputs.canEditCipher then {Edit} else {})
  }

  /** The menu is hidden exactly when it would be empty; being allowed to
      edit the item is enough to show it. */
  lemma HideMenuIffNoActions(cipher: Cipher, facts: CipherFacts, inputs: RowInputs)
    ensures HideMenu(cipher, facts, inputs) <==> MenuActions(cipher, facts, inputs) == {}
    ensures inputs.canEditCipher ==> !HideMenu(cipher, facts, inputs)
  {
    var actions := MenuActions(cipher, facts, inputs);
    if !HideMenu(cipher, facts, inputs) {
      if inputs.canEditCipher { assert Edit in actions; }
      else if facts.isDeleted && inputs.canRestoreCipher { assert Restore in actions; }
      else if ShowCopyUsername(facts) { assert CopyUsername in actions; }
      else if ShowCopyPassword(cipher, facts) { assert CopyPassword in actions; }
      else if ShowCopyTotp(cipher, facts, inputs) { assert CopyTotp in actions; }
      else if ShowLaunchUri(facts) { assert LaunchUri in actions; }
      else if ShowAttachments(facts, inputs) { assert Attachments in actions; }
      else if ShowClone(facts, inputs) { assert Clone in actions; }
      else { assert Share in actions; }
    }
  }
}
