# Restricted item types, sharing and vault display rules: a Dafny model

This project models the rule-bearing core of several parts of the Bitwarden web vault and proves properties of it.

- **Restricted-item-types policy evaluator** (`RestrictedItemTypesService`). This is the vault service that decides which cipher types a user may not view. It has four parts:
  - It decodes each organization policy's `data` tolerantly.
  - It unions the decoded lists, removing duplicates.
  - For each restricted type, it lists the organizations that still allow viewing it.
  - It decides, per cipher, whether the cipher is restricted.

  The observable pipeline becomes a plain function of the feature flag, the optional active user, the organizations and the enabled policies.
- **Restricted-item-types policy form** (`RestrictedItemTypesPolicy`). This is the admin-console form with one checkbox per restrictable type. The form is loaded from a stored payload and builds the request payload back. The model proves the round trip through the service's decoder.
- **Share modal** (`ShareModal`). This is the dialog that shares one item by creating a collection. It has five parts:
  - It decodes stored grant flags into a permission level.
  - It builds user and group permission maps and compares them.
  - Before creating anything, it looks for an existing collection with the same grants that the user may reshare.
  - Its `submit` guard state machine decides whether a submit runs.
  - It generates the collection name and adds the new collection id to the item.
- **Date picker** (`DatePicker`, with `JsDate` for the calendar). This covers five parts:
  - the MM/DD/YYYY auto-slash formatter
  - the keystroke filter
  - the two date text formats and their parser
  - the day/month/year navigation state machine
  - the input handler
- **Vault rows** (`VaultCipherRow`, `VaultFolderRow`) and the **collection badge** (`CollectionNameBadge`). These are small display rules:
  - the strongest permission label of a cipher row, and its menu and checkbox visibility
  - a folder row's display name and tooltip path
  - the badge's "two shown, plus N more" truncation

`Text` holds the JavaScript string operations the sources rely on: `split`, `join`, `trim`, `padStart`, number-to-string and `parseInt`.

Every JavaScript `Date(year, month, day)` built by the date picker goes through `JsDate.MakeDate`. It rolls an out-of-range day or month into the neighbouring month or year. Like JavaScript, it reads years 0 to 99 as 1900 to 1999.

Three places where the model follows the code rather than the prose around it:

- **`folderPath` of "/x".** Read as a sentence, `folderPath` looks empty exactly for names without '/'. The code also gives "" for a name like "/x", whose parent segment is empty. `VaultFolderRow.FolderPathEmptyIff` states the exact condition, and `VaultFolderRow.LeadingSlashHasEmptyPath` gives the example.
- **Collections with the empty id.** The cipher row's collection filter uses the value returned by `find` as a condition, so a collection whose id is the empty string is never counted (`VaultCipherRow.Considered`).
- **Order of the name checks.** `getFirstNameOrFallback` checks for a blank name before splitting. So the first word it splits off is never empty, and its second email fallback cannot be reached (`ShareModal.FirstNameOrFallback`).

## Model

| member | source | states |
|---|---|---|
| Seqs.Filtered | libs/common/src/vault/services/restricted-item-types.service.ts:95-103 | `filter`: exactly the elements that pass are kept, and the result is no longer than the input. |
| Seqs.FilteredMultiplicity | libs/common/src/vault/services/restricted-item-types.service.ts:95-103 | An element that passes is kept as many times as it occurs in the input; one that fails is dropped every time. |
| Seqs.FilteredAppend | libs/common/src/vault/services/restricted-item-types.service.ts:95-103 | Filtering a concatenation gives the concatenation of the filtered parts, and one element is kept iff it passes. So the kept elements stay in input order. |
| RestrictedItemTypesService.RestrictedTypes | libs/common/src/vault/services/restricted-item-types.service.ts:49-85 | Falsy data, an unparseable string, a number or boolean, an object with neither key, and a null key value all decode to []. An array is returned as it is. `RestrictedItemTypes` is read before `restrictedItemTypes`. |
| RestrictedItemTypesService.AllShapesDecodeAlike | libs/common/src/vault/services/restricted-item-types.service.ts:56-82 | The array, either keyed object, and JSON text parsing to any of them all decode to the same list. |
| RestrictedItemTypesService.UpperKeyTakesPrecedence | libs/common/src/vault/services/restricted-item-types.service.ts:70-82 | With both keys present, the capitalised key's list is the result. |
| RestrictedItemTypesService.AllDecoded | libs/common/src/vault/services/restricted-item-types.service.ts:89 | A type occurs in the flattened list iff some policy's decoded list holds it. |
| RestrictedItemTypesService.AllDecodedAppend | libs/common/src/vault/services/restricted-item-types.service.ts:89 | `flatMap` goes policy by policy: the list of a concatenation is the concatenation of the lists, and one policy contributes exactly its decoded list. |
| RestrictedItemTypesService.Dedup | libs/common/src/vault/services/restricted-item-types.service.ts:88-90 | Same elements as the input, with no duplicates. |
| RestrictedItemTypesService.DedupKeepsFirstOccurrenceOrder | libs/common/src/vault/services/restricted-item-types.service.ts:88-90 | The deduplicated list keeps first-occurrence order, as `Array.from(new Set(...))` does. |
| RestrictedItemTypesService.AllRestrictedTypes | libs/common/src/vault/services/restricted-item-types.service.ts:88-90 | The union has no duplicates, holds exactly the types listed by some policy, and is in first-occurrence order. |
| RestrictedItemTypesService.FirstPolicyOf | libs/common/src/vault/services/restricted-item-types.service.ts:96 | None iff no policy has the organization's id; otherwise a policy of that organization (the first one: `FirstPolicyOfIsFirst`). |
| RestrictedItemTypesService.OrgAllows | libs/common/src/vault/services/restricted-item-types.service.ts:95-100 | An organization allows the type when it has no policy or its first policy does not list the type. `AllowViewOrgIds` and `OrgCipherRestrictedIffOwnPolicyLists` state what follows from it. |
| RestrictedItemTypesService.FirstPolicyOfIsFirst | libs/common/src/vault/services/restricted-item-types.service.ts:96 | If index k holds the first policy of the organization, the policy found is the one at index k. |
| RestrictedItemTypesService.AllowViewOrgIds | libs/common/src/vault/services/restricted-item-types.service.ts:94-104 | An organization is listed iff it has no policy, or its first policy does not list the type. The list is no longer than the input. |
| RestrictedItemTypesService.AllowViewOrgIdsInOrder | libs/common/src/vault/services/restricted-item-types.service.ts:94-104 | The allow list keeps the organizations' order and repetitions. The list of a concatenation is the concatenation of the lists. A single organization is listed iff it allows the type. An allowing organization occurs as often as in the input, and any other never. |
| RestrictedItemTypesService.Aggregate | libs/common/src/vault/services/restricted-item-types.service.ts:92-107 | One entry per restricted type, in union order, each carrying that type's allowing organizations. |
| RestrictedItemTypesService.Restricted | libs/common/src/vault/services/restricted-item-types.service.ts:31-110 | Empty when the flag is off or no user is active. Otherwise exactly the aggregation over the organizations and policies: one entry per distinct restricted type, and no type appears twice. |
| RestrictedItemTypesService.RestrictedAsWritten | libs/common/src/vault/services/restricted-item-types.service.ts:36-47 | As written, the no-user branch flows into the destructuring map and errors instead of emitting []. |
| RestrictedItemTypesService.NoUserDiscrepancy | libs/common/src/vault/services/restricted-item-types.service.ts:38-47 | The as-written pipeline errors with the flag on and no user, where the corrected one emits []. Both agree on every other input. |
| RestrictedItemTypesService.FindRestriction | libs/common/src/vault/services/restricted-item-types.service.ts:138 | None iff no entry has the type; otherwise an entry of that type (the first one: `FindRestrictionIsFirst`). |
| RestrictedItemTypesService.FindRestrictionIsFirst | libs/common/src/vault/services/restricted-item-types.service.ts:138 | If index k holds the first entry of the type, the entry found is the one at index k. |
| RestrictedItemTypesService.IsCipherRestricted | libs/common/src/vault/services/restricted-item-types.service.ts:136-153 | False when no entry matches the type, whatever the owner. True for an individual item of a listed type. For an organization item, true iff the organization is absent from the entry's allow list. |
| RestrictedItemTypesService.FindInAggregate | libs/common/src/vault/services/restricted-item-types.service.ts:92-107 | The entry found for a restricted type is that type with its allowing organizations. |
| RestrictedItemTypesService.OrgCipherRestrictedIffOwnPolicyLists | libs/common/src/vault/services/restricted-item-types.service.ts:146-149 | An organization's item is restricted iff its organization's first policy lists the type. |
| RestrictedItemTypesService.IndividualCipherRestrictedIffAnyPolicyLists | libs/common/src/vault/services/restricted-item-types.service.ts:151-152 | An individual item is restricted iff any policy lists its type. |
| RestrictedItemTypesService.TwoOrganizationScenario | libs/common/src/vault/services/restricted-item-types.service.ts:94-104 | Organizations [A, B] with a Card policy only for A yield [{Card, [B]}]. A's card is restricted and B's is not. |
| RestrictedItemTypesService.TwoOrganizationInputs | libs/common/src/vault/services/restricted-item-types.service.ts:94-104 | With one Card policy for A, Card is the only restricted type and only B still allows viewing cards. |
| RestrictedItemTypesService.CardsViewableThroughB | libs/common/src/vault/services/restricted-item-types.service.ts:136-153 | With Card viewable only through B, A's card is restricted and B's is not. |
| RestrictedItemTypesPolicy.AvailableTypes | apps/web/src/app/admin-console/organizations/policies/restricted-item-types.component.ts:37-42 | The offered types, in the form's order. |
| RestrictedItemTypesPolicy.AvailableTypesFacts | apps/web/src/app/admin-console/organizations/policies/restricted-item-types.component.ts:36-42 | The offered types are Card, Identity, SecureNote and SshKey. Login is not among them. The types and their control names are distinct. |
| RestrictedItemTypesPolicy.ControlName | apps/web/src/app/admin-console/organizations/policies/restricted-item-types.component.ts:51-53 | `restrictedType_` followed by the type's number. `AvailableTypesFacts` states that the offered types' names are distinct, and `ControlNamesOfExact` which names the form holds. |
| RestrictedItemTypesPolicy.ControlNamesOf | apps/web/src/app/admin-console/organizations/policies/restricted-item-types.component.ts:51-53 | Every type's `restrictedType_<type>` name is among the names. |
| RestrictedItemTypesPolicy.ControlNamesOfExact | apps/web/src/app/admin-console/organizations/policies/restricted-item-types.component.ts:51-53 | A name is among them iff some type has it. |
| RestrictedItemTypesPolicy.UncheckedControls | apps/web/src/app/admin-console/organizations/policies/restricted-item-types.component.ts:50-53 | One control per type's name, all false. |
| RestrictedItemTypesPolicy.InitialControls | apps/web/src/app/admin-console/organizations/policies/restricted-item-types.component.ts:48-55 | Exactly the offered types' controls, all unchecked. |
| RestrictedItemTypesPolicy.LoadInto | apps/web/src/app/admin-console/organizations/policies/restricted-item-types.component.ts:66-70 | Loading creates no control and removes none. |
| RestrictedItemTypesPolicy.StoredTypes | apps/web/src/app/admin-console/organizations/policies/restricted-item-types.component.ts:62-63 | The `restrictedItemTypes` list of the payload, or [] without the key. `LoadIntoSetsEachControl` and `LoadThenBuildRoundTrip` state what loading does with it. |
| RestrictedItemTypesPolicy.LoadIntoSetsEachControl | apps/web/src/app/admin-console/organizations/policies/restricted-item-types.component.ts:66-70 | After loading, each offered type's control says whether the stored list holds the type. |
| RestrictedItemTypesPolicy.CheckedAmong | apps/web/src/app/admin-console/organizations/policies/restricted-item-types.component.ts:78-83 | A type is collected iff it is offered and its control exists and is checked. |
| RestrictedItemTypesPolicy.CheckedAmongDistinct | apps/web/src/app/admin-console/organizations/policies/restricted-item-types.component.ts:78-83 | Collecting from distinct types yields no duplicates. |
| RestrictedItemTypesPolicy.CheckedAfterLoad | apps/web/src/app/admin-console/organizations/policies/restricted-item-types.component.ts:60-86 | Reading back controls set from a list selects the offered types in that list, in form order. |
| RestrictedItemTypesPolicy.LoadThenBuildRoundTrip | apps/web/src/app/admin-console/organizations/policies/restricted-item-types.component.ts:60-86 | Loading stored data into a fresh form and building the request gives the offered types, in order, that the stored `restrictedItemTypes` lists. |
| RestrictedItemTypesPolicy.DecoderReadsRequest | apps/web/src/app/admin-console/organizations/policies/restricted-item-types.component.ts:85 | The service's decoder reads the request payload back as the same list. |
| RestrictedItemTypesPolicy.RequestPayload | apps/web/src/app/admin-console/organizations/policies/restricted-item-types.component.ts:85 | The object `{ restrictedItemTypes }` sent to the server. `DecoderReadsRequest` states that the service decodes it back to the same list. |
| RestrictedItemTypesPolicy.RestrictedItemTypesPolicyComponent.constructor | apps/web/src/app/admin-console/organizations/policies/restricted-item-types.component.ts:44-46 | No form exists before initialisation. |
| RestrictedItemTypesPolicy.RestrictedItemTypesPolicyComponent.NgOnInit | apps/web/src/app/admin-console/organizations/policies/restricted-item-types.component.ts:48-58 | The form holds exactly one unchecked control per offered type. |
| RestrictedItemTypesPolicy.RestrictedItemTypesPolicyComponent.LoadData | apps/web/src/app/admin-console/organizations/policies/restricted-item-types.component.ts:60-72 | Falsy data, or no form, changes nothing. Otherwise each offered type's control is set to membership in `restrictedItemTypes`, with a missing key read as empty. |
| RestrictedItemTypesPolicy.RestrictedItemTypesPolicyComponent.BuildRequestData | apps/web/src/app/admin-console/organizations/policies/restricted-item-types.component.ts:74-86 | The checked offered types, in form order. The result has no duplicates and never holds Login. |
| RestrictedItemTypesPolicy.LoadAndResubmit | apps/web/src/app/admin-console/organizations/policies/restricted-item-types.component.ts:48-86 | Initialise, load and build yields the stored selection among the offered types, and the decoder reads it back unchanged. |
| ShareModal.ConvertCollectionAccessToPermission | apps/web/src/app/vault/components/share-modal/share-modal.component.ts:560-579 | Manage iff `manage`. A view level iff readOnly without manage. An except-passwords level iff hidePasswords without manage. |
| ShareModal.DecodeGrantOf | apps/web/src/app/vault/components/share-modal/share-modal.component.ts:560-579 | Every permission level is the decoding of some flag combination. |
| ShareModal.LevelOf | apps/web/src/app/vault/components/share-modal/share-modal.component.ts:522-524 | A missing permission reads as View. `ProposedLastEntryWins` states the level an id gets. |
| ShareModal.ProposedKeys | apps/web/src/app/vault/components/share-modal/share-modal.component.ts:514-531 | An id is in the users (groups) map iff some Member (Group) entry has it. Collection entries go nowhere. |
| ShareModal.ProposedPermissionSet | apps/web/src/app/vault/components/share-modal/share-modal.component.ts:514-531 | The users and groups maps of the access list. `ProposedKeys` and `ProposedLastEntryWins` state their keys and levels. |
| ShareModal.ProposedLastEntryWins | apps/web/src/app/vault/components/share-modal/share-modal.component.ts:514-531 | An id's level is its last entry's permission, and a missing permission is View. |
| ShareModal.AccessMap | apps/web/src/app/vault/components/share-modal/share-modal.component.ts:540-555 | The map's keys are exactly the grant ids. |
| ShareModal.AccessMapLastWins | apps/web/src/app/vault/components/share-modal/share-modal.component.ts:540-555 | An id maps to the decoding of its last grant. |
| ShareModal.CollectionPermissionSet | apps/web/src/app/vault/components/share-modal/share-modal.component.ts:533-558 | The decoded maps of a collection's users and groups. `AccessMap` and `AccessMapLastWins` state their keys and levels. |
| ShareModal.SameGrants | apps/web/src/app/vault/components/share-modal/share-modal.component.ts:586-604 | Same size and the same level for each key of the first map. `SameGrantsIffEqual` shows this is map equality. |
| ShareModal.PermissionSetsEqual | apps/web/src/app/vault/components/share-modal/share-modal.component.ts:581-605 | Both the users and the groups maps agree by `SameGrants`. `PermissionSetsEqualIffSame` states what that means. |
| ShareModal.SameGrantsIffEqual | apps/web/src/app/vault/components/share-modal/share-modal.component.ts:581-605 | Same size and the same level for every key iff the maps are equal. |
| ShareModal.PermissionSetsEqualIffSame | apps/web/src/app/vault/components/share-modal/share-modal.component.ts:581-605 | Permission-set equality is equality of both maps. It is reflexive and symmetric. |
| ShareModal.ChangedLevelBreaksEquality | apps/web/src/app/vault/components/share-modal/share-modal.component.ts:581-605 | Changing one user's level makes the sets unequal. |
| ShareModal.FindAccess | apps/web/src/app/vault/components/share-modal/share-modal.component.ts:497 | None iff no grant has the id; otherwise a grant with it. |
| ShareModal.FindAccessFirst | apps/web/src/app/vault/components/share-modal/share-modal.component.ts:497 | The grant found is the first with the id. |
| ShareModal.CanUserShareInCollection | apps/web/src/app/vault/components/share-modal/share-modal.component.ts:491-512 | The user's direct grant decides. `CanShareIffFirstGrant` states when sharing is allowed. |
| ShareModal.CanShareIffFirstGrant | apps/web/src/app/vault/components/share-modal/share-modal.component.ts:491-512 | True iff there is a current user whose first direct grant decodes to Manage or Edit. Group grants never matter. With no user, false. |
| ShareModal.IsDuplicate | apps/web/src/app/vault/components/share-modal/share-modal.component.ts:478-486 | A collection the user may reshare whose grants equal the proposed ones. `FirstDuplicate` and `FirstDuplicateIsFirst` state the search built on it. |
| ShareModal.FirstDuplicate | apps/web/src/app/vault/components/share-modal/share-modal.component.ts:472-489 | A found collection is in the list, reshareable, and has equal grants. None iff no collection qualifies. |
| ShareModal.FirstDuplicateIsFirst | apps/web/src/app/vault/components/share-modal/share-modal.component.ts:472-489 | The collection found is the first that qualifies. |
| ShareModal.EmailPrefix | apps/web/src/app/vault/components/share-modal/share-modal.component.ts:359 | The email's text before its first '@', or all of it. |
| ShareModal.FirstNameOrFallback | apps/web/src/app/vault/components/share-modal/share-modal.component.ts:356-365 | A blank name gives the email's local part. Otherwise the result is the first word of the trimmed name, non-empty and space-free. |
| ShareModal.Sharees | apps/web/src/app/vault/components/share-modal/share-modal.component.ts:310 | Exactly the entries whose id is not the current user's, and no more entries than the list has. Order and repetitions: `ShareesInOrder`. |
| ShareModal.ShareesInOrder | apps/web/src/app/vault/components/share-modal/share-modal.component.ts:310 | The sharees keep the access list's order and repetitions. The sharees of a concatenation are the concatenated sharees. A single entry is a sharee iff its id is not the user's. A sharee occurs as often as in the list. |
| ShareModal.FindAccessItem | apps/web/src/app/vault/components/share-modal/share-modal.component.ts:323-331 | None iff no item has both the id and the type; otherwise such an item (the first one: `FindAccessItemIsFirst`). |
| ShareModal.FindAccessItemIsFirst | apps/web/src/app/vault/components/share-modal/share-modal.component.ts:323-331 | If index k holds the first item with the id and type, the item found is the one at index k. |
| ShareModal.ShareeName | apps/web/src/app/vault/components/share-modal/share-modal.component.ts:319-337 | A group's label, "Unknown Group", a member's first name, or "Unknown User". `ShareeNames` states how the names line up with the sharees. |
| ShareModal.ShareeNames | apps/web/src/app/vault/components/share-modal/share-modal.component.ts:320-337 | One name per sharee, in order: a group label, a member's first name, or an "Unknown" placeholder. |
| ShareModal.ShareePart | apps/web/src/app/vault/components/share-modal/share-modal.component.ts:339-350 | The sharee part of the name by count. `ShareePartIsListing` states what it lists. |
| ShareModal.Listing | apps/web/src/app/vault/components/share-modal/share-modal.component.ts:339-350 | An English list of the names, defined by itself. `ListingOfSeveral` relates it to the source's join. |
| ShareModal.ListingOfSeveral | apps/web/src/app/vault/components/share-modal/share-modal.component.ts:345-347 | A list of two or more names is all but the last joined with ", ", then " & " and the last. |
| ShareModal.ShareePartOfFew | apps/web/src/app/vault/components/share-modal/share-modal.component.ts:341-347 | With one to five names, the sharee part lists every name, in order. |
| ShareModal.ShareePartOfMany | apps/web/src/app/vault/components/share-modal/share-modal.component.ts:348-349 | With more than five names, the sharee part lists the first three names and then "n others", with n the count less three. |
| ShareModal.ShareePartIsListing | apps/web/src/app/vault/components/share-modal/share-modal.component.ts:339-350 | Up to five names: all of them, in order. Beyond five: the first three, then "n others" with n = count − 3. |
| ShareModal.GenerateCollectionName | apps/web/src/app/vault/components/share-modal/share-modal.component.ts:302-354 | The generated name. `GeneratedNameIsDefaultIffNoSharees` and `GeneratedNameListsSharees` state it. |
| ShareModal.GeneratedNameIsDefaultIffNoSharees | apps/web/src/app/vault/components/share-modal/share-modal.component.ts:302-354 | "Shared Collection" iff there is no current user or nobody else is in the access list. |
| ShareModal.GeneratedNameListsSharees | apps/web/src/app/vault/components/share-modal/share-modal.component.ts:306-352 | With a user and at least one sharee, the name is the user's first name, " + ", and the listing of the sharees' names in access-list order: all of them up to five, otherwise the first three and "n others" with n = count − 3. |
| ShareModal.EntriesOfType | apps/web/src/app/vault/components/share-modal/share-modal.component.ts:453-461 | Exactly the entries of the given type, no more entries than the list has, in the list's order (it is `Seqs.Filtered`, whose laws `FilteredAppend` and `FilteredMultiplicity` state). |
| ShareModal.CollectionRequest | apps/web/src/app/vault/components/share-modal/share-modal.component.ts:435-470 | The request `createCollection` sends. `CollectionRequestFacts` states its fields. |
| ShareModal.CollectionRequestFacts | apps/web/src/app/vault/components/share-modal/share-modal.component.ts:435-470 | The request carries the organization. A name that is not blank is kept, and a blank one is replaced by the generated name. Users are exactly the Member entries and groups exactly the Group entries. |
| ShareModal.AddCollectionId | apps/web/src/app/vault/components/share-modal/share-modal.component.ts:283-299 | No save iff the id is present. Otherwise the old list with the id appended. |
| ShareModal.AddCollectionIdIdempotent | apps/web/src/app/vault/components/share-modal/share-modal.component.ts:283-299 | A second assignment to the same collection saves nothing, and the ids stay distinct. |
| ShareModal.AssignOrganizationItem | apps/web/src/app/vault/components/share-modal/share-modal.component.ts:276-299 | Either no save or a save. No save iff the id is already present. A save carries the old ids with the new id appended. |
| ShareModal.AssignCipherToCollectionAsWritten | apps/web/src/app/vault/components/share-modal/share-modal.component.ts:630-664 | Fails iff the item belongs to an organization and no collection loaded at opening has the id. Otherwise it is the intended assignment. |
| ShareModal.NewCollectionAssignmentFails | apps/web/src/app/vault/components/share-modal/share-modal.component.ts:655-661 | As written, assigning an organization item to a collection not loaded at opening throws. |
| ShareModal.AssignCipherToCollection | apps/web/src/app/vault/components/share-modal/share-modal.component.ts:630-664 | Never fails. An individual item is shared into the organization with exactly the new collection. An organization item is never shared: no save iff the id is already present, otherwise its ids with the new one appended. |
| ShareModal.AssignmentAgreesWhenLoaded | apps/web/src/app/vault/components/share-modal/share-modal.component.ts:655-661 | For a collection loaded at opening, the as-written and corrected assignments agree. |
| ShareModal.ShareModalComponent.constructor | apps/web/src/app/vault/components/share-modal/share-modal.component.ts:114-187 | Without an organization the dialog stays loading with empty lists. Otherwise it is loaded, with the current user (if found) in the access list as Manage. |
| ShareModal.ShareModalComponent.SetForm | apps/web/src/app/vault/components/share-modal/share-modal.component.ts:77-80 | The form holds the typed name and access list. |
| ShareModal.ShareModalComponent.CanSave | apps/web/src/app/vault/components/share-modal/share-modal.component.ts:188-196 | Whether the form allows saving. `Submit` and `BeginSubmit` state what it gates. |
| ShareModal.ShareModalComponent.GetCurrentPermissionSet | apps/web/src/app/vault/components/share-modal/share-modal.component.ts:514-531 | Its loop builds the proposed permission set of the access list. |
| ShareModal.ShareModalComponent.GetCollectionPermissionSet | apps/web/src/app/vault/components/share-modal/share-modal.component.ts:533-558 | The collection's decoded user and group maps, with absent lists read as empty. |
| ShareModal.ShareModalComponent.FillAccessMap | apps/web/src/app/vault/components/share-modal/share-modal.component.ts:540-555 | Its loop builds the decoded map of the grants. |
| ShareModal.ShareModalComponent.ArePermissionSetsEqual | apps/web/src/app/vault/components/share-modal/share-modal.component.ts:581-605 | True iff the two permission sets are equal. |
| ShareModal.ShareModalComponent.SameEntries | apps/web/src/app/vault/components/share-modal/share-modal.component.ts:586-604 | The size check and the key loop decide same size with the same level for every key. |
| ShareModal.ShareModalComponent.FindCollectionWithSamePermissions | apps/web/src/app/vault/components/share-modal/share-modal.component.ts:472-489 | Its early-return loop finds the first reshareable collection with equal grants. |
| ShareModal.ShareModalComponent.Blocked | apps/web/src/app/vault/components/share-modal/share-modal.component.ts:368-375 | No `canSave`, a submit in flight, or the existing-collection step showing. `BeginSubmit` states that a blocked submit changes nothing. |
| ShareModal.ShareModalComponent.BeginSubmit | apps/web/src/app/vault/components/share-modal/share-modal.component.ts:367-389 | The part of `submit` before its first `await`. A blocked submit returns and changes nothing. A duplicate opens the existing-collection step with it, with `submitting` false. Otherwise `submitting` is raised and the request is built from the form. |
| ShareModal.ShareModalComponent.FinishSubmit | apps/web/src/app/vault/components/share-modal/share-modal.component.ts:389-431 | The part after `createCollection` answers. Without an organization or a saved id, creation fails and nothing is recorded. With an id, the item is assigned to it, the id is recorded and sharing completes, with a warning outcome when the server refuses the assignment. `submitting` ends false. |
| ShareModal.ShareModalComponent.Submit | apps/web/src/app/vault/components/share-modal/share-modal.component.ts:367-433 | Without `canSave`, while submitting, or on the existing-collection step, nothing changes. On a duplicate, the step opens with it and nothing is created. Otherwise the request built from the form is sent. If the save fails, nothing is recorded. If it succeeds, the item is assigned to the new collection and sharing completes. `submitting` ends false. |
| ShareModal.SubmitAgainAfterDuplicate | apps/web/src/app/vault/components/share-modal/share-modal.component.ts:367-384 | After a duplicate is offered, a second submit is ignored and creates nothing. |
| ShareModal.SubmitWhileCreating | apps/web/src/app/vault/components/share-modal/share-modal.component.ts:367-431 | A second submit while the first awaits `createCollection` is ignored by the `submitting` guard. The first then finishes exactly as if it had run alone. |
| DatePicker.Cleaned | libs/components/src/date-picker/date-picker.component.ts:480 | Only digits and '/' remain, with the digits unchanged. |
| DatePicker.FormatStep | libs/components/src/date-picker/date-picker.component.ts:485-505 | One loop iteration. `FormatShaped` and `FormatKeepsFirstEightDigits` state what the loop builds. |
| DatePicker.FormatRun | libs/components/src/date-picker/date-picker.component.ts:484-505 | The loop variables after a prefix of the input. `FormatRunStops` states the 10-character stop. |
| DatePicker.Format | libs/components/src/date-picker/date-picker.component.ts:478-508 | `formatAndValidateInput`. `FormatShaped`, `FormatKeepsFirstEightDigits` and `FormatIdempotent` state it. |
| DatePicker.FormatShaped | libs/components/src/date-picker/date-picker.component.ts:478-508 | The output has at most 10 characters, all digits or '/', with '/' only at index 2 or 5. |
| DatePicker.FormatKeepsFirstEightDigits | libs/components/src/date-picker/date-picker.component.ts:480-505 | The output's digits are the input's first eight digits, in order. |
| DatePicker.FormatRunStops | libs/components/src/date-picker/date-picker.component.ts:484 | Once the result reaches 10 characters, the rest of the input is ignored. |
| DatePicker.FormatOfShaped | libs/components/src/date-picker/date-picker.component.ts:478-508 | Already shaped text is left unchanged. |
| DatePicker.FormatIdempotent | libs/components/src/date-picker/date-picker.component.ts:478-508 | Formatting formatted text changes nothing. |
| DatePicker.FormatAndValidateInput | libs/components/src/date-picker/date-picker.component.ts:478-508 | The loop computes the formatter's result, which is shaped. |
| DatePicker.KeyAccepted | libs/components/src/date-picker/date-picker.component.ts:296-320 | Whether `onKeyDown` lets a key through. `EditingKeysAndNonDigits` and `DigitKey` state its cases. |
| DatePicker.DigitAccepted | libs/components/src/date-picker/date-picker.component.ts:322-360 | The position rules for a digit. `MonthDigitsAccepted`, `DayDigitsAccepted`, `YearFirstDigitAccepted` and `AnyDigitElsewhere` state them. |
| DatePicker.DigitKey | libs/components/src/date-picker/date-picker.component.ts:316-360 | A one-digit key is judged by the position rules alone. |
| DatePicker.EditingKeysAndNonDigits | libs/components/src/date-picker/date-picker.component.ts:298-320 | Editing and navigation keys always pass. A key without a digit never does. |
| DatePicker.AnyDigitElsewhere | libs/components/src/date-picker/date-picker.component.ts:327-360 | Outside positions 0, 1, 3, 4 and 6, every digit passes. |
| DatePicker.MonthDigitsAccepted | libs/components/src/date-picker/date-picker.component.ts:328-340 | Two month digits typed into an empty box both pass iff they spell 01..12. |
| DatePicker.DayDigitsAccepted | libs/components/src/date-picker/date-picker.component.ts:341-353 | Two day digits both pass iff they spell 01..31. |
| DatePicker.YearFirstDigitAccepted | libs/components/src/date-picker/date-picker.component.ts:354-358 | The year's first digit passes iff it is 1 or 2. |
| DatePicker.SecondMonthDigitAfterSlash | libs/components/src/date-picker/date-picker.component.ts:333-340 | A non-digit before position 1 parses to NaN, so any second digit passes. |
| DatePicker.SlashedDate | libs/components/src/date-picker/date-picker.component.ts:583-593 | A date iff the three numbers parse and name an exact, valid calendar date, which is then that date. |
| DatePicker.ParseSlashed | libs/components/src/date-picker/date-picker.component.ts:580-595 | Anything the MM/DD/YYYY branch returns is a valid date. |
| DatePicker.DashedDate | libs/components/src/date-picker/date-picker.component.ts:601-607 | A date iff the three numbers parse, without a range check: out-of-range values roll over. |
| DatePicker.ParseDashed | libs/components/src/date-picker/date-picker.component.ts:598-609 | Anything the YYYY-MM-DD branch returns is a valid date. |
| DatePicker.ParseDate | libs/components/src/date-picker/date-picker.component.ts:574-612 | Empty text, and text with neither '/' nor '-', give null. Any result is a valid date. |
| DatePicker.FormatDate | libs/components/src/date-picker/date-picker.component.ts:560-565 | MM/DD/YYYY text. `FormatDateSplits`, `FormatDateDash` and `FormatDateRoundTrip` state it. |
| DatePicker.FormatDateForForm | libs/components/src/date-picker/date-picker.component.ts:567-572 | YYYY-MM-DD text. `FormatDateForFormSplits`, `FormatDateForFormRoundTrip` and `FormatDateForFormNegativeYear` state it. |
| DatePicker.SlashedOfSplit | libs/components/src/date-picker/date-picker.component.ts:581-593 | Three '/'-separated parts are parsed as month, day and year. |
| DatePicker.DashedOfSplit | libs/components/src/date-picker/date-picker.component.ts:599-607 | Three '-'-separated parts are parsed as year, month and day. |
| DatePicker.ParseDateBranch | libs/components/src/date-picker/date-picker.component.ts:574-612 | A successful slashed parse wins. Text without '-' is judged by the slashed branch alone, and text without '/' by the dashed branch. |
| DatePicker.FormatDateSplits | libs/components/src/date-picker/date-picker.component.ts:560-565 | `formatDate` of any valid date splits on '/' into the padded month, the padded day and the year with its sign. |
| DatePicker.FormatDateDash | libs/components/src/date-picker/date-picker.component.ts:560-565 | `formatDate` contains '-' iff the year is negative. |
| DatePicker.FormatDateParsesSlashed | libs/components/src/date-picker/date-picker.component.ts:560-612 | The MM/DD/YYYY reading of `formatDate` is the date, for every valid date outside years 0 to 99, negative years included. |
| DatePicker.FormatDateRoundTrip | libs/components/src/date-picker/date-picker.component.ts:560-612 | Parsing `formatDate` of a valid date returns it outside years 0 to 99, negative years included. For years 0 to 99 it gives null, because `Date` reads them as 19xx. |
| DatePicker.FormatDateForFormSplits | libs/components/src/date-picker/date-picker.component.ts:567-572 | `formatDateForForm` splits on '-' into the year, the padded month and the padded day, and contains no '/'. |
| DatePicker.FormatDateForFormParsesDashed | libs/components/src/date-picker/date-picker.component.ts:567-612 | The YYYY-MM-DD reading of `formatDateForForm` of a valid date from year 100 on is that date. |
| DatePicker.FormatDateForFormRoundTrip | libs/components/src/date-picker/date-picker.component.ts:567-612 | Parsing `formatDateForForm` of a valid date from year 100 on returns it. |
| DatePicker.SplitLeadingSeparator | libs/components/src/date-picker/date-picker.component.ts:598-600 | Text starting with the separator, then three digit runs separated by it, splits into four parts, the first empty. |
| DatePicker.FormatDateForFormNegativeSplits | libs/components/src/date-picker/date-picker.component.ts:567-572 | For a negative year, `formatDateForForm` splits on '-' into an empty part, the year's digits, the padded month and the padded day, and holds no '/'. |
| DatePicker.FormatDateForFormNegativeYear | libs/components/src/date-picker/date-picker.component.ts:567-612 | Parsing `formatDateForForm` of a date with a negative year gives null. |
| DatePicker.RejectsFebruaryThirtieth | libs/components/src/date-picker/date-picker.component.ts:587-592 | "02/30/2024" gives null. |
| DatePicker.DashedRollsOver | libs/components/src/date-picker/date-picker.component.ts:598-609 | "2024-02-30" gives 1 March 2024. |
| DatePicker.PartialYearIsReported | libs/components/src/date-picker/date-picker.component.ts:277-291 | The partial entry "01/02/202" stays as typed and parses to 2 January 202. So the form is told of a date in year 202, though nothing is selected. |
| DatePicker.PartialYearIsShaped | libs/components/src/date-picker/date-picker.component.ts:478-508 | "01/02/202" is already shaped, so the formatter leaves it as typed. |
| DatePicker.PartialYearParses | libs/components/src/date-picker/date-picker.component.ts:579-592 | "01/02/202" parses to 2 January 202. |
| DatePicker.DecadeYears | libs/components/src/date-picker/date-picker.component.ts:196-203 | Twelve years; the i-th is the start year plus i. So they ascend and are exactly those from the start onward. |
| DatePicker.HeaderTitle | libs/components/src/date-picker/date-picker.component.ts:394-403 | The popover title by view. `MonthHeaderIsYear` states the month view's title. |
| DatePicker.MonthHeaderIsYear | libs/components/src/date-picker/date-picker.component.ts:394-403 | The month view's title parses back to its year, negative years included. |
| DatePicker.NextPeriodOf | libs/components/src/date-picker/date-picker.component.ts:373-382 | The next month, year or decade by view. `DayNavigationRollsOver` and the round trips state it. |
| DatePicker.PreviousPeriodOf | libs/components/src/date-picker/date-picker.component.ts:362-371 | The previous month, year or decade by view. `DayNavigationRollsOver` and the round trips state it. |
| DatePicker.DayNavigationRollsOver | libs/components/src/date-picker/date-picker.component.ts:362-382 | In the day view, next and previous move one month, rolling the year over at December and January. |
| DatePicker.NextThenPrevious | libs/components/src/date-picker/date-picker.component.ts:362-382 | In the month and year views, `nextPeriod` then `previousPeriod` restores the state. In the day view it restores the first of the same month for any valid date outside years −1 to 99. |
| DatePicker.PreviousThenNext | libs/components/src/date-picker/date-picker.component.ts:362-382 | In the month and year views, `previousPeriod` then `nextPeriod` restores the state. In the day view it restores the first of the same month for any valid date outside years 0 to 100. |
| DatePicker.NavigationAcrossYear100 | libs/components/src/date-picker/date-picker.component.ts:362-382 | Going back from January 100 reaches December 99. Going forward from there reaches January 2000, because years below 100 are read as 19xx. |
| DatePicker.SwitchToNextViewOf | libs/components/src/date-picker/date-picker.component.ts:384-392 | Zooms out one view. `SwitchToNextViewFacts` states it. |
| DatePicker.SelectMonthOf | libs/components/src/date-picker/date-picker.component.ts:405-408 | The day view on a month of the current year. `SelectionFacts` states it. |
| DatePicker.SelectYearOf | libs/components/src/date-picker/date-picker.component.ts:410-414 | The month view on a year. `SelectionFacts` states it. |
| DatePicker.SwitchToNextViewFacts | libs/components/src/date-picker/date-picker.component.ts:384-392 | Day goes to month, copying the year. Month goes to year, at floor(y/10)*10. Year does nothing. |
| DatePicker.SelectionFacts | libs/components/src/date-picker/date-picker.component.ts:405-414 | `selectMonth` returns to the day view on that month. `selectYear` goes to the month view, keeping the month index. |
| DatePicker.BitDatePicker.constructor | libs/components/src/date-picker/date-picker.component.ts:173-177 | Nothing is selected. The day view shows today's month, with its year and decade. |
| DatePicker.BitDatePicker.OnInput | libs/components/src/date-picker/date-picker.component.ts:277-291 | Shows the formatted text. Selects the parsed date only for a full 10-character value, and clears the selection for empty text. Notifies the YYYY-MM-DD form or null. Navigation is unchanged. |
| DatePicker.BitDatePicker.PreviousPeriod | libs/components/src/date-picker/date-picker.component.ts:362-371 | Steps back one month, year or decade by view; the selection is unchanged. |
| DatePicker.BitDatePicker.NextPeriod | libs/components/src/date-picker/date-picker.component.ts:373-382 | Steps forward one month, year or decade by view; the selection is unchanged. |
| DatePicker.BitDatePicker.SwitchToNextView | libs/components/src/date-picker/date-picker.component.ts:384-392 | Zooms out one view. |
| DatePicker.BitDatePicker.SelectMonth | libs/components/src/date-picker/date-picker.component.ts:405-408 | Shows that month of the current year in the day view. |
| DatePicker.BitDatePicker.SelectYear | libs/components/src/date-picker/date-picker.component.ts:410-414 | Shows that year in the month view, keeping the month index. |
| JsDate.DaysInMonth | libs/components/src/date-picker/date-picker.component.ts:588-590 | 28 to 31 days; February has 29 iff the year is a leap year. |
| JsDate.FullYear | libs/components/src/date-picker/date-picker.component.ts:588 | Years 0 to 99 are read as 1900 to 1999; others are kept. |
| JsDate.NormalizeDay | libs/components/src/date-picker/date-picker.component.ts:588 | The result is a valid date, and an in-range day is kept. Where an out-of-range day lands: `NormalizeDayLands`. |
| JsDate.YearLength | libs/components/src/date-picker/date-picker.component.ts:588 | Day counting: a year has 366 days iff it is a leap year, 365 otherwise. |
| JsDate.MonthsMakeYear | libs/components/src/date-picker/date-picker.component.ts:588 | The twelve months add up to the year's length. |
| JsDate.WithinYear | libs/components/src/date-picker/date-picker.component.ts:588 | Every valid date's day number falls within its year's span. |
| JsDate.DayNumberInjective | libs/components/src/date-picker/date-picker.component.ts:588 | Different valid dates have different day numbers. |
| JsDate.NormalizeDayNumber | libs/components/src/date-picker/date-picker.component.ts:588 | The rolled-over date is d − 1 days after the first of the given month and year. |
| JsDate.NormalizeDayLands | libs/components/src/date-picker/date-picker.component.ts:588 | For any valid date, rolling over (y, m, d) gives that date iff it lies d − 1 days after the first of month m of year y. |
| JsDate.MakeDate | libs/components/src/date-picker/date-picker.component.ts:588 | `new Date(y, m, d)` always yields a valid calendar date. |
| JsDate.MakeDateOfValid | libs/components/src/date-picker/date-picker.component.ts:588 | A valid date from year 100 on is rebuilt unchanged. |
| JsDate.ExactIffValid | libs/components/src/date-picker/date-picker.component.ts:588-590 | The component's "same year, month and day" check passes iff the triple is a valid date outside years 0 to 99. |
| JsDate.NextMonthStart | libs/components/src/date-picker/date-picker.component.ts:376 | The next month's first day, rolling into January of the next year. |
| JsDate.PreviousMonthStart | libs/components/src/date-picker/date-picker.component.ts:365 | The previous month's first day, rolling into December of the previous year. |
| JsDate.LeapDay | libs/components/src/date-picker/date-picker.component.ts:588-590 | 29 February 2024 is exact. 29 February 2023 and 30 February 2024 roll to 1 March. |
| VaultCipherRow.Considered | apps/web/src/app/vault/components/vault-items/vault-cipher-row.component.ts:167-175 | Exactly the assigned collections whose (non-empty) id is among the cipher's collection ids, no more than the table has. Order and repetitions: `ConsideredInOrder`. |
| VaultCipherRow.ConsideredInOrder | apps/web/src/app/vault/components/vault-items/vault-cipher-row.component.ts:167-175 | The weighed collections keep the table's order and repetitions. The list of a concatenation is the concatenation of the lists. A single collection is kept iff it passes the test. A passing collection occurs as often as in the table. |
| VaultCipherRow.Labels | apps/web/src/app/vault/components/vault-items/vault-cipher-row.component.ts:185-187 | One label per collection, in order. |
| VaultCipherRow.HighestFrom | apps/web/src/app/vault/components/vault-items/vault-cipher-row.component.ts:189 | The first priority label present, or none iff none is present. |
| VaultCipherRow.Highest | apps/web/src/app/vault/components/vault-items/vault-cipher-row.component.ts:189 | The strongest label present. `HighestIsStrongest` states it. |
| VaultCipherRow.HighestIsStrongest | apps/web/src/app/vault/components/vault-items/vault-cipher-row.component.ts:189 | If a priority label is present, the result is it or a stronger one. The result depends only on which labels occur. |
| VaultCipherRow.SameLabelsSameHighest | apps/web/src/app/vault/components/vault-items/vault-cipher-row.component.ts:189 | Two label lists with the same members give the same strongest label. |
| VaultCipherRow.PermissionText | apps/web/src/app/vault/components/vault-items/vault-cipher-row.component.ts:162-165 | An item without an organization, or without collections, shows "manageCollection". |
| VaultCipherRow.PermissionTextOfOrganizationItem | apps/web/src/app/vault/components/vault-items/vault-cipher-row.component.ts:167-193 | One considered collection gives its label. Several give the strongest priority label among theirs. None gives "noAccess". |
| VaultCipherRow.PermissionTextAmongSeveral | apps/web/src/app/vault/components/vault-items/vault-cipher-row.component.ts:184-191 | With several collections weighed, any text shown is a label one of them holds. No text is shown iff none of them holds a label of the priority list. |
| VaultCipherRow.OrganizationOf | apps/web/src/app/vault/components/vault-items/vault-cipher-row.component.ts:73-77 | The organization found has the cipher's organization id; none is found only when no organization has it (the first one: `OrganizationOfIsFirst`). |
| VaultCipherRow.OrganizationOfIsFirst | apps/web/src/app/vault/components/vault-items/vault-cipher-row.component.ts:75 | If index k holds the first organization with the id, the organization found is the one at index k. |
| VaultCipherRow.ShowCheckbox | apps/web/src/app/vault/components/vault-items/vault-cipher-row.component.ts:265-271 | Always outside the organization vault or without a known organization. Otherwise it requires edit-all, or edit and view-password. |
| VaultCipherRow.ShowFixOldAttachments | apps/web/src/app/vault/components/vault-items/vault-cipher-row.component.ts:95-97 | Only for individual items with old attachments. |
| VaultCipherRow.IsNotDeletedLoginCipher | apps/web/src/app/vault/components/vault-items/vault-cipher-row.component.ts:147-152 | A Login not in the trash. `RowActionsOfDeletedOrOtherTypes` states that every copy and launch action requires it. |
| VaultCipherRow.ShowCopyUsername | apps/web/src/app/vault/components/vault-items/vault-cipher-row.component.ts:196-199 | A live Login with a copyable username. `RowActionsOfDeletedOrOtherTypes` and `HideMenuIffNoActions` state its part in the menu. |
| VaultCipherRow.ShowCopyPassword | apps/web/src/app/vault/components/vault-items/vault-cipher-row.component.ts:201-204 | Only for a non-deleted Login with view-password and a copyable password. |
| VaultCipherRow.ShowCopyTotp | apps/web/src/app/vault/components/vault-items/vault-cipher-row.component.ts:87-93 | A live Login with a TOTP seed, and either the organization's TOTP feature or premium features (`showCopyTotp` at lines 206-208). `RowActionsOfDeletedOrOtherTypes` states that it requires a live Login. |
| VaultCipherRow.ShowLaunchUri | apps/web/src/app/vault/components/vault-items/vault-cipher-row.component.ts:210-212 | A live Login that can be launched. `RowActionsOfDeletedOrOtherTypes` states that it requires a live Login. |
| VaultCipherRow.IsDeletedCanRestore | apps/web/src/app/vault/components/vault-items/vault-cipher-row.component.ts:214-216 | A deleted item the user may restore. `RowActionsOfDeletedOrOtherTypes` states the iff. |
| VaultCipherRow.ShowAttachments | apps/web/src/app/vault/components/vault-items/vault-cipher-row.component.ts:103-105 | Edit rights or existing attachments. `RowActionsOfDeletedOrOtherTypes` states that edit rights suffice. |
| VaultCipherRow.ShowClone | apps/web/src/app/vault/components/vault-items/vault-cipher-row.component.ts:139-141 | A cloneable item not in the trash. `RowActionsOfDeletedOrOtherTypes` states that a deleted item cannot be cloned. |
| VaultCipherRow.ShowShare | apps/web/src/app/vault/components/vault-items/vault-cipher-row.component.ts:135-137 | Some organization exists and the item is not deleted. `RowActionsOfDeletedOrOtherTypes` states that a deleted item cannot be shared. |
| VaultCipherRow.RowActionsOfDeletedOrOtherTypes | apps/web/src/app/vault/components/vault-items/vault-cipher-row.component.ts:135-216 | Copy and launch actions are offered only for a live Login. A deleted item offers no clone or share. Restore is offered iff the item is deleted and the user may restore it. Edit rights always offer attachments. |
| VaultCipherRow.HideMenu | apps/web/src/app/vault/components/vault-items/vault-cipher-row.component.ts:218-231 | Whether the menu is hidden. `HideMenuIffNoActions` states it. |
| VaultCipherRow.HideMenuIffNoActions | apps/web/src/app/vault/components/vault-items/vault-cipher-row.component.ts:218-231 | The menu is hidden iff no menu action is available. Edit rights alone show it. |
| VaultFolderRow.ParentSegments | apps/web/src/app/vault/components/vault-items/vault-folder-row.component.ts:43-49 | Every '/'-separated segment except the last. |
| VaultFolderRow.FolderDisplayName | apps/web/src/app/vault/components/vault-items/vault-folder-row.component.ts:36-40 | The text after the last '/', or the whole name. It never contains '/'. |
| VaultFolderRow.FolderPath | apps/web/src/app/vault/components/vault-items/vault-folder-row.component.ts:42-50 | Empty for a name without '/'. |
| VaultFolderRow.FolderPathOfNested | apps/web/src/app/vault/components/vault-items/vault-folder-row.component.ts:42-50 | With a '/', the parent segments joined with " > ". |
| VaultFolderRow.FolderPathEmptyIff | apps/web/src/app/vault/components/vault-items/vault-folder-row.component.ts:42-50 | Empty iff there is no '/', or there is exactly one and nothing before it. |
| VaultFolderRow.LeadingSlashHasEmptyPath | apps/web/src/app/vault/components/vault-items/vault-folder-row.component.ts:42-49 | "/x" contains '/' yet has an empty path, and displays "x". |
| VaultFolderRow.RejoinRecoversName | apps/web/src/app/vault/components/vault-items/vault-folder-row.component.ts:36-50 | The parent segments and the display name, joined with '/', give the name. |
| VaultFolderRow.VaultFolderRowComponent.constructor | apps/web/src/app/vault/components/vault-items/vault-folder-row.component.ts:21 | The row shows its folder and has reported nothing. |
| VaultFolderRow.VaultFolderRowComponent.EditFolderClicked | apps/web/src/app/vault/components/vault-items/vault-folder-row.component.ts:52-54 | Reports one edit event carrying the folder. |
| VaultFolderRow.VaultFolderRowComponent.DeleteFolderClicked | apps/web/src/app/vault/components/vault-items/vault-folder-row.component.ts:56-58 | Reports one delete event listing exactly the folder. |
| CollectionNameBadge.ShownCollections | apps/web/src/app/admin-console/organizations/collections/collection-badge/collection-name.badge.component.ts:21-27 | At most three ids, taken as a prefix in order: two when there are more than three ids, all of them otherwise. |
| CollectionNameBadge.ShowXMore | apps/web/src/app/admin-console/organizations/collections/collection-badge/collection-name.badge.component.ts:25-27 | More than three ids. `ShownCollections` and `BadgeAccountsForEveryId` state its effect. |
| CollectionNameBadge.XMoreCount | apps/web/src/app/admin-console/organizations/collections/collection-badge/collection-name.badge.component.ts:29-31 | The ids not shown when summarising. `BadgeAccountsForEveryId` states it. |
| CollectionNameBadge.BadgeAccountsForEveryId | apps/web/src/app/admin-console/organizations/collections/collection-badge/collection-name.badge.component.ts:21-31 | When summarising, the shown ids plus the remaining ids are all the ids. The count equals the remaining ids and is at least 2. |
| Text.JoinSplit | apps/web/src/app/vault/components/vault-items/vault-folder-row.component.ts:38 | Joining the pieces of a split with its separator gives the text back. |
| Text.SplitLastIsSuffix | apps/web/src/app/vault/components/vault-items/vault-folder-row.component.ts:38-39 | The last piece of a split is the text after the last separator. |
| Text.Split | apps/web/src/app/vault/components/vault-items/vault-folder-row.component.ts:38 | `split` gives at least one piece, no piece holds the separator, and text without the separator is one piece. |
| Text.SplitSingleIffNoSeparator | apps/web/src/app/vault/components/vault-items/vault-folder-row.component.ts:38-39 | A split has exactly one piece iff the text has no separator. |
| Text.SplitFirstIsPrefix | apps/web/src/app/vault/components/share-modal/share-modal.component.ts:359-363 | The first piece of a split is the text up to the first separator, or all of it. |
| Text.ParseIntOfNatToString | libs/components/src/date-picker/date-picker.component.ts:583-585 | `parseInt` reads a number's decimal text back as the number. |
| Text.ParseIntOfPadded | libs/components/src/date-picker/date-picker.component.ts:583-585 | `parseInt` reads a two-digit zero-padded number back. |
| Text.IntToString | libs/components/src/date-picker/date-picker.component.ts:560-572 | One or more characters: a leading '-' iff the number is negative, and digits everywhere else. |
| Text.ParseIntOfIntToString | libs/components/src/date-picker/date-picker.component.ts:394-403 | `parseInt` reads any integer's decimal text back, negative numbers included. |
| Text.TrimIsSlice | apps/web/src/app/vault/components/share-modal/share-modal.component.ts:357-363 | `trim` keeps one slice of the text, starting where the leading white space ends. |
| Text.TrimRemovesOnlyWhitespace | apps/web/src/app/vault/components/share-modal/share-modal.component.ts:357-363 | `trim` keeps one slice of the text and removes only white space before and after it. |
| Text.TrimEmptyIffAllWhitespace | apps/web/src/app/vault/components/share-modal/share-modal.component.ts:357 | `trim` leaves nothing iff every character is white space. |
| Text.ParseIntSkipsWhitespace | libs/components/src/date-picker/date-picker.component.ts:583-585 | `parseInt` skips leading white space before reading a sign and digits. |

## Left out

- The RxJS machinery of `restricted$` and `isCipherRestricted$` (`switchMap`, `combineLatest`, `distinctUntilChanged`, `shareReplay`). The model is the function of one emission of its inputs. `JSON.parse` is a parameter, and `uuidAsString` is the identity.
- RestrictedItemTypesService.RestrictedTypes: a non-array, non-null value under either key is read as []. The source returns that value itself, and later calls may throw on it.
- RestrictedItemTypesPolicy.StoredTypes: reads a `restrictedItemTypes` key holding anything but an array as []. The source would keep the value and call `includes` on it.
- `RestrictedItemTypesPolicy.display` and the base policy component. They are only a feature-flag observable and form plumbing.
- Share modal I/O:
  - the fetches of `loadData` (the organization, collections, selectable items and current user are constructor parameters instead)
  - the server calls of `createCollection` and the assignment (the saved id and whether assignment succeeds are parameters instead)
  - toasts, i18n and closing the dialog
  - `generateShareableLink`, which reads the window location
  - `copyShareLink`, which uses the clipboard and DOM
  - `cancel` and `done`
- ShareModal.ShareModalComponent.Submit: uses the corrected `ShareModal.AssignCipherToCollection` (see Findings). So for an organization item it states the outcome `Shared` when the server accepts the assignment. As written, the lookup among the collections loaded at opening throws first, and an organization item always ends with the warning outcome `CreatedButNotAssigned` (`ShareModal.NewCollectionAssignmentFails`).
- ShareModal.ShareModalComponent.FinishSubmit and ShareModal.SubmitWhileCreating: the same corrected assignment as `Submit`, with the same difference for organization items.
- `assignToExistingCollection`, the finishing action of the existing-collection step. It is server plumbing around the same id-list update (`ShareModal.AssignOrganizationItem`).
- `mapGroupToAccessItemView`, `mapUserToAccessItemView` and `convertToSelectionView`. The selectable items are given already mapped, and the create request keeps the access entries themselves.
- ShareModal.ShareModalComponent.SameEntries: visits keys in an arbitrary order rather than the maps' insertion order. This does not affect its result.
- Dates as instants: time zones, the time of day and the representable date range. Dates are (year, month index, day) triples.
- Locale month names (`monthName`, `yearMonths`, and the day view's header, which is a parameter of `HeaderTitle`).
- `generateCalendarDays` and the calendar grid (weekday arithmetic and today's highlight).
- `updateCalendarFromInput`, which nothing calls.
- `selectDate`, `clearDate`, `writeValue`, `onCalendarIconClick`, `isSameDay`, `getDayClasses`, focus and blur handling, and the popover, template and `ControlValueAccessor` registration. These are UI wiring around the modelled parse and format functions.
- Key values in `onKeyDown` are strings, and the digit test is "contains a digit". What a keyboard event delivers is outside the model.
- Text.ParseInt: works on unbounded integers, with no floating-point rounding of very long digit runs.
- DatePicker.FormatDateRoundTrip: returns the date for every valid date outside years 0 to 99, negative years included. For years 0 to 99 it states that parsing gives null, because `Date` reads those years as 19xx.
- DatePicker.FormatDateForFormRoundTrip: proved from year 100 on. A negative year gives null (`DatePicker.FormatDateForFormNegativeYear`). Years 0 to 99 are read back as 1900 to 1999, and the model states no lemma for them.
- DatePicker.NextThenPrevious and DatePicker.PreviousThenNext: the month and year views round-trip for every state. The day-view round trip is stated outside years −1 to 99 (forward then back) and 0 to 100 (back then forward). Within those years one of the two months lies in years 0 to 99, which `Date` reads as 19xx (`DatePicker.NavigationAcrossYear100` shows the crossing).
- The cipher row's `CipherViewLikeUtils` results (type, deletion, copyable values, TOTP, launchability, attachments), `convertToPermission` and `getPermissionList`. These are inputs: facts about the cipher and each collection's label.
- The cipher row's other getters (`clickAction`, `subtitle`, `launchUri`, `showAssignToCollections`, `showEventLogs`), its event emitters and i18n. A label key stands for its translation.
- The folder row's `checkedToggled` output and i18n.
- The collection badge's id-to-name pipe.
- `org-vault-export.service.abstraction.ts` and `vault-item.ts`, which declare types only.

## Findings

| source | as written | input that shows it | evidently intended | confidence | as-written member | corrected member |
|---|---|---|---|---|---|---|
| libs/common/src/vault/services/restricted-item-types.service.ts:38-47 | With no active user, the inner stream emits `[]`, and the following `map` destructures it as `[orgs, enabledPolicies]`. Both are undefined, so `enabledPolicies.flatMap` throws. | Feature flag on, no active account. | Emit no restrictions, as the comment on line 40 says. | not executed | RestrictedItemTypesService.NoUserDiscrepancy | RestrictedItemTypesService.Restricted |
| apps/web/src/app/vault/components/share-modal/share-modal.component.ts:655-661 | For an organization item, `assignCipherToCollection` looks the new collection up in `existingCollections`. That list was loaded when the dialog opened and never gains the collection `submit` just created, so the lookup throws. | An organization-owned item shared into a newly created collection. | Assign the item to the collection just created, adding its id to the item's collections. | not executed | ShareModal.NewCollectionAssignmentFails | ShareModal.AssignCipherToCollection |
