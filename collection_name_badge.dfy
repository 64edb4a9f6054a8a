/**
 * The badge listing an item's collections: up to three ids are shown; with
 * more, the first two are shown followed by "+N more".
 */
module CollectionNameBadge {

  /** `showXMore` */
  predicate ShowXMore(collectionIds: seq<string>) {
    |collectionIds| > 3
  }

  /** `shownCollections`: the first two ids when the rest is summarised, all
      of them otherwise, in order. */
  function ShownCollections(collectionIds: seq<string>): (shown: seq<string>)
    ensures |shown| <= 3
    ensures |shown| <= |collectionIds| && shown == collectionIds[..|shown|]
    ensures ShowXMore(collectionIds) ==> |shown| == 2
    ensures !ShowXMore(collectionIds) ==> shown == collectionIds
  {
    if ShowXMore(collectionIds) then collectionIds[..2] else collectionIds
  }

  /** `xMoreCount`: the length less two (negative below two ids, where it is
      not displayed). */
  function XMoreCount(collectionIds: seq<string>): int {
    |collectionIds| - 2
  }

  /** When the badge summarises, the ids shown and the count together account
      for every id, and the count is at least two, so "+1 more" never
      appears. */
  lemma BadgeAccountsForEveryId(collectionIds: seq<string>)
    requires ShowXMore(collectionIds)
    ensures |ShownCollections(collectionIds)| + XMoreCount(collectionIds) == |collectionIds|
    ensures XMoreCount(collectionIds) >= 2
    ensures ShownCollections(collectionIds) + collectionIds[2..] == collectionIds
    ensures XMoreCount(collectionIds) == |collectionIds[2..]|
  {
  }
}
