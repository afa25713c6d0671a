/** `localeCompare` as a parameter of which only consistency is assumed. */
module Collation {
  import opened Utf16

  type Collator = (JsString, JsString) -> int

  /** It may tie on different strings, but it orders consistently. */
  ghost predicate TotalPreorder(collate: Collator) {
    && (forall a, b :: collate(a, b) < 0 <==> collate(b, a) > 0)
    && (forall a, b, c :: collate(a, b) <= 0 && collate(b, c) <= 0 ==> collate(a, c) <= 0)
  }

  function Before(collate: Collator): (JsString, JsString) -> bool { (a, b) => collate(a, b) < 0 }
}
