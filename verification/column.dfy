/**
 * The merge rule both resource services apply to string columns on update:
 * `stringColumnCheck(oldStr, newStr)` decides whether the incoming string
 * replaces the stored one. Java's `null` string is modelled as the empty
 * string, since `StringUtils.hasLength` treats both alike.
 */
module Column {

  /** `StringUtils.hasLength`: not null and not empty. */
  predicate HasLength(s: string) {
    |s| > 0
  }

  /** `stringColumnCheck`: the incoming string is present and differs. */
  predicate StringColumnCheck(oldStr: string, newStr: string) {
    HasLength(newStr) && oldStr != newStr
  }

  /** The intended partial-update policy, stated without the "differs" test:
      an empty incoming value keeps the stored one, any other value wins. */
  function Overlay(stored: string, incoming: string): string {
    if incoming == "" then stored else incoming
  }

  /** The value a column holds after `if (stringColumnCheck(old, new)) set(new)`. */
  function MergeColumn(stored: string, incoming: string): (r: string)
    ensures r == Overlay(stored, incoming)
    ensures StringColumnCheck(stored, incoming) <==> r != stored
    ensures Overlay(r, incoming) == r
  {
    if StringColumnCheck(stored, incoming) then incoming else stored
  }
}
