# Scrollspy callback, modelled in Dafny

The site's scrollspy (`assets/scrollspy.js`) keeps a plain object,
`sectionVisibilities`, that maps each observed section's id to whether the
section currently intersects the viewport. On every IntersectionObserver batch
it runs three steps:

1. it writes `entry.isIntersecting` under `entry.target.id` for each record of
   the batch, in order;
2. it scans `Object.entries(sectionVisibilities)` and takes the first id whose
   value is `true` as the current section (`undefined` if there is none);
3. it sets the `className` of every navigation link to `"active"` when the
   link's `href` attribute equals `` `#${currentSectionId}` `` and to `""` otherwise.

The model has three modules:

- `Wrappers` (`wrappers.dfy`): the `Option` type, standing for `undefined` and `null`.
- `JsObject` (`js_object.dfy`): the own properties of a plain object with boolean
  values, kept as one sequence of `Entry(key, value)` in the order
  `Object.entries` lists them. Assignment (`Assign`) follows the JavaScript
  rules the callback relies on. An existing key is overwritten where it stands.
  A new key that is an array index (a canonical decimal below 2^32 - 1, such as
  `"3"`) is inserted among the other array indices in ascending numeric order,
  ahead of every other key. Any other new key is appended. Assigning
  `"__proto__"` runs the `Object.prototype.__proto__` setter, which ignores a
  boolean, so no property is created. `WellFormed` is the resulting shape:
  distinct keys, no `__proto__`, and array indices first, strictly ascending
  (ECMAScript, section 10.1.11.1, OrdinaryOwnPropertyKeys).
- `Scrollspy` (`scrollspy.dfy`): the three steps as specification functions
  (`ApplyBatch`, `FirstVisible`, `Restyled`) with lemmas about them, and the class
  `Tracker`, whose field `sectionVisibilities` is the object and whose arrays
  `navHrefs`/`navClasses` are the links' `href` attributes and `className`s.
  `Tracker.OnIntersect` is the callback, written as the source's three loops:
  the batch loop, the scan that breaks at the first visible entry
  (`Tracker.CurrentSection`), and the loop that rewrites every class.

Behaviours of the code that the model keeps on purpose:

- The comparison text when no section is visible is `"#undefined"`, so a link
  whose href is `#undefined` becomes active whenever no section is visible
  (`UndefinedLinkLit`, `NothingVisible`), and also when a section whose id is
  `undefined` is current.
- Ids that are array indices (canonical decimals below 2^32 - 1, such as `"3"`)
  are listed before all others, in ascending numeric order, whatever their
  arrival order (`IntegerIdJumpsAhead`, `VisibleIndexWins`). Other ids, including
  digit strings such as `"01"` or `"4294967295"`, keep their creation order, so
  among them the one created first wins a tie, not the one first in document
  order (`FirstArrivalWins`).
- The guard `"id" in section` holds for every element, so a section without an
  `id` is observed and recorded under `""`; when it is current, a link with href
  `#` is active (`UnnamedSectionLightsHashLink`).
- Every active link has the same href, so if the links' present hrefs are
  pairwise distinct, at most one link is active (`AtMostOneActive`); two links
  with the same href are active together.
- A link without an `href` attribute (`getAttribute` gives `null`, modelled as
  `None`) is never active.

## Model

| member | source | states |
|---|---|---|
| JsObject.IndexOf | assets/scrollspy.js:7 | the position found holds the key and no earlier position does; None exactly when the key is absent |
| JsObject.InsertionPoint | assets/scrollspy.js:10 | a new array-index key goes after every array index not larger than it and before every larger one and every other key |
| JsObject.CanonicalDecimalInjective | assets/scrollspy.js:10 | two canonical decimal strings with the same numeric value are the same string, so array indices are strictly ordered |
| JsObject.AssignKeys | assets/scrollspy.js:7 | an assignment keeps an existing key in place, appends a new non-index key, inserts a new array index at its numeric place, and ignores `__proto__` |
| JsObject.AssignGet | assets/scrollspy.js:7 | after `obj[k] = v` the key k reads v (unless k is `__proto__`) and every other key reads as before |
| JsObject.AssignWellFormed | assets/scrollspy.js:7 | an assignment keeps keys distinct, free of `__proto__`, and array indices first in ascending order |
| JsObject.AssignKeepsOrder | assets/scrollspy.js:7 | an assignment never swaps two existing keys |
| JsObject.AssignNonIndexKeys | assets/scrollspy.js:7 | the non-index keys stay in creation order, a new one joining at the end |
| Scrollspy.LastWriteIsLast | assets/scrollspy.js:6-7 | LastWrite gives the value of the last record naming the id, and None exactly when no record names it |
| Scrollspy.ApplyBatchWellFormed | assets/scrollspy.js:6-7 | processing a batch keeps the table in the shape of a plain object's own keys |
| Scrollspy.ApplyBatchGet | assets/scrollspy.js:6-7 | last write wins: each id named in the batch reads as its last record says; every other key keeps its value |
| Scrollspy.ApplyBatchKeys | assets/scrollspy.js:2-7 | no key is ever removed, and the only keys added are ids the batch names (never `__proto__`) |
| Scrollspy.ApplyBatchKeepsOrder | assets/scrollspy.js:6-7 | keys present before the batch keep their relative order |
| Scrollspy.ApplyBatchNonIndexKeys | assets/scrollspy.js:6-7 | non-index keys come out as the old ones followed by the new ones in order of their first record |
| Scrollspy.ApplyBatchIdempotent | assets/scrollspy.js:6-7 | processing the same batch a second time leaves the table unchanged |
| Scrollspy.FirstVisibleNone | assets/scrollspy.js:9-14 | no section is current exactly when no value is true |
| Scrollspy.FirstVisibleAt | assets/scrollspy.js:9-14 | a true value with only false values before it is the current section |
| Scrollspy.FirstVisiblePosition | assets/scrollspy.js:9-14 | the current section is a key whose value is true and every key before it is false |
| Scrollspy.CurrentReadsTrue | assets/scrollspy.js:9-14 | the current section reads as true in the table |
| Scrollspy.VisibleIndexWins | assets/scrollspy.js:10-14 | if an id that is an array index is visible, the current section is a visible array index no larger than it |
| Scrollspy.AtMostOneActive | assets/scrollspy.js:16-20 | every active link has the href `#` + current id; if the present hrefs are pairwise distinct, at most one link is active |
| Scrollspy.NonCurrentLinkInactive | assets/scrollspy.js:16-20 | a link to `#k` for k not current is inactive, except `#undefined` while nothing is current |
| Scrollspy.NothingVisible | assets/scrollspy.js:9-20 | with no visible section, a link is active exactly when its href is `#undefined` |
| Scrollspy.UnmatchedLinkInactive | assets/scrollspy.js:16-20 | a link to a fragment that names no recorded section (other than `#undefined`) is inactive |
| Scrollspy.CallbackIdempotent | assets/scrollspy.js:5-21 | running the callback twice with the same batch gives the same table and the same classes as running it once |
| Scrollspy.FirstArrivalWins | assets/scrollspy.js:6-20 | records `intro` then `about`, both visible: `intro` is current and only `#intro` is active |
| Scrollspy.LastVisibleSectionLeaves | assets/scrollspy.js:6-20 | from `{intro: true, about: false}`, the record `intro: false` leaves no section current and no link active |
| Scrollspy.IntegerIdJumpsAhead | assets/scrollspy.js:6-14 | records `intro` then `3`, both visible: `3` is listed first and is current |
| Scrollspy.ProtoIdIgnored | assets/scrollspy.js:7 | a record for id `__proto__` leaves the object empty |
| Scrollspy.UndefinedLinkLit | assets/scrollspy.js:16-20 | with nothing visible, the link `#undefined` is active and `#intro` is not |
| Scrollspy.UnnamedSectionLightsHashLink | assets/scrollspy.js:7-20 | a visible section without an id is recorded under "" and makes the link `#` active |
| Scrollspy.Tracker.constructor | assets/scrollspy.js:1-2 | the object starts empty and the link arrays are the ones found on the page |
| Scrollspy.Tracker.CurrentSection | assets/scrollspy.js:9-14 | the scan with `break` returns the first visible key, and undefined only when no value is true |
| Scrollspy.Tracker.OnIntersect | assets/scrollspy.js:5-21 | the new object is the batch applied to the old one, every link's class is recomputed from its href and the current section, and the object keeps its shape |

## Left out

- Querying the page for navigation links and sections (`assets/scrollspy.js:1` and `:29-31`): the links are given as arrays of `href` attributes and classes, and the batch as a sequence of `(id, isIntersecting)` records.
- The IntersectionObserver itself, its options `root`, `rootMargin` and `threshold` (`:4`, `:22-27`), and the geometry behind `isIntersecting`: browser behaviour with nothing to verify in the repository.
- When and how often the browser delivers batches: event-loop scheduling, not logic of the repository.
- `className` is modelled as a plain string field; the DOM's reflection of it into the `class` attribute is not modelled.
- Strings are sequences of Dafny characters; UTF-16 encoding plays no part in the callback and is not modelled.
