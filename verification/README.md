# Product catalog core, modelled in Dafny

This project models the product-catalog part of a small browser demo
(`assets/js/main.js`). That part is a product form, an in-memory list of
product records, and a search box. The model covers four things:

- **Validation.** One rule per form field: name, price, category, image file
  and description. `validateProductForm` runs every check, reports each
  failure in turn, and leaves the warning of the last one on screen.
- **The record store.** The `products` sequence and the `currentIndex` edit
  pointer. Submitting adds a record or replaces the one under edit. Delete is
  a positional `splice`. `clearForm` resets the pointer.
- **Search and truncation.** The search lower-cases and trims the query, then
  keeps the records in order whose name, category or non-empty description
  contains it. Card descriptions are cut to 16 characters plus an ellipsis.
- **The durable slot.** `loadFromLocalStorage` and `saveToLocalStorage`, with
  JSON serialisation and parsing passed in as functions.

Modules, one per component:

- `Wrappers` (wrappers.dfy): `Option`.
- `Text` (text.dfy): the JavaScript whitespace set, `trim`, ASCII
  `toLowerCase`, `includes`.
- `ProductForm` (product_form.dfy): the field rules and the list of failing
  checks.
- `Catalog` (catalog.dfy): `Product`, the store state, and the submit, edit
  and delete handlers. Each handler returns a `Step`: the new state, the form
  left on screen, the last banner shown, and the sequence written to storage.
- `Search` (search.dfy): the query, the filter, the rendered views and
  truncation.
- `Storage` (storage.dfy): load and save.

Character classes follow the regular expressions exactly. Without the `u` flag,
`\w` and `\d` are ASCII. `\s` and `trim` share one fixed set: the ECMAScript
WhiteSpace and LineTerminator characters, written out. `.` matches anything
except the four line terminators. In `$` without the `m` flag, only the end of
the input counts. Without the `u` flag, the `i` flag folds only ASCII letters
onto ASCII letters.

## Model

| member | source | states |
|---|---|---|
| `Text.Trim` | assets/js/main.js:61 | `trim` returns the stretch of the input left once whitespace is cut from both ends: only whitespace is removed, and the result neither starts nor ends with whitespace |
| `Text.TrimIgnoresPadding` | assets/js/main.js:61 | whitespace added before and after a value does not change what `trim` yields |
| `Text.TrimIdempotent` | assets/js/main.js:142-144 | trimming a trimmed value changes nothing, so a stored name or category is already in the form validation sees |
| `Text.LowerStr` | assets/js/main.js:239 | `toLowerCase` keeps the length and maps each upper-case ASCII letter to its lower-case letter, keeping every other character |
| `Text.Includes` | assets/js/main.js:248-250 | `includes` as a left-to-right scan: the needle starts at the first position, or at a later one |
| `Text.IncludesIffOccurs` | assets/js/main.js:248-250 | the left-to-right `includes` scan succeeds exactly when the needle occurs at some position of the text |
| `Text.IncludesKeepsCharacters` | assets/js/main.js:248-250 | every character of a contained string occurs in the containing one |
| `ProductForm.NameOk` | assets/js/main.js:51 | the name passes when its trimmed value is 3 to 16 characters, each an ASCII letter or digit, `_`, whitespace or `-` (`/^[\w\s-]{3,16}$/` without the `u` flag) |
| `ProductForm.CategoryOk` | assets/js/main.js:53 | the category passes when its trimmed value is 3 to 20 characters, each an ASCII letter or whitespace |
| `ProductForm.PaddingIgnored` | assets/js/main.js:61-83 | whitespace typed around a name or a category never changes whether it passes, because both are trimmed before the test |
| `ProductForm.DescriptionOk` | assets/js/main.js:54 | the untrimmed description passes when it has at most 200 characters and no line terminator, which `.` does not match |
| `ProductForm.DescriptionExamples` | assets/js/main.js:97-103 | the empty description and a short one-line text pass; a text with a line break, or of 201 characters, is refused |
| `ProductForm.PriceOk` | assets/js/main.js:52 | the untrimmed price is scanned as a run of at least one digit, then either its end or a point followed by one or two digits that reach the end |
| `ProductForm.PriceOkIffPattern` | assets/js/main.js:52 | the price scan accepts exactly `^\d+(\.\d{1,2})?$`: digits only, or digits, a point and one or two digits |
| `ProductForm.PriceExamples` | assets/js/main.js:69 | "7", "12.5" and "12.50" pass; "5.", "5.123", ".5", " 5" and "" are refused, because the price is not trimmed |
| `ProductForm.ImageNameOk` | assets/js/main.js:55 | the file name ends, ignoring ASCII case, with `.jpg`, `.jpeg`, `.png` or `.gif` |
| `ProductForm.ImageOk` | assets/js/main.js:85-95 | a file is selected and its name passes the image rule |
| `ProductForm.ImageNameIffExtension` | assets/js/main.js:55 | a file name passes exactly when it has a point and the text after the last point is jpg, jpeg, png or gif in any case |
| `ProductForm.ImageNameExamples` | assets/js/main.js:89 | "photo.JPG" passes; "photo.jpg.txt" and "jpg" are refused |
| `ProductForm.IsValid` | assets/js/main.js:58-106 | the form is valid when the name, price, category, image and description checks all pass |
| `ProductForm.Problems` | assets/js/main.js:58-106 | every check runs; a problem is reported exactly when its check fails (name and category after trimming), and no problem is reported exactly when the form is valid |
| `ProductForm.ProblemsInCheckOrder` | assets/js/main.js:58-106 | failures are reported in the order the checks run: name, price, category, image, description |
| `ProductForm.ShownProblem` | assets/js/main.js:108-112 | the warning left showing belongs to a failing check, and no failing check runs after it |
| `ProductForm.MissingFileRefused` | assets/js/main.js:85-88 | with no file selected the form is invalid, whatever the other fields hold |
| `Catalog.MakeProduct` | assets/js/main.js:140-150 | the new record holds the trimmed name and category, the price and description as typed, the image data, the selected file's name and the creation time as id |
| `Catalog.MadeProductWellFormed` | assets/js/main.js:140-150 | a record built from a valid form has a trimmed name and category that match their patterns, a valid price and description, and an image file name |
| `Catalog.Submit` | assets/js/main.js:114-135 | an invalid form changes nothing, writes nothing and shows the last failing check's warning. A valid form with nothing under edit appends exactly one record and keeps all earlier ones. With record i under edit, a valid form replaces only position i and keeps the length. Both valid paths clear the form and the edit pointer and write the new sequence. A failed write's warning replaces the success banner |
| `Catalog.StartEdit` | assets/js/main.js:201-213 | opening a record for edit copies its name, price, category and description into the form, leaves the file input alone, sets the pointer to it, keeps the records, shows the editing banner and writes nothing |
| `Catalog.DeleteAsWritten` | assets/js/main.js:215-222 | a confirmed delete at i < length yields `products[..i] + products[i+1..]`. At or past the end it removes nothing. It always writes and shows the success banner last. An unconfirmed delete changes nothing. The edit pointer is left untouched |
| `Catalog.Delete` | assets/js/main.js:215-222 | the same removal, write and banner. With nothing under edit, nothing stays under edit. When the record under edit is deleted, the pointer is cleared. When another record is deleted, the pointer moves down by one if it was after that record and stays otherwise, so it still designates the record that was under edit |
| `Catalog.ClearEdit` | assets/js/main.js:225 | clearing the form leaves nothing under edit and keeps the records |
| `Catalog.SubmitPreservesInvariants` | assets/js/main.js:114-135 | submitting keeps the edit pointer in range and admits only well-formed records |
| `Catalog.StartEditPreservesInvariants` | assets/js/main.js:201-207 | opening a record for edit keeps the pointer in range and every record well formed |
| `Catalog.DeletePreservesInvariants` | assets/js/main.js:215-222 | deleting keeps the pointer in range and every remaining record well formed |
| `Catalog.EditRoundTrip` | assets/js/main.js:201-207 | opening a well-formed record and submitting the form unchanged, with an image selected, replaces that record with one having the same name, price, category and description, touches no other record and clears the pointer |
| `Catalog.EditWithoutFileRefused` | assets/js/main.js:85-88 | opening a record after the form was cleared and submitting without picking an image again is refused for the missing file |
| `Catalog.DeleteAsWrittenRetargetsEdit` | assets/js/main.js:217 | records [a, b, c]: open b, delete a, submit. The code overwrites c and b survives unchanged |
| `Catalog.DeleteAsWrittenBreaksEditTarget` | assets/js/main.js:217 | records [a, b]: open b, delete a. The pointer then lies past the end |
| `Search.Query` | assets/js/main.js:239 | the query is no longer than the box's value, holds no upper-case ASCII letter, and neither starts nor ends with whitespace |
| `Search.QueryIsTrimmedLowerCase` | assets/js/main.js:239 | the query is the stretch of the lower-cased box value that `trim` leaves: only whitespace lies before and after it, and none at its ends |
| `Search.Matches` | assets/js/main.js:247-250 | a product matches when its lower-cased name, its lower-cased category, or its lower-cased non-empty description contains the query |
| `Search.MatchesIffOccurs` | assets/js/main.js:247-250 | a product matches exactly when the query occurs at some position of one of those three lower-cased texts |
| `Search.Filter` | assets/js/main.js:246-251 | every product the filter returns matches the query |
| `Search.FilterByCounts` | assets/js/main.js:246-251 | filtering keeps each admitted product exactly as often as it occurs and drops every other one |
| `Search.FilterCounts` | assets/js/main.js:246-251 | the search result holds every matching product as often as the catalog does, and nothing else |
| `Search.MatchIndices` | assets/js/main.js:246-251 | the store positions of the matching products, strictly increasing, all in range, none missing |
| `Search.FilterIsMatchSelection` | assets/js/main.js:246-251 | the filter result is the products at the matching positions in increasing order, so it is a subsequence of the catalog |
| `Search.ListView` | assets/js/main.js:152-170 | an empty catalog shows "No products found"; otherwise one card per record, in order, card k carrying position k |
| `Search.SearchViewAsWritten` | assets/js/main.js:238-279 | the code's search: an empty query shows the list view. Otherwise an empty result names the query, and a non-empty one shows card k as the k-th matching product with position k, its place in the filtered list |
| `Search.SearchView` | assets/js/main.js:238-279 | the corrected search (see Findings), not what the code renders. Every card carries the store position of its own product. An empty query over a non-empty catalog shows every record with its position. A non-empty query shows the matching records in store order, card k holding the k-th matching position and its product. "No products" appears exactly for an empty catalog with an empty query. "No matches" appears exactly for a non-empty query with no match, and names the query |
| `Search.EmptyQueryShowsAll` | assets/js/main.js:239-244 | a query that is empty after lower-casing and trimming shows the whole catalog with store positions |
| `Search.SearchViewsShowSameProducts` | assets/js/main.js:246-279 | the code's view and the corrected view show the same products in the same order |
| `Search.FilteredCardAddressesWrongRecord` | assets/js/main.js:271-272 | catalog [Burger, Pizza] searched for "pizza": the code shows the Pizza card with position 0, which is Burger's; the corrected view gives it 1 |
| `Search.BurgerFoundByFood` | assets/js/main.js:238-254 | a catalog holding only "Burger" in "Fast Food", searched for "food", shows that record as card 0, in the code's view and in the corrected one |
| `Search.BurgerMissedBySushi` | assets/js/main.js:256-265 | the same catalog searched for "sushi" shows the empty result naming "sushi", in both views |
| `Search.Truncate` | assets/js/main.js:197-199 | text no longer than the limit is kept. Longer text becomes its first `maxLength` characters followed by "...", so the result is `maxLength + 3` long |
| `Search.CardDescription` | assets/js/main.js:182 | a card shows no description line for an empty description. Otherwise it shows the description cut to 16 characters plus "...", so never more than 19 characters, and a description of up to 16 characters whole |
| `Storage.Load` | assets/js/main.js:290-298 | an absent or empty slot, or text that does not parse, gives the empty catalog; otherwise the parsed catalog |
| `Storage.Save` | assets/js/main.js:281-288 | a successful write stores the serialised catalog; a failed write leaves the slot as it was |
| `Storage.SaveThenLoad` | assets/js/main.js:281-298 | a catalog saved successfully is loaded back unchanged, given that parsing inverts serialising |
| `Storage.AddWithFailedWriteIsLostOnReload` | assets/js/main.js:123-132 | an add whose write fails keeps the new record in memory and shows the storage warning, but the next load returns the catalog as it was before |

## Findings

| source | as written | input that shows it | evidently intended | confidence | as-written member | corrected member |
|---|---|---|---|---|---|---|
| assets/js/main.js:271-272 | search-result cards are numbered by their position in the filtered list, and their Edit and Delete buttons pass that number as a store index | catalog [Burger (Fast Food), Pizza (Pizza)], query "pizza": the one card says index 0, so Delete removes Burger | each card carries the store position of its product | high, not executed | `Search.SearchViewAsWritten`, `Search.FilteredCardAddressesWrongRecord` | `Search.SearchView` |
| assets/js/main.js:215-222 | `deleteProduct` never adjusts or clears `currentIndex`, so a later update writes to whatever now sits at the old position | records [a, b, c]: edit b, delete a, submit. c is overwritten and b is kept. With [a, b]: edit b, delete a, and the pointer is past the end | the pointer follows the record under edit and is cleared when that record is deleted | medium, not executed | `Catalog.DeleteAsWritten`, `Catalog.DeleteAsWrittenRetargetsEdit`, `Catalog.DeleteAsWrittenBreaksEditTarget` | `Catalog.Delete` |

## Left out

- Case folding: `toLowerCase` is modelled on ASCII letters only. Other letters are kept as they are, so non-ASCII text may match differently than in a browser.
- String length: a Dafny character is a Unicode scalar value, while JavaScript counts UTF-16 code units. A character outside the Basic Multilingual Plane counts as one here and as two in JavaScript, which affects the 200-character description limit and truncation.
- `Catalog.Submit`: requires the edit pointer to be in range. In the code, an out-of-range pointer takes one of two paths. When it equals the length (records [a, b]: edit b, delete a), `products[currentIndex] = product` appends the new record under the "Product updated" banner. When it lies beyond the length (after two such deletes), JavaScript extends the array with holes. Both states can only be reached through the code's delete (see Findings), and the corrected `Catalog.Delete` never produces them.
- `Storage.Load`: `parse` returning nothing covers both malformed text and valid JSON that is not a catalog. The code would return such a non-array value unchanged.
- The asynchronous image read: `FileReader` is left out. Its encoded result is the `imageData` parameter, and the form is assumed unchanged between validation and the read's completion.
- `Date.now()`: the `now` parameter.
- The `confirm()` dialog and whether the browser accepts a storage write: the `confirmed` and `writeOk` parameters.
- JSON: `JSON.stringify` and `JSON.parse` are the `serialize` and `parse` parameters.
- The view layer: DOM queries, card HTML, CSS class toggling and focus handling. This includes re-validation on every keystroke and the image-less card's `null` text. Only which records are shown, their card positions and the empty-state texts are modelled.
- Timers: the banner's three-second auto-dismiss and the 300 ms search debounce. Only which banner is left showing by each handler is modelled.
- The font-awesome script injection and the recipe-search client in the root `main.js`: network and UI with no catalog logic.
- Record ids: their uniqueness is not modelled, since the code never looks records up by id.
