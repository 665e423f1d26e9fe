# Sweet shop inventory service, modelled in Dafny

This project models the inventory core of the sweet shop back end. The core is one
collection of `Sweet` documents. Each document has a name, a category, a price and a
quantity in stock. The model covers three things:

- **The schema** (`backend/models/Sweet.js`), in `sweet_schema.dfy`. All four fields are
  required. `name` and `category` are trimmed, `name` is unique, and `price` and
  `quantity` are at least 0. `Valid` states this for one document and `StoreValid` for
  the whole collection. `Validate` casts and validates a draft document: it runs the
  `trim` setters, then the `required` and `min` validators.
- **The controller** (`sweet-shop/backend/controllers/sweetsController.js`), in
  `sweets_controller.dfy` and `sweet_search.dfy`. The collection is a class, `SweetStore`,
  with a `map` from id to document and the next id to assign. Each controller function
  is a method. `getSweets` and `searchSweets` cannot fail and return the selected
  documents as a map from id. The other five return a `Result`: an `Ok` value, or one
  of `DuplicateName`, `NotFound`, `InvalidQuantity`, `InsufficientStock` or
  `ValidationError`. Every method
  keeps the schema invariant and the uniqueness of names. Every failing call leaves the
  collection unchanged. `searchSweets` is pure. It builds the MongoDB query object field
  by field (`BuildQuery`), and the store evaluates that object (`DocMatches`, `Search`).
  Lemmas prove that this selects exactly the documents that meet every filter present.
- **The router** (`backend/routes/sweets.js`), in `access_policy.dfy` and
  `sweets_router.dfy`. The router table gives each route its middleware chain.
  `Authorize` runs that chain for a principal, or for none when the bearer token is
  missing or invalid, and answers `Allow`, `Unauthorized` (401) or `Forbidden` (403).
  `Handle` puts the gates in front of the controller methods. A rejected request
  provably leaves the store unchanged, and an allowed one gets exactly the response
  and the new collection that `Served` prescribes for its controller.

`text.dfy` holds the string functions these need: JavaScript's `trim`, ASCII
lower-casing and substring search. `outcomes.dfy` holds `Option`, the error kinds and
`Result`.

Modelling decisions:

- **Name lookups trim the query.** Mongoose runs the `trim` setter on query filters, so
  `findOne({ name })` compares the trimmed value with the stored names.
  - One consequence is modelled as written. Suppose an update sends the current name
    with surrounding spaces. The name differs from the stored one, so the rename check
    runs. `findOne` then finds the document itself, and the update fails with
    `DuplicateName`. `PaddedOwnNameClashes` states this.
- **Update merges fields.** A field the update omits keeps its stored value, because
  Mongoose 7 and later drop `undefined` keys from an update. A supplied field is trimmed
  and validated (`runValidators: true`).
  - Under older Mongoose versions, omitted fields were written as null instead, and the
    update then failed the `required` validators. The model follows current Mongoose.
- **Create needs authentication.** The old, commented-out router line
  (`backend/routes/sweets.js:16`) left create open to unauthenticated callers. The live
  line 127 mounts `authMiddleware`, and the model follows it.
- **Absent body fields are `None`.**
  - A missing quantity in purchase or restock fails the `!quantity` guard.
  - A missing schema field fails validation.
  - A missing name in create matches no document, so the call goes on to fail
    validation.
- **Ids come from a counter.** They are never reused, which matches ObjectIds.

## Model

| member | source | states |
|---|---|---|
| `SweetSchema.Validate` | backend/models/Sweet.js:3-25 | a draft is accepted exactly when every field is present, both trimmed strings are non-empty and price and quantity are at least 0; the accepted document is valid and carries the trimmed strings and the given numbers |
| `SweetSchema.ValidateValid` | backend/models/Sweet.js:3-25 | re-validating a stored valid document gives it back unchanged |
| `SweetSchema.ValidateAcceptsExactlyValid` | backend/models/Sweet.js:3-25 | a document passes validation unchanged if and only if it satisfies every schema constraint, so nothing invalid is persisted |
| `SweetSchema.Valid` | backend/models/Sweet.js:3-25 | one document meets the schema: name and category present, trimmed and non-empty, price and quantity at least 0 |
| `SweetSchema.NamesUnique` | backend/models/Sweet.js:4-9 | the `unique` index on `name`: two stored documents with the same name are the same document |
| `SweetSchema.StoreValid` | backend/models/Sweet.js:3-25 | the collection invariant: every stored document is valid and names are unique |
| `Text.IsSpace` | backend/models/Sweet.js:8 | the characters JavaScript's `trim` removes: the ECMAScript white-space and line-terminator code points |
| `Text.Trim` | backend/models/Sweet.js:8 | the `trim` setter: leading white space is dropped, then trailing white space |
| `Text.ContainsIgnoreCase` | sweet-shop/backend/controllers/sweetsController.js:33-34 | the `$options: 'i'` match: the lower-cased needle occurs in the lower-cased field |
| `Text.TrimStart` | backend/models/Sweet.js:8 | dropping leading white space never lengthens the value |
| `Text.TrimEnd` | backend/models/Sweet.js:13 | dropping trailing white space never lengthens the value |
| `Text.TrimStartSpec` | backend/models/Sweet.js:8 | the result is a suffix of the input that does not start with white space, and everything cut off is white space |
| `Text.TrimEndSpec` | backend/models/Sweet.js:13 | the result is a prefix of the input that does not end with white space, and everything cut off is white space |
| `Text.TrimIsTrimmed` | backend/models/Sweet.js:8 | a trimmed value has no white space at either end and occurs inside the original |
| `Text.TrimmedFixed` | backend/models/Sweet.js:13 | trimming a stored (already trimmed) value leaves it unchanged |
| `Text.TrimIdempotent` | backend/models/Sweet.js:8 | trimming twice equals trimming once |
| `Text.TrimEmptyIffBlank` | backend/models/Sweet.js:6-8 | a value trims to the empty string, and so fails `required`, exactly when it is all white space |
| `Text.Lower` | sweet-shop/backend/controllers/sweetsController.js:33 | lower-casing keeps the length |
| `Text.LowerAt` | sweet-shop/backend/controllers/sweetsController.js:33 | each character of the lower-cased string is the lower-cased character |
| `Text.LowerSlice` | sweet-shop/backend/controllers/sweetsController.js:33-34 | lower-casing commutes with taking a slice |
| `Text.LowerIdempotent` | sweet-shop/backend/controllers/sweetsController.js:33-34 | lower-casing twice equals lower-casing once |
| `Text.ContainsIff` | sweet-shop/backend/controllers/sweetsController.js:33-34 | the substring search succeeds if and only if the needle occurs at some position of the haystack |
| `Text.ContainsImpliesIgnoreCase` | sweet-shop/backend/controllers/sweetsController.js:33-34 | an exact occurrence is also a case-insensitive occurrence |
| `Text.IgnoreCaseOfQuery` | sweet-shop/backend/controllers/sweetsController.js:33-34 | the case-insensitive match does not depend on the letter case of the query |
| `Text.ContainsSelfAndEmpty` | sweet-shop/backend/controllers/sweetsController.js:33-34 | every field matches itself and the empty pattern case-insensitively |
| `SweetSearch.BuildQuery` | sweet-shop/backend/controllers/sweetsController.js:31-36 | the query object: a truthy name or category becomes a text condition, and each given price bound sets `$gte` or `$lte` of one shared `price` condition |
| `SweetSearch.DocMatches` | sweet-shop/backend/controllers/sweetsController.js:39 | how `Sweet.find` evaluates the query object on one document: every condition in it holds |
| `SweetSearch.Search` | sweet-shop/backend/controllers/sweetsController.js:39 | the search returns only stored documents, each with its stored fields |
| `SweetSearch.BuildQueryMeaning` | sweet-shop/backend/controllers/sweetsController.js:30-36 | the query object built field by field selects a document if and only if every filter that is present holds of it |
| `SweetSearch.SearchSelects` | sweet-shop/backend/controllers/sweetsController.js:29-39 | an id is in the result if and only if it is stored and its document meets every present filter (case-insensitive name and category containment, inclusive price bounds) |
| `SweetSearch.SearchNoFilters` | sweet-shop/backend/controllers/sweetsController.js:30-39 | with no filter present the search returns the whole collection |
| `SweetSearch.SearchEmptyRange` | sweet-shop/backend/controllers/sweetsController.js:35-36 | a minimum price above the maximum price selects nothing |
| `SweetSearch.SearchIsConjunction` | sweet-shop/backend/controllers/sweetsController.js:31-36 | the combined search selects the intersection of what each filter selects alone |
| `SweetSearch.SearchFindsOwnName` | sweet-shop/backend/controllers/sweetsController.js:33-34 | searching by a document's own name, its lower-cased name or its category finds it |
| `SweetSearch.ChocolateMatchesChoc` | sweet-shop/backend/controllers/sweetsController.js:34 | the category query "choc" selects a sweet of category "Chocolate" |
| `SweetsController.AddClashes` | sweet-shop/backend/controllers/sweetsController.js:8-9 | `findOne({ name })` in `addSweet` finds a document: a name is given and some stored name equals it after trimming |
| `SweetsController.RenameClashes` | sweet-shop/backend/controllers/sweetsController.js:56-58 | the rename check fails: the name is truthy, differs from the current one as sent, and its trimmed form is a stored name |
| `SweetsController.Merge` | sweet-shop/backend/controllers/sweetsController.js:63-65 | the document the update writes: each supplied field replaces the stored one and each omitted field keeps it |
| `SweetsController.PositiveQuantity` | sweet-shop/backend/controllers/sweetsController.js:92 | the negation of the guard `!quantity \|\| quantity <= 0`: the quantity is present and positive |
| `SweetsController.PutKeepsStoreValid` | backend/models/Sweet.js:4-9 | writing a valid document whose name no other document holds keeps the collection valid and its names unique |
| `SweetsController.ExactNameClashes` | sweet-shop/backend/controllers/sweetsController.js:8-11 | adding a name some document holds exactly is a clash |
| `SweetsController.RenameToOtherClashes` | sweet-shop/backend/controllers/sweetsController.js:56-61 | renaming a document to a name another document holds is a clash |
| `SweetsController.KeepingNameSkipsCheck` | sweet-shop/backend/controllers/sweetsController.js:56 | omitting the name, or sending the current name, never clashes |
| `SweetsController.PaddedOwnNameClashes` | sweet-shop/backend/controllers/sweetsController.js:56-57 | sending the current name with a leading space clashes with the document itself |
| `SweetsController.MergeFields` | sweet-shop/backend/controllers/sweetsController.js:63-67 | a validated update is a valid document carrying each supplied field (trimmed) and the stored value of each omitted one |
| `SweetsController.UpdateKeepsStoreValid` | sweet-shop/backend/controllers/sweetsController.js:51-67 | an update that passed the rename check and validation keeps every document valid and every name unique |
| `SweetsController.EmptyPatchKeepsDocument` | sweet-shop/backend/controllers/sweetsController.js:63-67 | an update that supplies no field writes the document back unchanged |
| `SweetsController.SweetStore.AddSweet` | sweet-shop/backend/controllers/sweetsController.js:4-18 | a taken (trimmed) name fails with DuplicateName, then an invalid draft fails with ValidationError, and both leave the store unchanged; otherwise exactly one new document, the validated draft, is inserted under a fresh id and returned, and all other documents are unchanged |
| `SweetsController.SweetStore.GetSweets` | sweet-shop/backend/controllers/sweetsController.js:20-27 | returns the whole collection, every document valid and names unique |
| `SweetsController.SweetStore.SearchSweets` | sweet-shop/backend/controllers/sweetsController.js:29-44 | returns exactly the stored documents that meet every present filter; the result is a valid collection |
| `SweetsController.SweetStore.UpdateSweet` | sweet-shop/backend/controllers/sweetsController.js:46-72 | a missing id fails with NotFound, a clashing rename with DuplicateName and an invalid merge with ValidationError, each leaving the store unchanged; otherwise only that id changes, to the validated merge, which is returned |
| `SweetsController.SweetStore.DeleteSweet` | sweet-shop/backend/controllers/sweetsController.js:74-86 | a missing id fails with NotFound and changes nothing; otherwise exactly that id is removed and the removed document (what `findByIdAndDelete` yields) is returned to the caller |
| `SweetsController.SweetStore.PurchaseSweet` | sweet-shop/backend/controllers/sweetsController.js:88-110 | a missing or non-positive quantity fails with InvalidQuantity before the lookup, a missing id with NotFound, a quantity above stock with InsufficientStock, each leaving the store unchanged; otherwise the stock of that id drops by exactly the quantity and stays at least 0, and nothing else changes |
| `SweetsController.SweetStore.RestockSweet` | sweet-shop/backend/controllers/sweetsController.js:112-131 | a missing or non-positive quantity fails with InvalidQuantity, a missing id with NotFound, each leaving the store unchanged; otherwise the stock of that id grows by exactly the quantity, with no upper bound, and nothing else changes |
| `AccessPolicy.RouteChain` | backend/routes/sweets.js:127-589 | the middleware chain of each route; every chain starts with authentication, and the admin gate is on delete and restock only |
| `AccessPolicy.RunGate` | backend/routes/sweets.js:127-589 | `authMiddleware` answers Unauthorized exactly when there is no principal; the admin gate lets through exactly an admin principal and otherwise answers Forbidden |
| `AccessPolicy.Authorize` | backend/routes/sweets.js:127-589 | the decision for a route: without a principal it is Unauthorized, and Forbidden only comes from a route that mounts the admin gate |
| `AccessPolicy.RunChain` | backend/routes/sweets.js:127-589 | a middleware chain lets a request through exactly when every gate does, and otherwise answers with the verdict of the first gate that rejects, every earlier gate having let it through |
| `AccessPolicy.AuthorizeMatchesTable` | backend/routes/sweets.js:127-589 | no credential gives Unauthorized on every route; Forbidden exactly for a user on delete or restock; Allow exactly for an admin, or for any principal on the other routes |
| `AccessPolicy.RolesAndRoutes` | backend/routes/sweets.js:127-589 | an admin passes every route; a user passes every route except delete and restock, where the answer is Forbidden |
| `AccessPolicy.AuthenticationFirst` | backend/routes/sweets.js:360-401 | every chain starts with the authentication gate, so a request without a credential gets Unauthorized even on admin routes |
| `SweetsRouter.Handle` | backend/routes/sweets.js:127-589 | a request the gates reject gets their verdict and leaves the store unchanged; an allowed request gets the response and the new collection of its controller, as `Served` states case by case (errors in the controller's order, each leaving the store unchanged; the created, updated, purchased or restocked document and the collection with exactly that change; the delete confirmation and the collection without that id; the whole collection or the search result); a non-admin's delete or restock is Forbidden with no state change |
| `SweetsRouter.ServedFailureKeepsStore` | sweet-shop/backend/controllers/sweetsController.js:4-131 | a request the controller serves and fails leaves the collection unchanged; an allowed request is never answered with a gate verdict; only list and search answer with a set of documents |
| `SweetsRouter.ServedPurchaseKeepsStock` | sweet-shop/backend/controllers/sweetsController.js:88-110 | a served purchase succeeds exactly when the quantity is positive, the id exists and the stock covers it; on a valid collection the stock of that id stays at least 0; every other document is untouched |
| `SweetsRouter.DeleteTwice` | sweet-shop/backend/controllers/sweetsController.js:78-82 | deleting the same id twice fails the second time with NotFound |
| `SweetsRouter.PurchaseThenRestock` | sweet-shop/backend/controllers/sweetsController.js:101-126 | a purchase succeeds exactly when the id exists and 0 < quantity <= stock; restocking the same amount afterwards restores the collection |
| `SweetsRouter.LadooScenario` | sweet-shop/backend/controllers/sweetsController.js:88-131 | Ladoo with stock 10: buying 12 fails with InsufficientStock, buying 10 leaves 0, restocking 5 leaves 5 |

## Left out

- `$regex` semantics. The name and category filters are matched as literal,
  case-insensitive substrings over ASCII. Regular-expression metacharacters in the
  query, and non-ASCII case folding, are not modelled.
- JavaScript coercion. Request fields are typed: quantities are `int`, prices exact
  `real`. Non-numeric strings that pass `!quantity || quantity <= 0`, `Number(...)` of
  an unparsable query parameter (NaN), and fractional quantities are not modelled.
- Storage and infrastructure failures. The 500 branches, ObjectId cast errors and
  storage exceptions are not modelled. The 400 catch branches of `addSweet` and
  `updateSweet` appear only as `ValidationError`, which is where schema validation
  failures surface.
- Concurrency. Each operation is atomic. The read-then-write race between `findById`
  and `save` in purchase and restock is not modelled.
- Floating-point prices. The price is an exact `real`.
- Authentication internals. Token signing and validation, password checks and the
  `authController` are not modelled. `middleware/auth.js` is not part of this model:
  the principal (id and role) or its absence is an input, and the behaviour of the two
  gates follows the documented 401 and 403 responses.
- The bodies of the responses. HTTP status codes and message texts are named in
  comments only. `Response` keeps the documents a response carries and the error
  kind. A successful delete answers only its confirmation message, so `Removed`
  carries no document; the document `DeleteSweet` returns stays on the server side.
- `SweetsController.SweetStore.GetSweets`: returns the documents as a map from id,
  so the order in which MongoDB returns them is not modelled.
- `SweetsController.SweetStore.SearchSweets`: returns the documents as a map from id,
  so the order in which MongoDB returns them is not modelled.
- The user interface and HTTP client code, server bootstrap, database connection and
  API documentation generation. None of them holds inventory logic.
