# SnackSmart core in Dafny

A functional model of the decision logic of the SnackSmart shop back end and
its admin pages. Each HTTP handler becomes one pure function from the store
(sequences of rows, or a map for the cart) and the request to an `Outcome`.
An `Outcome` is a success value, a status code with a message, or a 400
that carries a schema's issue list. The clock (`now`) and every verdict
computed outside the model are parameters. Those verdicts are the email and
URL formats and the bcrypt hash.

Modules:

- `Wrappers`: `Option`, `Outcome` and `Take` (`slice(0, n)`, Prisma's `take`).
- `Strings`: the JavaScript primitives the handlers rely on. These are
  `length` in UTF-16 code units, `trim`, `includes`/`contains`, ASCII
  `toUpperCase`, and code-unit order.
- `Catalog`: product rows, `findUnique` by id, and the `orderBy` orderings.
- `Preferences`: the interaction log. It covers tracking with the 20-row
  rotation per identity, the recent-products strip (active, de-duplicated,
  at most 4), recommendations (unviewed, preferred category, at most 10)
  and clearing.
- `ProductListing`: the product search, the choice of ordering, and the
  preference-biased stable sort.
- `Cart`: add, update, remove and clear as transitions on a
  `(user, product) -> quantity` map, bounded by stock.
- `Coupons`: the computed status, the checkout validation cascade, the
  creation schema with its duplicate check, and deactivation.
- `CouponForm`: the admin coupon page's status chip and submit guards.
- `Sales`: the sales summary and the top-five products.
- `Admins`: admin creation, field-selective update, and deactivation and
  deletion, with the guard against acting on one's own account.
- `Validators`: the zod schemas as predicates, with the issues they report.
- `ProductService`: `normalizeProducts`, from any JSON value to a list.

Money (prices, order totals, revenue) is integer cents. The average order
value and coupon values are exact reals.

## Model

| member | source | states |
|---|---|---|
| Wrappers.Take | backend/src/controllers/preferenceController.js:162 | the result is the first min(n, length) elements of the input, in order |
| Strings.Utf16Length | backend/src/utils/validators.js:5 | the JavaScript length lies between the character count and twice it, and equals the character count when no character is outside the Basic Multilingual Plane |
| Strings.Utf16LengthAppend | backend/src/utils/validators.js:12 | JavaScript lengths add up under concatenation |
| Strings.TrimProperties | backend/src/controllers/productController.js:21 | a trimmed term is empty exactly when the search text is all whitespace; a non-empty one starts and ends with a non-whitespace character |
| Strings.Contains | backend/src/controllers/productController.js:24-26 | `contains` holds exactly when the term occurs as a contiguous run in the text |
| Strings.UpperCaseIdentifiesCaseVariants | backend/src/controllers/couponController.js:160-162 | two codes upper-case to the same string exactly when they differ only in ASCII letter case |
| Strings.ToUpperIdempotent | backend/src/controllers/couponController.js:5 | an upper-cased code is unchanged by upper-casing it again |
| Catalog.Find | backend/src/controllers/cartController.js:63-69 | a product found carries the requested id and is in the table; none is found exactly when no row has that id |
| Catalog.FindUnique | backend/src/controllers/cartController.js:63-65 | with unique ids, the lookup returns the one row holding the id |
| Catalog.Sort | backend/src/controllers/productController.js:97-109 | the listing under an `orderBy` is a permutation of the rows, sorted by the field in the requested direction |
| Catalog.PrecedesTotal | backend/src/controllers/productController.js:34-39 | any two products are comparable under each ordering |
| Catalog.PrecedesTransitive | backend/src/controllers/productController.js:34-39 | each ordering is transitive |
| Preferences.ParseAction | backend/src/controllers/preferenceController.js:15-18 | an action type is accepted exactly when it is `search`, `click` or `view` |
| Preferences.ResolveIdentity | backend/src/controllers/preferenceController.js:20-25 | no identity exactly when both user id and session id are absent; the user id wins when present, otherwise the session id |
| Preferences.OwnerUnique | backend/src/controllers/preferenceController.js:66-74 | a stored row belongs to exactly one identity |
| Preferences.Owned | backend/src/controllers/preferenceController.js:42-48 | the identity's rows are exactly the rows of the table it owns |
| Preferences.Disowned | backend/src/controllers/preferenceController.js:239-243 | the rows kept by `deleteMany` are exactly those the identity does not own |
| Preferences.OwnedAppend | backend/src/controllers/preferenceController.js:66-74 | inserting a row extends the owner's log by that row and leaves every other log as it was |
| Preferences.RemoveFirstOwned | backend/src/controllers/preferenceController.js:50-55 | the eviction deletes exactly the identity's first row and keeps all others |
| Preferences.RemoveFirstOwnedKeepsOthers | backend/src/controllers/preferenceController.js:50-55 | the eviction leaves every other identity's log intact |
| Preferences.OwnedChronological | backend/src/controllers/preferenceController.js:42-48 | an identity's log taken from a chronological table is chronological |
| Preferences.Track | backend/src/controllers/preferenceController.js:4-86 | the errors in order: missing field 400, unknown action 400, no identity 400, unknown product 404; success exactly when all checks pass |
| Preferences.TrackWritesRow | backend/src/controllers/preferenceController.js:28-74 | the new row is the identity's, has no session id once a user id is set, references the product, copies its category at write time and carries `now` |
| Preferences.TrackRotates | backend/src/controllers/preferenceController.js:42-74 | at 20 or more rows the identity's oldest row is evicted and its count stays n; below 20 it grows to n + 1; the table changes by exactly that row out and the new row in |
| Preferences.TrackKeepsOthers | backend/src/controllers/preferenceController.js:42-74 | a track call leaves every other identity's rows untouched |
| Preferences.TrackEvictsOldest | backend/src/controllers/preferenceController.js:42-55 | in a chronological table the evicted row has the smallest `createdAt` of the identity's rows |
| Preferences.TrackPreservesWellFormed | backend/src/controllers/preferenceController.js:66-74 | every row stays owned by exactly one identity |
| Preferences.TrackPreservesBound | backend/src/controllers/preferenceController.js:42-74 | if every identity holds at most 20 rows, it still does after a track call |
| Preferences.TrackPreservesChronology | backend/src/controllers/preferenceController.js:42-74 | with a clock that does not run backwards, the table stays in `createdAt` order |
| Preferences.RemoveFirstOwnedChronological | backend/src/controllers/preferenceController.js:50-55 | deleting a row keeps the table chronological |
| Preferences.KeptChronological | backend/src/controllers/preferenceController.js:42-55 | the table after the optional eviction is chronological |
| Preferences.Reverse | backend/src/controllers/preferenceController.js:118-134 | newest-first order is the reversal of insertion order |
| Preferences.RecentRows | backend/src/controllers/preferenceController.js:118-134 | at most 20 rows; `Preferences.RecentRowsOwned` shows they are the identity's, min(20, its count) of them, and `Preferences.RecentRowsNewestFirst` that they come newest first |
| Preferences.RecentRowsOwned | backend/src/controllers/preferenceController.js:118-134 | the recent rows are the identity's, min(20, its row count) of them |
| Preferences.RecentRowsNewestFirst | backend/src/controllers/preferenceController.js:118-134 | the recent rows come newest first, and no omitted row of the identity is newer than a returned one |
| Preferences.JoinProducts | backend/src/controllers/preferenceController.js:125-132 | the join succeeds exactly when every row's product exists, giving one product per row |
| Preferences.FirstSeenProperties | backend/src/controllers/preferenceController.js:136-156 | the de-duplicated list holds only active products from the input, with distinct ids, and covers every active id |
| Preferences.CollectUniqueActive | backend/src/controllers/preferenceController.js:136-156 | the loop with its `seenProductIds` set computes exactly the first-seen de-duplication |
| Preferences.RecentPreferences | backend/src/controllers/preferenceController.js:89-168 | no identity gives empty lists with 200; otherwise the answer's `preferences` are exactly the identity's recent rows (newest first by `Preferences.RecentRowsNewestFirst`); at most 4 products, all active with distinct ids; 500 exactly when a row's product is missing |
| Preferences.RecentProductsFirstSeen | backend/src/controllers/preferenceController.js:136-162 | every shown product is the product of some recent row, and shown products come in the order of their first occurrence among the recent rows |
| Preferences.RecentUnshownComesLater | backend/src/controllers/preferenceController.js:136-162 | an active product of the recent rows that the strip leaves out occurs only after every shown one, so the strip holds the most recent distinct active products |
| Preferences.RecentProductsComplete | backend/src/controllers/preferenceController.js:136-162 | when fewer than 4 products are shown, every active product of the recent rows is among them |
| Preferences.Categories | backend/src/controllers/preferenceController.js:198-201 | the preferred categories never include a falsy (empty) one |
| Preferences.FilterEligible | backend/src/controllers/preferenceController.js:204-217 | a product is kept exactly when it is active, not viewed, and in a preferred category when any is known |
| Preferences.FilterEligibleSorted | backend/src/controllers/preferenceController.js:204-218 | filtering keeps the newest-first order |
| Preferences.Recommendations | backend/src/controllers/preferenceController.js:171-227 | at most 10 recommendations |
| Preferences.RecommendationsSound | backend/src/controllers/preferenceController.js:176-220 | empty without an identity or rows; otherwise every result is eligible and from the catalogue, the list is newest first, a short list holds every eligible product, and a full list of 10 leaves out no eligible product newer than one it holds |
| Preferences.ClearPreferences | backend/src/controllers/preferenceController.js:230-250 | no identity answers 400; otherwise the identity has no rows left and exactly the other rows remain |
| Preferences.DisownedKeepsOthers | backend/src/controllers/preferenceController.js:239-243 | deleting one identity's rows leaves each other identity's log intact, in order |
| Preferences.ClearKeepsOthers | backend/src/controllers/preferenceController.js:235-243 | clearing leaves every other identity's log exactly as it was |
| ProductListing.FilterMatching | backend/src/controllers/productController.js:23-27 | a product is kept exactly when its name, description or category contains the term; the result is a sub-multiset |
| ProductListing.SearchFilter | backend/src/controllers/productController.js:20-29 | a blank search keeps every product; otherwise a product is included exactly when a field contains the trimmed term |
| ProductListing.BlankSearchKeepsAll | backend/src/controllers/productController.js:21 | a whitespace-only search filters nothing out |
| ProductListing.SelectOrder | backend/src/controllers/productController.js:34-39 | `name` and `price` sort by that field, descending exactly when `desc` is asked; anything else is newest first |
| ProductListing.Rank | backend/src/controllers/productController.js:78-86 | there are four preference ranks |
| ProductListing.Compare | backend/src/controllers/productController.js:77-88 | answers -1, 0 or 1, and -1 exactly when only the first product was viewed, or both agree on that and only the first is in a preferred category |
| ProductListing.CompareIsRankOrder | backend/src/controllers/productController.js:77-88 | the comparator's sign is the comparison of ranks, so it is a consistent total preorder and antisymmetric |
| ProductListing.Bucket | backend/src/controllers/productController.js:77-88 | a rank class holds only input products of that rank |
| ProductListing.BucketsPermute | backend/src/controllers/productController.js:77-88 | the four rank classes together are a permutation of the input |
| ProductListing.PreferenceSort | backend/src/controllers/productController.js:76-89 | lists only input products; with `ProductListing.BucketsPermute`, `ProductListing.PreferenceSortSorted` and `ProductListing.PreferenceSortStable` it is the stable sort under the comparator |
| ProductListing.PreferenceSortSorted | backend/src/controllers/productController.js:77-88 | the preference sort is a permutation of its input, ordered by rank |
| ProductListing.PreferenceSortStable | backend/src/controllers/productController.js:77-88 | products of equal rank keep their input order |
| ProductListing.RankSortedMeansPreferenceOrder | backend/src/controllers/productController.js:78-86 | in the output the comparator never puts a later product first: viewed products precede unviewed ones, and preferred-category products come first among equal viewed-status |
| ProductListing.PreferenceSortExample | backend/src/controllers/productController.js:77-88 | viewed A (category X), B (Y) and C (X) with preferred X are listed A, C, B |
| ProductListing.GetAllProducts | backend/src/controllers/productController.js:7-113 | the listing is a permutation of the search-filtered products on both paths, with no status filter |
| ProductListing.GetAllProductsOrder | backend/src/controllers/productController.js:34-56 | with preferences, an identity and recent rows the listing is rank-sorted; otherwise it is sorted by the selected ordering, newest first without an identity |
| Cart.AddToCart | backend/src/controllers/cartController.js:51-121 | a missing id is 400, an unknown product 404; success adds the quantity (default 1) to the line or creates it, within stock, and changes no other line |
| Cart.AddToCartStockRule | backend/src/controllers/cartController.js:71-93 | an add fails for stock exactly when the quantity, or the line's new total, exceeds the stock |
| Cart.AddToCartAcceptsNonPositive | backend/src/controllers/cartController.js:54-113 | an add of zero or a negative quantity is accepted when stock allows |
| Cart.UpdateCartQuantity | backend/src/controllers/cartController.js:124-176 | missing fields and a quantity below 1 are 400; success exactly when the product exists with enough stock and the line exists; the line then holds exactly the given quantity and no other line changes |
| Cart.UpdateCartQuantityErrors | backend/src/controllers/cartController.js:142-173 | an unknown product is 404, short stock 400, a missing line 404, in that order |
| Cart.RemoveFromCart | backend/src/controllers/cartController.js:179-207 | success exactly when the line exists, deleting only that line; a missing line is 404 |
| Cart.ClearCart | backend/src/controllers/cartController.js:210-223 | every line of the user goes and every other user's line stays |
| Cart.CartKeepsWithinStock | backend/src/controllers/cartController.js:71-152 | every successful transition keeps each line within its product's stock |
| Coupons.ComputedStatus | backend/src/controllers/couponController.js:23-36 | inactive exactly when switched off; otherwise expired exactly outside [validFrom, validTo]; otherwise active, boundaries included |
| Coupons.FindByCode | backend/src/controllers/couponController.js:160-162 | a coupon found carries the code; none is found exactly when no row has it |
| Coupons.ValidateCoupon | backend/src/controllers/couponController.js:156-195 | validation never answers with a schema issue list; its answers in order are stated by `Coupons.ValidateCouponCascade` |
| Coupons.ValidateCouponCascade | backend/src/controllers/couponController.js:160-190 | unknown 404, then inactive, not yet valid, expired (400 each); success exactly when the computed status is active, returning code, type and value |
| Coupons.ValidateIgnoresCase | backend/src/controllers/couponController.js:160-162 | codes that differ only in letter case validate identically |
| Coupons.StoredCouponFoundInAnyCase | backend/src/controllers/couponController.js:160-162 | an upper-case stored code is found whatever case the customer types |
| Coupons.FindByCodeUnique | backend/src/controllers/couponController.js:160-162 | with unique codes, a stored coupon is the one its code finds |
| Coupons.ParseCoupon | backend/src/controllers/couponController.js:4-11 | accepts exactly a code of length at least 3, type percentage or fixed, and a positive value; the accepted code is upper case, and the type, dates and `isActive` are the input's; a rejection lists at least one issue |
| Coupons.CouponIssues | backend/src/controllers/couponController.js:4-11 | no issues exactly when the code is at least 3 long, the type percentage or fixed and the value positive; at most one issue per field |
| Coupons.CreateCoupon | backend/src/controllers/couponController.js:49-81 | schema issues answer 400, an existing code 409; success exactly when the input is valid and its upper-cased code unused, appending one row with the next id, the upper-cased code, the input's type, value and dates, and `isActive` defaulting to true |
| Coupons.CreateKeepsCodesCanonical | backend/src/controllers/couponController.js:49-81 | stored codes stay unique and upper case across creations |
| Coupons.DeactivateCoupon | backend/src/controllers/couponController.js:134-151 | success exactly when the id exists, and only that coupon's `isActive` turns false; an unknown id is 500 |
| Coupons.SwitchOff | backend/src/controllers/couponController.js:138-141 | only the rows with the id change, and only in `isActive` |
| Coupons.DeactivatedCouponRejected | backend/src/controllers/couponController.js:138-171 | after deactivation checkout rejects the coupon as no longer active, at any instant |
| CouponForm.StatusChip | frontend/src/pages/admin/Coupons.jsx:242-280 | Inactive exactly when switched off; else Expired past the end; else Scheduled before the start; else Active |
| CouponForm.ChipAgreesWithServer | frontend/src/pages/admin/Coupons.jsx:242-280 | the chip is Active exactly when the server status is active, Inactive exactly when it is inactive; the server's expired covers both Expired and Scheduled chips |
| CouponForm.Submit | frontend/src/pages/admin/Coupons.jsx:109-189 | the four checks reject in order with their messages before any service call; a passing form is sent as an update of the edited coupon or as a create |
| CouponForm.SubmitSendsIffChecksPass | frontend/src/pages/admin/Coupons.jsx:113-161 | a form is sent exactly when all fields are filled, the value is not at most 0, a percentage does not exceed 100, and the start is not at or after the end |
| CouponForm.SentFormIsInRange | frontend/src/pages/admin/Coupons.jsx:127-152 | a sent form with a number and valid dates has a positive value, at most 100 for a percentage, and a start before its end |
| CouponForm.HundredPercentAccepted | frontend/src/pages/admin/Coupons.jsx:136-143 | a percentage of exactly 100 passes |
| CouponForm.UnparsableValuePasses | frontend/src/pages/admin/Coupons.jsx:127-143 | a value that does not parse as a number passes both value checks |
| Sales.CountedOrders | backend/src/controllers/salesController.js:12-30 | exactly the completed orders, within the range only when both dates are given |
| Sales.ItemsOf | backend/src/controllers/salesController.js:72-77 | exactly the items of the given orders |
| Sales.CountedItemsAreCompleted | backend/src/controllers/salesController.js:57-77 | an item is aggregated exactly when its order is completed and in range |
| Sales.AddItem | backend/src/controllers/salesController.js:81-92 | adding an item keeps one entry per product, ascending by id, and adds its product |
| Sales.AddItemSums | backend/src/controllers/salesController.js:90-91 | an item adds its quantity and revenue to its own product only |
| Sales.Group | backend/src/controllers/salesController.js:80-92 | one entry per sold product, ascending by id |
| Sales.GroupSums | backend/src/controllers/salesController.js:80-92 | each entry's quantity and revenue are the sums over that product's items |
| Sales.EntryAggregates | backend/src/controllers/salesController.js:80-92 | an entry carries its product's aggregate |
| Sales.SortByQuantity | backend/src/controllers/salesController.js:95-96 | the sort is a permutation in non-increasing quantity |
| Sales.InsertByQty | backend/src/controllers/salesController.js:95-96 | inserting keeps the order and adds exactly the one entry |
| Sales.SortByQuantityOrdered | backend/src/controllers/salesController.js:95-96 | ties keep ascending product id, and ids stay distinct |
| Sales.TopProducts | backend/src/controllers/salesController.js:53-104 | at most five entries |
| Sales.TopProductsOrdered | backend/src/controllers/salesController.js:95-97 | distinct products, larger totals first, ties by ascending id |
| Sales.TopProductsSums | backend/src/controllers/salesController.js:80-97 | each entry is a sold product with the sum of its quantities and revenues |
| Sales.TopProductsPrefix | backend/src/controllers/salesController.js:95-97 | a sold product left out means five are listed, each with a total at least its own |
| Sales.SalesSummary | backend/src/controllers/salesController.js:8-48 | the order count is that of counted orders; no orders gives average 0 and revenue 0; otherwise average times count is the revenue |
| Sales.SummaryOf | backend/src/controllers/salesController.js:32-37 | the figures are the count and the sum of totals, with the average exact |
| Sales.SumTotalsAppend | backend/src/controllers/salesController.js:33-36 | revenue adds up over concatenated order lists |
| Sales.CountedOrdersAppend | backend/src/controllers/salesController.js:21-30 | a new order is counted exactly when it is completed and in range |
| Sales.SummaryAppend | backend/src/controllers/salesController.js:21-37 | an uncounted order leaves the summary as it was; a counted one adds one order and its total |
| Admins.CreateAdmin | backend/src/controllers/adminManagementController.js:39-91 | issues exactly when name, email, password or role break the schema; a used email is 409; success appends an active admin with the hash |
| Admins.AdminIssues | backend/src/controllers/adminManagementController.js:5-10 | no issues exactly when the name is at least 3 long, the email valid, the password at least 8 long and the role Super Admin or Staff Admin; at most one issue per field |
| Admins.Patch | backend/src/controllers/adminManagementController.js:99-105 | name, email and role change only when given truthy, `isActive` only when given; id, password and creation time never change |
| Admins.PatchRows | backend/src/controllers/adminManagementController.js:99-105 | only the row with the id is patched |
| Admins.UpdateAdmin | backend/src/controllers/adminManagementController.js:96-127 | success exactly when the id exists and the new email is not another admin's; else 500; only that row changes |
| Admins.UpdateAdminIdempotent | backend/src/controllers/adminManagementController.js:96-127 | repeating an update changes nothing more |
| Admins.EmptyUpdateChangesNothing | backend/src/controllers/adminManagementController.js:99-105 | an update with no fields leaves the table as it was |
| Admins.UpdateKeepsEmailsUnique | backend/src/controllers/adminManagementController.js:96-127 | emails stay unique under updates |
| Admins.CreateKeepsEmailsUnique | backend/src/controllers/adminManagementController.js:47-65 | emails stay unique under creation |
| Admins.DeactivateAdmin | backend/src/controllers/adminManagementController.js:132-162 | one's own id is 400 first; an unknown id 500; otherwise only that admin's `isActive` turns false |
| Admins.DeactivateIsUpdateOfIsActive | backend/src/controllers/adminManagementController.js:143-146 | deactivating another admin is the update carrying only `isActive: false` |
| Admins.DeleteAdmin | backend/src/controllers/adminManagementController.js:167-187 | one's own id is 400 first; an unknown id 500; otherwise exactly the rows with other ids remain |
| Admins.Without | backend/src/controllers/adminManagementController.js:178-180 | exactly the rows with other ids remain |
| Admins.WithoutRemovesOne | backend/src/controllers/adminManagementController.js:178-180 | with unique ids, a deletion removes exactly one row |
| Admins.WithoutAbsent | backend/src/controllers/adminManagementController.js:178-180 | deleting an absent id changes nothing |
| Admins.OwnAccountUntouched | backend/src/controllers/adminManagementController.js:137-176 | the signed-in admin's own row is never changed or removed by deactivation or deletion |
| Validators.PasswordIssues | backend/src/utils/validators.js:10-19 | no issues exactly when the password is at least 8 long and has a special character, an upper-case letter, a lower-case letter and a digit |
| Validators.ClientPasswordIssues | frontend/src/pages/Register.jsx:23-29 | at most one issue per rule |
| Validators.ClientAgreesWithServer | frontend/src/pages/Register.jsx:23-29 | both issue lists are the broken rules, in the same order, each mapped through its side's messages; a rule is listed exactly when the password breaks it, so the page accepts exactly the passwords the server accepts |
| Validators.StrongPasswordExtends | backend/src/utils/validators.js:10-19 | appending characters to a strong password keeps it strong |
| Validators.FullNameIssues | backend/src/utils/validators.js:3-6 | accepted exactly when the length is from 3 to 100 |
| Validators.LengthIssues | backend/src/utils/validators.js:22-23 | accepted exactly when the length lies within the bounds |
| Validators.NatText | backend/src/utils/validators.js:22 | a bound is printed as a non-empty run of digits that reads back as the bound, with no leading zero |
| Validators.RegisterIssues | backend/src/utils/validators.js:21-26 | accepted exactly when both names are 3 to 50 long, the email is valid and the password strong |
| Validators.LoginIssues | backend/src/utils/validators.js:28-31 | accepted exactly when the email is valid and the password non-empty |
| Validators.LoginIgnoresPasswordRules | backend/src/utils/validators.js:28-31 | a password registration refuses still passes login |
| Validators.ProductIssues | backend/src/utils/validators.js:33-39 | accepted exactly when the name is 1 to 100 long, a given description at most 500, a given category at most 50, the price positive and a given image a URL |
| ProductService.Get | frontend/src/services/productService.js:20-22 | a property is present exactly when the object has a field of that key |
| ProductService.FirstArrayKey | frontend/src/services/productService.js:26-28 | the key found is that of the first array-valued field; none exactly when no field holds an array |
| ProductService.Normalize | frontend/src/services/productService.js:13-33 | a falsy input gives the empty list and an array is returned unchanged |
| ProductService.NormalizeFindsAnArray | frontend/src/services/productService.js:13-33 | the result is empty, the input array, or the array under one of the input's keys |
| ProductService.WrapperPrecedence | frontend/src/services/productService.js:20-22 | `products` wins over `data`, which wins over `items` |
| ProductService.FirstArrayFieldReturned | frontend/src/services/productService.js:25-30 | without a wrapper, the first array-valued field is returned |
| ProductService.LookupDistinct | frontend/src/services/productService.js:29 | with distinct keys, a field's key looks up its own value |
| ProductService.NoArrayGivesEmpty | frontend/src/services/productService.js:25-32 | an input holding no array gives the empty list |

## Left out

- Preferences.Track: the evicted row is the identity's first row in insertion order. The database picks the smallest `createdAt`; the two agree on a chronological log (`Preferences.TrackEvictsOldest`), and rows with equal `createdAt` are ordered by insertion.
- Preferences.RecentRows: the recent rows are the identity's last 20 rows in reverse insertion order, where the database orders by `createdAt` descending. The two agree on a chronological log (`Preferences.RecentRowsNewestFirst`), which `Preferences.Track` keeps when the clock does not run backwards (`Preferences.TrackPreservesChronology`); `Track` itself accepts any `now`. The same substitution carries into `Preferences.RecentPreferences`, `Preferences.Recommendations` and `ProductListing.GetAllProducts`, which read the recent rows.
- Preferences.ResolveIdentity: a user id of 0 counts as present, where JavaScript truthiness would ignore it. Database ids start at 1, so no real user has that id.
- Cart.CartKeepsWithinStock: holds for the integer quantities the model accepts. The handlers compare the raw body value (`product.stock < quantity`, `quantity < 1`) but store `parseInt(quantity)`. A string such as "3abc" compares as NaN, passes every stock check and is stored as 3, even above stock; a fractional 1.5 is checked as 1.5 and stored as 1. The model takes the quantity as an integer already, so it does not show this bypass.
- Concurrency: each handler is one atomic step. The non-atomic count, delete and insert of `trackInteraction` and the read-then-write of `addToCart` can interleave in the real service; the model does not.
- Database collation: MySQL's case-insensitive collation governs Prisma's `contains`, the name ordering and several equality lookups. The model uses exact substrings, code-unit order and exact string equality throughout. This covers the email lookup and the email unique constraint of `Admins.CreateAdmin` and `Admins.UpdateAdmin` (`Admins.EmailTaken`, `Admins.EmailClash`), the coupon code lookups of `Coupons.FindByCode` in creation and validation, and the `category: { in: categories }` filter of `Preferences.Eligible`.
- The preference path of `getAllProducts` reads the products with a `findMany` that has no `orderBy`, so the database's order is unspecified. The model takes them in table order, and `ProductListing.PreferenceSortStable`'s input order is that table order.
- Database order among equal keys: the database promises no order among rows equal on the sort key, and `Catalog.Sort` promises none either (its insertion puts a later row ahead of an equal earlier one). The order in which Prisma returns order items is taken as given.
- Floating point: revenue and totals are integer cents and averages exact reals. `parseFloat` of prices and totals and `toFixed(2)` formatting are not modelled.
- `ValidateCoupon`'s result carries the value as a real, without `parseFloat`.
- Library calls are parameters: bcrypt hashing (`hashed`), zod's email and URL patterns (`emailValid`, `urlValid`), and `new Date` parsing (instants, or None for an invalid date on the coupon page).
- `toUpperCase` is modelled for ASCII letters only. Other characters are left unchanged.
- Clocks and randomness: `now` is a parameter. The guest session-id generation and the date helpers of the other sales endpoints are not modelled.
- Query parsing: `parseInt` of ids and of the query's `userId` is taken as already done, giving a natural number or absence. `NaN` ids and JSON `NaN` values are not modelled.
- JSON objects are given with distinct keys. `Normalize` assumes no two fields share a key, as a parsed JavaScript object guarantees.
- Schema "Required" and type-mismatch issues: inputs are modelled as present values of the right type, except where a handler checks presence itself.
- Missing database schema: the Prisma schema file is not part of this model. A coupon's `isActive` and a new admin's `isActive` are taken to default to true, and the email and coupon code columns to be unique.
- Database errors: a not-found or unique-constraint error in update, deactivate or delete surfaces as the handler's generic 500. The exception is the cart handlers, which catch it as 404. Other database failures (500) are not modelled, apart from the failed product join in `RecentPreferences`.
- The debugging query of `getRecentPreferences` over all of the identity's rows only logs, so it is left out.
- Response shapes beyond the modelled fields are left out: status 201 versus 200 on success, and the included `product` object on a cart line.
- Straight CRUD is left out: `updateCoupon`, `deleteCoupon`, the listing in `getAllCoupons` (its computed status is modelled), `getAllAdmins`, `getAdminById`, the other sales endpoints (recent orders, daily and monthly figures), and the customer, inventory, authentication and email controllers.
- Authentication (JWT, the middleware) is left out: the signed-in user or admin id is an input.
- The presentation layer (React rendering, routing, dialogs) is left out apart from the coupon page's status chip and submit guards and the registration page's password schema.
- Broken wiring in routes and pages (imports of functions that do not exist) is left out: identities and requests are explicit inputs.
