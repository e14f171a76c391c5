# Plantomart core, modelled in Dafny

Plantomart is a plant marketplace: a Next.js storefront and a Cloudflare Worker API.
This project models the three pieces of it that hold real logic, and proves what they
promise.

- **The client cart and wishlist** (`CRUD-Wishlist-and-Cart.ts`). Each helper computes a
  new list from the old one. An entry is keyed by its `id`, or by its `product_id` when
  `id` is empty. The helper then writes the list to `localStorage` under
  `plantomartCart` or `plantomartWishlist` through the size-guarded `safeLocalStorage`,
  and dispatches a `cartUpdated` or `wishlistUpdated` event.
  - Modules `Items`, `LocalStore` and `CartWishlist`.
  - The list transforms are pure functions.
  - `localStorage` is the class `LocalStore.Storage`, holding a `map`.
  - The window is the class `CartWishlist.Window`, holding the log of dispatched events.
  - The helpers are methods whose `ensures` tie the returned list, the new storage map
    and the new event log to those functions.
- **The order controller** (`cf-server/src/controllers/order.ts`).
  - It covers `createOrder`, the two paged listings, `getOrderItems`,
    `updateOrderStatus` and `getOrder`.
  - The database is the class `OrderController.Database`. It holds the id sets of users,
    vendors and products, and the `orders` and `order_items` tables as sequences in
    insertion order.
  - Its invariant is that order ids are unique and every item row belongs to an order.
    Each writing handler preserves it.
  - Module `OrderModel` holds the rows, the request, validation, the rows a create
    inserts, the status update and the listings, all as functions with their lemmas.
  - Module `OrderController` holds the handlers as methods. The item inserts are the
    source's `for` loop, with its invariant.
- **The time-limited cache** of the home page (`setWithExpiry` and `getWithExpiry`
  in `Featured.tsx`). These are methods over the same `Storage`, specified by the
  function `ExpiryCache.Read`.

Things the code takes from its environment are parameters of the model:

- `new Date()` is an integer `now`, in milliseconds.
- `uuidv4()` is an `orderId` argument, required not to be in use yet.
- The browser decides how long a document's JSON text is, and whether a store of given
  contents fits its quota. Both are fixed functions given to `Storage` when it is made.
- A request body is a `CreateRequest` record. Path parameters are strings. The
  listing's `?page` and `?limit` are optional integers, `None` when absent.

Behaviour worth knowing, as the code does it:

- Validation runs in this order: required fields, then user, then vendor, then
  products. The first failure ends the request, and nothing is written.
- Line quantities are never checked. The declared `total_amount` is never compared with
  the items (`OrderModel.TotalAmountNotChecked`).
- Products are counted with `inArray`, which returns each matching row once. So a
  request that passes the field, user and vendor checks but lists the same product on
  two lines is refused with "One or more products not found"
  (`OrderModel.DuplicateProductRejected`).
- `updateOrderStatus` writes any non-empty status over any current one. There is no
  transition rule.
- For an unknown order id, `updateOrderStatus` answers success with no data
  (`Ok(None)`).
- The 100-order page cap holds only for a non-negative limit. `?limit=-1` parses to -1,
  and `Math.min(-1, 100)` keeps it. Under the SQLite rule assumed below (a negative
  limit sets no bound), every page from 1 on then holds all of the vendor's or user's
  orders (`OrderModel.ListingUnbounded`).
- A listing request without `?page` or `?limit` gets page 1 with a limit of 20: the
  owner's newest orders, twenty at most (`OrderModel.DefaultListing`).
- An empty string stored under a cache key reads as `null` and is kept. Any other text
  that is not JSON, and the JSON `null`, read as `null` and are removed.

## Model

| member | source | states |
|---|---|---|
| Items.KeyOf | apps/web/helpers/cart-and-wishlist/CRUD-Wishlist-and-Cart.ts:41-43 | the key is `id` when non-empty, else `product_id`; it is empty exactly when both are |
| Items.WishlistItem.WithIdFilled | apps/web/helpers/cart-and-wishlist/CRUD-Wishlist-and-Cart.ts:106-110 | the stored copy keeps the key, `product_id` and details; its `id` is non-empty unless `product_id` is empty; an entry with an `id` is stored as it is |
| LocalStore.Value.Truthy | apps/web/components/home/Featured.tsx:26 | false exactly for undefined, null, false, 0 and the empty string; every array and object is truthy |
| LocalStore.Stamp.Truthy | apps/web/components/home/Featured.tsx:26 | an expiry is falsy exactly when it is absent or 0 |
| LocalStore.Doc.IsArray | apps/web/helpers/cart-and-wishlist/CRUD-Wishlist-and-Cart.ts:16 | the cart and the wishlist are arrays; a cache entry, an empty string and unparseable text are not |
| LocalStore.Doc.LastTen | apps/web/helpers/cart-and-wishlist/CRUD-Wishlist-and-Cart.ts:16-18 | `slice(-10)` keeps exactly the ten last elements of the list, in order |
| LocalStore.PutOrDrop | apps/web/helpers/cart-and-wishlist/CRUD-Wishlist-and-Cart.ts:19-34 | a write that fits stores exactly the document under the key; one that does not ends with the key removed; no other key changes |
| LocalStore.Saved | apps/web/helpers/cart-and-wishlist/CRUD-Wishlist-and-Cart.ts:4-38 | no other key changes; within 2 MB the data is written, or the key removed on a quota error; over 2 MB an array of more than ten is cut to its ten last elements; anything else over 2 MB leaves storage as it was; the key ends up holding only the data or its cut copy |
| LocalStore.Storage.GetItem | apps/web/components/home/Featured.tsx:22 | `getItem` reads the key's document, or nothing for a missing key |
| LocalStore.Storage.SetItem | apps/web/helpers/cart-and-wishlist/CRUD-Wishlist-and-Cart.ts:19-28 | `setItem` either writes the key or, on a quota error, changes nothing and reports failure |
| LocalStore.Storage.RemoveItem | apps/web/helpers/cart-and-wishlist/CRUD-Wishlist-and-Cart.ts:34 | `removeItem` drops exactly the key |
| LocalStore.SafeLocalStorage | apps/web/helpers/cart-and-wishlist/CRUD-Wishlist-and-Cart.ts:4-38 | the step-by-step write leaves storage exactly as `Saved` describes |
| CartWishlist.HasKey | apps/web/helpers/cart-and-wishlist/CRUD-Wishlist-and-Cart.ts:72-75 | `findIndex(...) >= 0` holds exactly when some entry of the list carries the key |
| CartWishlist.Without | apps/web/helpers/cart-and-wishlist/CRUD-Wishlist-and-Cart.ts:61 | the result holds exactly the entries whose key is not `id`; its length is the old length less the number of entries with that key |
| CartWishlist.WithoutKeepsOrder | apps/web/helpers/cart-and-wishlist/CRUD-Wishlist-and-Cart.ts:121 | the remaining entries keep their relative order |
| CartWishlist.WithoutIdempotent | apps/web/helpers/cart-and-wishlist/CRUD-Wishlist-and-Cart.ts:119-127 | removing the same key twice is the same as removing it once |
| CartWishlist.WithoutAbsentKey | apps/web/helpers/cart-and-wishlist/CRUD-Wishlist-and-Cart.ts:60-67 | removing a key no entry carries leaves the list as it was |
| CartWishlist.WithoutKeepsKeysUnique | apps/web/helpers/cart-and-wishlist/CRUD-Wishlist-and-Cart.ts:61 | removal keeps a list whose keys are unique that way |
| CartWishlist.UpdateMatching | apps/web/helpers/cart-and-wishlist/CRUD-Wishlist-and-Cart.ts:50-52 | same length and order; exactly the entries with the key get the new quantity; every other entry is unchanged |
| CartWishlist.SetQuantity | apps/web/helpers/cart-and-wishlist/CRUD-Wishlist-and-Cart.ts:50-52 | every position keeps its key; the matching entries get `newQuantity` and nothing else changes |
| CartWishlist.NewLine | apps/web/helpers/cart-and-wishlist/CRUD-Wishlist-and-Cart.ts:80-84 | a new cart line has quantity 1, `id` equal to the product's key, and the product's other fields |
| CartWishlist.AddedToCart | apps/web/helpers/cart-and-wishlist/CRUD-Wishlist-and-Cart.ts:69-86 | a product already present has its quantity raised by exactly 1, with the length unchanged and no other line touched; an absent one is appended as `NewLine`; afterwards the cart holds the key |
| CartWishlist.AddedToCartKeepsKeysUnique | apps/web/helpers/cart-and-wishlist/CRUD-Wishlist-and-Cart.ts:72-85 | adding to a cart with unique keys keeps them unique |
| CartWishlist.AddedToWishlist | apps/web/helpers/cart-and-wishlist/CRUD-Wishlist-and-Cart.ts:96-111 | a product already listed leaves the list as it was; otherwise exactly its stored copy is appended; afterwards the list holds the key |
| CartWishlist.AddedToWishlistIdempotent | apps/web/helpers/cart-and-wishlist/CRUD-Wishlist-and-Cart.ts:101-104 | adding the same product twice is the same as adding it once |
| CartWishlist.AddedToWishlistKeepsKeysUnique | apps/web/helpers/cart-and-wishlist/CRUD-Wishlist-and-Cart.ts:99-111 | adding to a wishlist with unique keys keeps them unique |
| CartWishlist.Window.DispatchEvent | apps/web/helpers/cart-and-wishlist/CRUD-Wishlist-and-Cart.ts:55 | dispatching appends the event to the window's log |
| CartWishlist.UpdateCartQuantity | apps/web/helpers/cart-and-wishlist/CRUD-Wishlist-and-Cart.ts:47-58 | a quantity of zero or less returns the cart and changes neither storage nor the event log; otherwise it returns `SetQuantity`, saves it under `plantomartCart` and dispatches `cartUpdated` with it |
| CartWishlist.RemoveFromCart | apps/web/helpers/cart-and-wishlist/CRUD-Wishlist-and-Cart.ts:60-67 | returns `Without` the key, saves it under `plantomartCart` and dispatches `cartUpdated` |
| CartWishlist.AddWishlistItemToCart | apps/web/helpers/cart-and-wishlist/CRUD-Wishlist-and-Cart.ts:69-92 | returns `AddedToCart`, saves it under `plantomartCart` and dispatches `cartUpdated` |
| CartWishlist.AddToWishlist | apps/web/helpers/cart-and-wishlist/CRUD-Wishlist-and-Cart.ts:96-117 | returns `AddedToWishlist`; a product already listed writes nothing and dispatches nothing; otherwise the list is saved under `plantomartWishlist` and `wishlistUpdated` is dispatched |
| CartWishlist.RemoveFromWishlist | apps/web/helpers/cart-and-wishlist/CRUD-Wishlist-and-Cart.ts:119-127 | returns `Without` the key, saves it under `plantomartWishlist` and dispatches `wishlistUpdated` |
| ExpiryCache.Live | apps/web/components/home/Featured.tsx:26-28 | a live entry is a cache entry with a truthy value and a stamp not before now (a stamp equal to now is still live), and it is not expired |
| ExpiryCache.Expired | apps/web/components/home/Featured.tsx:26-28 | an expired entry is a cache entry with a truthy value and a stamp strictly before now |
| ExpiryCache.LiveThenExpired | apps/web/components/home/Featured.tsx:26-28 | an entry with a truthy value and stamp is live exactly up to its stamp and expired exactly after it, never both; once expired it stays expired |
| ExpiryCache.Read | apps/web/components/home/Featured.tsx:21-37 | a value comes back exactly when a live entry is stored, and it is that entry's value; a missing key or an empty string gives `null` and no removal; the key is removed exactly for text on which the read throws and for an entry whose time is past, and then `null` comes back; an entry whose value or expiry is falsy gives `null` and stays; expiry equal to now is still live |
| ExpiryCache.SetWithExpiry | apps/web/components/home/Featured.tsx:12-19 | storage becomes what the guarded write of `{value, expiry: now + ttl}` makes of it |
| ExpiryCache.GetWithExpiry | apps/web/components/home/Featured.tsx:21-37 | returns `Read`'s result for what is stored; the key is removed exactly when `Read` evicts, and nothing else changes |
| ExpiryCache.SetThenGet | apps/web/components/home/Featured.tsx:12-32 | after a write that fits, of a truthy value whose expiry `now + ttl` is non-zero, a read at any time up to that expiry returns the value, and a later read removes it and returns `null` |
| ExpiryCache.ReadTwice | apps/web/components/home/Featured.tsx:21-37 | a second read at the same time returns what the first one returned |
| OrderModel.TrimStart | apps/cf-server/src/controllers/order.ts:51-52 | the result is a suffix, with only white space dropped and none left at its start |
| OrderModel.TrimEnd | apps/cf-server/src/controllers/order.ts:51-52 | the result is a prefix, with only white space dropped and none left at its end |
| OrderModel.Trim | apps/cf-server/src/controllers/order.ts:51-52 | `trim()` gives a slice of the text with white space, and only white space, dropped at both ends, and none left at either end |
| OrderModel.Nullable | apps/cf-server/src/controllers/order.ts:56-61 | the `or null` default is null exactly for the empty text, and is the text otherwise |
| OrderModel.Filter | apps/cf-server/src/controllers/order.ts:104 | a `where` returns exactly the rows that match, and no more rows than there are |
| OrderModel.FilterAppend | apps/cf-server/src/controllers/order.ts:149 | filtering two tables put together is filtering each and putting the results together |
| OrderModel.ItemsOf | apps/cf-server/src/controllers/order.ts:149 | exactly the item rows carrying the order id |
| OrderModel.OrderIds | apps/cf-server/src/controllers/order.ts:50 | the `order_id` column, position by position |
| OrderModel.FirstWithId | apps/cf-server/src/controllers/order.ts:182 | `limit 1` finds nothing exactly when no row has the id; otherwise it finds the first row that has it |
| OrderModel.FirstWithIdAppendFresh | apps/cf-server/src/controllers/order.ts:44-65 | after inserting a header under a fresh id, a lookup by that id finds that header |
| OrderModel.ProductIds | apps/cf-server/src/controllers/order.ts:38 | one product id per line, position by position |
| OrderModel.MissingRequired | apps/cf-server/src/controllers/order.ts:26-28 | a request that passes has both ids, a non-empty item list and a non-zero total; any one of them missing fails it |
| OrderModel.FoundCount | apps/cf-server/src/controllers/order.ts:38-40 | the product lookup never returns more rows than ids were listed |
| OrderModel.FoundCountMatches | apps/cf-server/src/controllers/order.ts:38-42 | the product count equals the number of lines exactly when the listed ids are distinct and all exist |
| OrderModel.Validate | apps/cf-server/src/controllers/order.ts:26-42 | missing fields give 400; then an unknown user 404, then an unknown vendor 404, then a short product count 400; success happens exactly when every check passes, and yields the non-empty item list |
| OrderModel.TotalAmountNotChecked | apps/cf-server/src/controllers/order.ts:26 | any other non-zero total gets the same answer: the total is never checked against the items |
| OrderModel.DuplicateProductRejected | apps/cf-server/src/controllers/order.ts:38-42 | a request that passes the field, user and vendor checks but lists the same product on two lines is refused with 400 "One or more products not found" |
| OrderModel.InitialStatus | apps/cf-server/src/controllers/order.ts:55 | the status is `paid` exactly when the payment status is `paid`, and `pending` otherwise |
| OrderModel.Header | apps/cf-server/src/controllers/order.ts:12-65 | the header carries the fresh id and the trimmed user and vendor ids; currency defaults to INR and payment status to `paid`; status is `paid` exactly when the payment status is `paid`, else `pending`; optional texts become null when empty; both timestamps are `now` |
| OrderModel.ItemRow | apps/cf-server/src/controllers/order.ts:69-79 | the row carries the order id, the line's product, its title or null, its quantity and unit price, `total_price = unit_price * quantity`, and the time of the request |
| OrderModel.ItemRows | apps/cf-server/src/controllers/order.ts:67-80 | one row per line, in request order, each with the order id, the line's product, its title or null, quantity and unit price, `total_price = unit_price * quantity`, and `created_at` the time of the request |
| OrderModel.WithStatus | apps/cf-server/src/controllers/order.ts:164-168 | same rows in the same order; the rows with the id get the new status and `updated_at`, with every other field unchanged; every other row is unchanged |
| OrderModel.WithStatusKeepsIds | apps/cf-server/src/controllers/order.ts:164-168 | a status update changes no order id |
| OrderModel.InsertNewestPermutes | apps/cf-server/src/controllers/order.ts:105 | inserting a row into the sorted rows adds exactly that row |
| OrderModel.InsertNewestSorted | apps/cf-server/src/controllers/order.ts:105 | inserting into rows sorted newest first keeps them sorted |
| OrderModel.SortNewest | apps/cf-server/src/controllers/order.ts:105 | `order by created_at desc` yields the same rows, newest first |
| OrderModel.PageSize | apps/cf-server/src/controllers/order.ts:96 | the page size is the limit asked for, capped at 100 |
| OrderModel.Offset | apps/cf-server/src/controllers/order.ts:97 | page 1 starts at the top; from page 1 on, a non-negative page size gives a non-negative offset, and a negative one an offset of zero or less |
| OrderModel.LimitOffset | apps/cf-server/src/controllers/order.ts:106-107 | `limit n offset k` returns consecutive rows from the offset, at most `n` of them, and falls short of `n` only at the end of the rows; a negative `n` returns every row from the offset |
| OrderModel.LimitOffsetSplit | apps/cf-server/src/controllers/order.ts:106-107 | two windows of size `n`, the second starting `n` rows after the first, together make the window of size `2n` |
| OrderModel.Owns | apps/cf-server/src/controllers/order.ts:104 | an order belongs to a vendor exactly when its `vendor_id` is that id, and to a user exactly when its `user_uuid` is that id |
| OrderModel.Mine | apps/cf-server/src/controllers/order.ts:104 | exactly the orders of the table that belong to the vendor or user |
| OrderModel.Listing | apps/cf-server/src/controllers/order.ts:101-107 | the page is the run of the owner's orders, sorted newest first, that starts at `(page - 1) * min(limit, 100)` (taken as zero when negative, and as the end when past it); it is no longer than the page size and falls short of it only at the end of the owner's orders; every row is the owner's, newest first |
| OrderModel.ListingCapped | apps/cf-server/src/controllers/order.ts:96 | for any non-negative limit, no page holds more than 100 orders |
| OrderModel.ListingUnbounded | apps/cf-server/src/controllers/order.ts:95-107 | under the SQLite rule that a negative limit sets no bound, a negative limit makes every page from 1 on hold all of the owner's orders, newest first: the 100 cap does not apply |
| OrderModel.ConsecutivePages | apps/cf-server/src/controllers/order.ts:97-107 | with a non-negative limit, page `p + 1` starts where page `p` ends, so no order is shown twice and none is skipped |
| OrderModel.DefaultListing | apps/cf-server/src/controllers/order.ts:94-107 | with the defaults page 1 and limit 20, the page is the owner's newest orders, twenty at most |
| OrderModel.FirstPageComplete | apps/cf-server/src/controllers/order.ts:94-107 | when the owner's orders fit in one page, page 1 holds all of them |
| OrderController.CreateOrder | apps/cf-server/src/controllers/order.ts:8-87 | a failed check returns its error and writes nothing; success returns the header and appends exactly that header and `ItemRows`; the new order is then found by its id with exactly those items; the table invariant is kept |
| OrderController.InsertOrder | apps/cf-server/src/controllers/order.ts:46-80 | the header is appended, then the item rows; the new order is found by its id with exactly those items |
| OrderController.InsertItems | apps/cf-server/src/controllers/order.ts:67-80 | the loop appends exactly `ItemRows` for the lines, in order |
| OrderController.CreatedOrderFacts | apps/cf-server/src/controllers/order.ts:44-80 | appending a header under a fresh id and rows for it keeps ids unique and every item owned; the id finds the header, and its items are exactly the new rows |
| OrderController.GetOrdersByVendor | apps/cf-server/src/controllers/order.ts:90-114 | an empty id gives 400; otherwise the vendor's `Listing` page, with an absent page taken as 1 and an absent limit as 20, the capped limit and its count; every row is the vendor's, newest first; with no page and no limit, the vendor's newest orders, twenty at most; for any non-negative limit, at most `limit` and at most 100 rows; for a negative limit, every page from 1 on holds all of the vendor's orders |
| OrderController.GetOrdersByUser | apps/cf-server/src/controllers/order.ts:117-141 | an empty id gives 400; otherwise the user's `Listing` page, with an absent page taken as 1 and an absent limit as 20, the capped limit and its count; every row is the user's, newest first; with no page and no limit, the user's newest orders, twenty at most; for any non-negative limit, at most `limit` and at most 100 rows; for a negative limit, every page from 1 on holds all of the user's orders |
| OrderController.GetOrderItems | apps/cf-server/src/controllers/order.ts:144-155 | an empty id gives 400; otherwise exactly the item rows of that order |
| OrderController.UpdateOrderStatus | apps/cf-server/src/controllers/order.ts:158-174 | an empty id or status gives 400 and writes nothing; otherwise the table becomes `WithStatus` and the answer is the first updated row, or none; the table invariant is kept |
| OrderController.GetOrder | apps/cf-server/src/controllers/order.ts:177-190 | an empty id gives 400; an id no order has gives 404; otherwise an order with that id, with exactly its item rows |

## Left out

- Serialisation: `JSON.stringify` and `JSON.parse` are not modelled. A stored document is a
  datatype. Its text length and the quota are functions given to `Storage`.
- Other storage errors: `safeLocalStorage` swallows errors other than
  `QuotaExceededError`, and `stringify` can throw on cyclic data. The model covers only
  the quota error.
- Shapes never stored: documents stored by other code as top-level numbers, strings,
  booleans or objects without an `expiry` are not represented. The cache would read
  them as it reads an array: `null`, with the key kept. An `expiry` that is not a number
  is not represented either. The cache's own writes never produce any of them.
- Object members: a JSON object value is `Object`, with its members left out. The
  cache reads a value only for its truthiness, and every object is truthy.
- Numbers are integers: prices, quantities, totals and timestamps are `int`. Floating
  point, `NaN` from `Number(...)` and `parseInt`, and JavaScript's `toISOString` text are
  not modelled. Page and limit, when present, arrive as integers.
- Negative limit and offset: the model assumes SQLite's rule, where a negative limit sets
  no bound and a negative offset counts as zero.
- OrderModel.SortNewest: rows with equal `created_at` keep their table order here. The
  database leaves their order unspecified.
- Server failures: the `500 Internal server error` answers and exceptions from the
  database are left out. So is the partial state a failure between the header insert
  and the item inserts would leave behind, since the inserts are not in a transaction.
- Time: one `now` stands for every `new Date()` of a request.
- OrderController.CreateOrder: the freshness of the `uuidv4` id is a precondition, not a
  proof.
- `null` against `undefined`: an absent optional text and an empty one are both "".
  `currency` and `payment_status` fall back to their defaults only when absent, so
  they are `Option`s.
- Non-string ids: a non-string `user_uuid` or `vendor_id`, on which `trim` would throw,
  is not modelled.
- Console output and the `detail` payload's object identity are left out.
- Other code: the Navbar's own copy of the cart functions, the checkout and payment flow,
  route wiring, and the admin screens are not part of this model.
