/** Rows, requests and the pure parts of the order controller
    (cf-server/src/controllers/order.ts): request validation, the header and item
    rows a create inserts, the status update, and the filtered, newest-first,
    paged listings. Timestamps are integers (milliseconds). */
module OrderModel {
  import opened Wrappers

  /** A row of the `orders` table. Optional columns are `None` for SQL `null`. */
  datatype Order = Order(
    orderId: string,
    userUuid: string,
    vendorId: string,
    totalAmount: int,
    currency: string,
    status: string,
    paymentId: Option<string>,
    paymentMethod: Option<string>,
    paymentStatus: string,
    shippingAddress: Option<string>,
    billingAddress: Option<string>,
    notes: Option<string>,
    createdAt: int,
    updatedAt: int)

  /** A row of the `order_items` table. */
  datatype OrderItem = OrderItem(
    orderId: string,
    productId: string,
    productTitle: Option<string>,
    quantity: int,
    unitPrice: int,
    totalPrice: int,
    createdAt: int)

  /** One element of the request's `items` array. An absent title is "". */
  datatype LineRequest = LineRequest(productId: string, productTitle: string, quantity: int, unitPrice: int)

  /** The body of a create request. A text field that is absent is ""; `items` is
      `None` when it is not an array; `totalAmount`, `currency` and `paymentStatus`
      are `None` when absent, since their defaults apply only then. */
  datatype CreateRequest = CreateRequest(
    userUuid: string,
    vendorId: string,
    items: Option<seq<LineRequest>>,
    totalAmount: Option<int>,
    currency: Option<string>,
    paymentId: string,
    paymentMethod: string,
    paymentStatus: Option<string>,
    shippingAddress: string,
    billingAddress: string,
    notes: string)

  const DefaultCurrency: string := "INR"
  const DefaultPaymentStatus: string := "paid"
  /** The largest page size a listing returns. */
  const MaxPageSize: int := 100
  /** The page and limit a listing request without `?page` or `?limit` gets. */
  const DefaultPage: int := 1
  const DefaultLimit: int := 20

  // ---------------------------------------------------------------------------
  // Text helpers

  /** The characters JavaScript's `String.prototype.trim` strips. */
  predicate IsSpace(c: char) {
    c in WhiteSpace
  }

  const WhiteSpace: set<char> :=
    {'\t', '\n', '\U{B}', '\U{C}', '\r', ' ', '\U{A0}', '\U{1680}',
     '\U{2000}', '\U{2001}', '\U{2002}', '\U{2003}', '\U{2004}', '\U{2005}',
     '\U{2006}', '\U{2007}', '\U{2008}', '\U{2009}', '\U{200A}',
     '\U{2028}', '\U{2029}', '\U{202F}', '\U{205F}', '\U{3000}', '\U{FEFF}'}

  function TrimStart(s: string): (r: string)
    ensures |r| <= |s| && r == s[|s| - |r|..]
    ensures r == [] || !IsSpace(r[0])
    ensures forall i :: 0 <= i < |s| - |r| ==> IsSpace(s[i])
  {
    if s != [] && IsSpace(s[0]) then TrimStart(s[1..]) else s
  }

  function TrimEnd(s: string): (r: string)
    ensures |r| <= |s| && r == s[..|r|]
    ensures r == [] || !IsSpace(r[|r| - 1])
    ensures forall i :: |r| <= i < |s| ==> IsSpace(s[i])
  {
    if s != [] && IsSpace(s[|s| - 1]) then TrimEnd(s[..|s| - 1]) else s
  }

  /** `r` is `s` with the first `a` characters and everything after `a + |r|`
      dropped, all of them white space. */
  predicate StrippedAt(s: string, r: string, a: int) {
    0 <= a <= |s| - |r| && r == s[a..a + |r|] &&
    (forall i :: 0 <= i < a ==> IsSpace(s[i])) &&
    (forall i :: a + |r| <= i < |s| ==> IsSpace(s[i]))
  }

  /** Dropping leading white space and then trailing white space strips `s`. */
  lemma Stripped(s: string, t: string, r: string)
    requires |t| <= |s| && t == s[|s| - |t|..] && forall i :: 0 <= i < |s| - |t| ==> IsSpace(s[i])
    requires |r| <= |t| && r == t[..|r|] && forall i :: |r| <= i < |t| ==> IsSpace(t[i])
    requires t == [] || !IsSpace(t[0])
    requires r == [] || !IsSpace(r[|r| - 1])
    ensures StrippedAt(s, r, |s| - |t|)
    ensures r == [] || (!IsSpace(r[0]) && !IsSpace(r[|r| - 1]))
  {
    var a := |s| - |t|;
    assert r == s[a..a + |r|];
    forall i | a + |r| <= i < |s| ensures IsSpace(s[i]) {
      assert s[i] == t[i - a];
    }
  }

  /** `s.trim()`: the text with no white space at either end, obtained by dropping
      only white space. */
  function Trim(s: string): (r: string)
    ensures r == [] || (!IsSpace(r[0]) && !IsSpace(r[|r| - 1]))
    ensures exists a :: StrippedAt(s, r, a)
  {
    var t := TrimStart(s);
    var r := TrimEnd(t);
    Stripped(s, t, r);
    r
  }

  /** `x || null` for a text field. */
  function Nullable(s: string): (r: Option<string>)
    ensures r.None? <==> s == ""
    ensures r.Some? ==> r.value == s
  {
    if s == "" then None else Some(s)
  }

  // ---------------------------------------------------------------------------
  // Sequences of rows

  /** `rows.filter(keep)`, as a SQL `WHERE` returns rows in table order. */
  function Filter<T(!new)>(rows: seq<T>, keep: T -> bool): (r: seq<T>)
    ensures |r| <= |rows|
    ensures forall x :: x in r <==> x in rows && keep(x)
  {
    if rows == [] then []
    else (if keep(rows[0]) then [rows[0]] else []) + Filter(rows[1..], keep)
  }

  lemma {:induction false} FilterAppend<T(!new)>(a: seq<T>, b: seq<T>, keep: T -> bool)
    ensures Filter(a + b, keep) == Filter(a, keep) + Filter(b, keep)
  {
    if a != [] {
      assert (a + b)[0] == a[0];
      assert (a + b)[1..] == a[1..] + b;
      FilterAppend(a[1..], b, keep);
    } else {
      assert a + b == b;
    }
  }

  lemma {:induction false} FilterAll<T(!new)>(rows: seq<T>, keep: T -> bool)
    requires forall x :: x in rows ==> keep(x)
    ensures Filter(rows, keep) == rows
  {
    if rows != [] {
      assert forall x :: x in rows[1..] ==> x in rows;
      FilterAll(rows[1..], keep);
    }
  }

  lemma {:induction false} FilterNone<T(!new)>(rows: seq<T>, keep: T -> bool)
    requires forall x :: x in rows ==> !keep(x)
    ensures Filter(rows, keep) == []
  {
    if rows != [] {
      assert forall x :: x in rows[1..] ==> x in rows;
      FilterNone(rows[1..], keep);
    }
  }

  /** The item rows of one order, in table order. */
  function ItemsOf(rows: seq<OrderItem>, orderId: string): (r: seq<OrderItem>)
    ensures forall it :: it in r <==> it in rows && it.orderId == orderId
  {
    Filter(rows, (it: OrderItem) => it.orderId == orderId)
  }

  /** The `order_id` column, in table order. */
  function OrderIds(orders: seq<Order>): (ids: seq<string>)
    ensures |ids| == |orders|
    ensures forall i :: 0 <= i < |orders| ==> ids[i] == orders[i].orderId
  {
    seq(|orders|, i requires 0 <= i < |orders| => orders[i].orderId)
  }

  /** The first order row with the given id, as `... where order_id = ? limit 1` finds it. */
  function FirstWithId(orders: seq<Order>, orderId: string): (r: Option<Order>)
    ensures r.None? <==> forall o :: o in orders ==> o.orderId != orderId
    ensures r.Some? ==> r.value in orders && r.value.orderId == orderId
    ensures r.Some? ==> exists i :: 0 <= i < |orders| && orders[i] == r.value &&
                                    forall j :: 0 <= j < i ==> orders[j].orderId != orderId
  {
    if orders == [] then None
    else if orders[0].orderId == orderId then Some(orders[0])
    else
      var r := FirstWithId(orders[1..], orderId);
      assert forall o :: o in orders ==> o == orders[0] || o in orders[1..];
      if r.Some? then
        var i :| 0 <= i < |orders[1..]| && orders[1..][i] == r.value &&
                 forall j :: 0 <= j < i ==> orders[1..][j].orderId != orderId;
        assert orders[i + 1] == r.value;
        assert forall j :: 1 <= j < i + 1 ==> orders[j] == orders[1..][j - 1];
        r
      else r
  }

  lemma FirstWithIdAppendFresh(orders: seq<Order>, o: Order)
    requires o.orderId !in OrderIds(orders)
    ensures FirstWithId(orders + [o], o.orderId) == Some(o)
  {
    var all := orders + [o];
    assert o in all;
    forall p | p in orders ensures p.orderId != o.orderId {
      var i :| 0 <= i < |orders| && orders[i] == p;
      assert OrderIds(orders)[i] == p.orderId;
    }
    assert forall p :: p in all ==> p in orders || p == o;
  }

  // ---------------------------------------------------------------------------
  // Creating an order

  /** The first check of `createOrder`: a falsy `user_uuid`, `vendor_id` or `total_amount`,
      or `items` that is not a non-empty array. */
  function MissingRequired(req: CreateRequest): (missing: bool)
    ensures !missing ==>
      req.userUuid != "" && req.vendorId != "" &&
      req.items.Some? && req.items.value != [] &&
      req.totalAmount.Some? && req.totalAmount.value != 0
    ensures (req.userUuid == "" || req.vendorId == "" || req.items.None? || req.items == Some([]) ||
             req.totalAmount.None? || req.totalAmount == Some(0)) ==> missing
  {
    req.userUuid == "" || req.vendorId == "" ||
    req.items.None? || req.items.value == [] ||
    req.totalAmount.None? || req.totalAmount.value == 0
  }

  /** `items.map(it => it.product_id)`. */
  function ProductIds(lines: seq<LineRequest>): (ids: seq<string>)
    ensures |ids| == |lines|
    ensures forall i :: 0 <= i < |lines| ==> ids[i] == lines[i].productId
  {
    seq(|lines|, i requires 0 <= i < |lines| => lines[i].productId)
  }

  predicate Distinct(ids: seq<string>) {
    forall i, j :: 0 <= i < j < |ids| ==> ids[i] != ids[j]
  }

  /** How many product rows `... where product_id in (ids)` returns: one per
      distinct listed id that the catalogue holds. */
  function FoundCount(ids: seq<string>, catalog: set<string>): (n: nat)
    ensures n <= |ids|
  {
    var found := set x | x in ids && x in catalog;
    ElementCount(ids);
    SubsetCard(found, set x | x in ids);
    |found|
  }

  lemma {:induction false} ElementCount(ids: seq<string>)
    ensures |set x | x in ids| <= |ids|
    ensures |set x | x in ids| == |ids| <==> Distinct(ids)
  {
    if ids != [] {
      var rest := ids[1..];
      ElementCount(rest);
      var s, s' := set x | x in ids, set x | x in rest;
      assert s == {ids[0]} + s';
      if ids[0] in rest {
        assert s == s';
        var j :| 0 <= j < |rest| && rest[j] == ids[0];
        assert ids[0] == ids[j + 1];
      } else {
        assert |s| == |s'| + 1;
        if Distinct(rest) {
          forall i, j | 0 <= i < j < |ids| ensures ids[i] != ids[j] {
            if i == 0 {
              assert ids[j] == rest[j - 1];
            } else {
              assert ids[i] == rest[i - 1] && ids[j] == rest[j - 1];
            }
          }
        } else {
          var i, j :| 0 <= i < j < |rest| && rest[i] == rest[j];
          assert ids[i + 1] == ids[j + 1];
        }
      }
    }
  }

  lemma SubsetCard<T>(a: set<T>, b: set<T>)
    requires a <= b
    ensures |a| <= |b|
    ensures |a| == |b| ==> a == b
  {
    assert b == a + (b - a);
    assert a * (b - a) == {};
  }

  /** Every listed product is found exactly when the ids are distinct and all in the
      catalogue: the same product listed twice is counted once, and so fails. */
  lemma {:induction false} FoundCountMatches(ids: seq<string>, catalog: set<string>)
    ensures FoundCount(ids, catalog) == |ids| <==> Distinct(ids) && forall x :: x in ids ==> x in catalog
  {
    var s := set x | x in ids;
    var f := set x | x in ids && x in catalog;
    ElementCount(ids);
    SubsetCard(f, s);
    if FoundCount(ids, catalog) == |ids| {
      assert |s| == |ids|;
      assert f == s;
      forall x | x in ids ensures x in catalog {
        assert x in s;
      }
    }
    if Distinct(ids) && forall x :: x in ids ==> x in catalog {
      assert f == s;
    }
  }

  /** The checks of `createOrder`, in the order the handler makes them, each
      stopping it at once. On success, the validated item list. */
  function Validate(req: CreateRequest, users: set<string>, vendors: set<string>, catalog: set<string>)
    : (r: Result<seq<LineRequest>>)
    ensures MissingRequired(req) ==> r == Err(400, "Missing required fields")
    ensures !MissingRequired(req) && req.userUuid !in users ==> r == Err(404, "User not found")
    ensures !MissingRequired(req) && req.userUuid in users && req.vendorId !in vendors ==>
      r == Err(404, "Vendor not found")
    ensures !MissingRequired(req) && req.userUuid in users && req.vendorId in vendors &&
            FoundCount(ProductIds(req.items.value), catalog) != |req.items.value| ==>
      r == Err(400, "One or more products not found")
    ensures r.Ok? <==>
      !MissingRequired(req) && req.userUuid in users && req.vendorId in vendors &&
      Distinct(ProductIds(req.items.value)) &&
      forall x :: x in ProductIds(req.items.value) ==> x in catalog
    ensures r.Ok? ==> req.items == Some(r.value) && r.value != []
  {
    if MissingRequired(req) then Err(400, "Missing required fields")
    else if req.userUuid !in users then Err(404, "User not found")
    else if req.vendorId !in vendors then Err(404, "Vendor not found")
    else
      var ids := ProductIds(req.items.value);
      FoundCountMatches(ids, catalog);
      if FoundCount(ids, catalog) != |ids| then Err(400, "One or more products not found")
      else Ok(req.items.value)
  }

  /** The declared total is never compared with the items: any other non-zero total
      is accepted or refused exactly as the original one. */
  lemma TotalAmountNotChecked(req: CreateRequest, total: int,
                              users: set<string>, vendors: set<string>, catalog: set<string>)
    requires total != 0
    requires req.totalAmount.Some? && req.totalAmount.value != 0
    ensures Validate(req.(totalAmount := Some(total)), users, vendors, catalog) == Validate(req, users, vendors, catalog)
  {
  }

  /** Once the field, user and vendor checks pass, the same product listed twice makes
      the request fail, even when the product exists. */
  lemma DuplicateProductRejected(req: CreateRequest, users: set<string>, vendors: set<string>, catalog: set<string>,
                                 i: nat, j: nat)
    requires !MissingRequired(req) && req.userUuid in users && req.vendorId in vendors
    requires i < j < |req.items.value| && req.items.value[i].productId == req.items.value[j].productId
    ensures Validate(req, users, vendors, catalog) == Err(400, "One or more products not found")
  {
    var ids := ProductIds(req.items.value);
    assert ids[i] == ids[j];
  }

  /** The status a new order starts in. */
  function InitialStatus(paymentStatus: string): (s: string)
    ensures s == "paid" <==> paymentStatus == "paid"
    ensures s == "paid" || s == "pending"
  {
    if paymentStatus == "paid" then "paid" else "pending"
  }

  /** The header row `createOrder` inserts. */
  function Header(req: CreateRequest, orderId: string, now: int): (o: Order)
    requires req.totalAmount.Some?
    ensures o.orderId == orderId
    ensures o.userUuid == Trim(req.userUuid) && o.vendorId == Trim(req.vendorId)
    ensures o.totalAmount == req.totalAmount.value
    ensures o.currency == req.currency.GetOr(DefaultCurrency)
    ensures o.paymentStatus == req.paymentStatus.GetOr(DefaultPaymentStatus)
    ensures o.status == "paid" <==> req.paymentStatus.None? || req.paymentStatus.value == "paid"
    ensures o.status != "paid" ==> o.status == "pending"
    ensures o.paymentId == Nullable(req.paymentId) && o.paymentMethod == Nullable(req.paymentMethod)
    ensures o.shippingAddress == Nullable(req.shippingAddress) && o.billingAddress == Nullable(req.billingAddress)
    ensures o.notes == Nullable(req.notes)
    ensures o.createdAt == now && o.updatedAt == now
  {
    var paymentStatus := req.paymentStatus.GetOr(DefaultPaymentStatus);
    Order(orderId, Trim(req.userUuid), Trim(req.vendorId), req.totalAmount.value,
          req.currency.GetOr(DefaultCurrency), InitialStatus(paymentStatus),
          Nullable(req.paymentId), Nullable(req.paymentMethod), paymentStatus,
          Nullable(req.shippingAddress), Nullable(req.billingAddress), Nullable(req.notes),
          now, now)
  }

  /** The item row inserted for one requested line; its total is computed here,
      never taken from the request. */
  function ItemRow(orderId: string, line: LineRequest, now: int): (it: OrderItem)
    ensures it.orderId == orderId && it.productId == line.productId
    ensures it.productTitle == Nullable(line.productTitle)
    ensures it.quantity == line.quantity && it.unitPrice == line.unitPrice
    ensures it.totalPrice == it.unitPrice * it.quantity
    ensures it.createdAt == now
  {
    OrderItem(orderId, line.productId, Nullable(line.productTitle), line.quantity, line.unitPrice,
              line.unitPrice * line.quantity, now)
  }

  /** The item rows of a new order, one per requested line, in request order. */
  function ItemRows(orderId: string, lines: seq<LineRequest>, now: int): (rows: seq<OrderItem>)
    ensures |rows| == |lines|
    ensures forall i :: 0 <= i < |rows| ==>
      rows[i].orderId == orderId && rows[i].productId == lines[i].productId &&
      rows[i].productTitle == Nullable(lines[i].productTitle) &&
      rows[i].quantity == lines[i].quantity && rows[i].unitPrice == lines[i].unitPrice &&
      rows[i].totalPrice == rows[i].unitPrice * rows[i].quantity &&
      rows[i].createdAt == now
  {
    seq(|lines|, i requires 0 <= i < |lines| => ItemRow(orderId, lines[i], now))
  }

  lemma ItemRowsExtend(orderId: string, lines: seq<LineRequest>, i: nat, now: int)
    requires i < |lines|
    ensures ItemRows(orderId, lines[..i + 1], now) == ItemRows(orderId, lines[..i], now) + [ItemRow(orderId, lines[i], now)]
  {
    assert lines[..i + 1][i] == lines[i];
  }

  // ---------------------------------------------------------------------------
  // Status update

  /** `update orders set status = ?, updated_at = ? where order_id = ?`. */
  function WithStatus(orders: seq<Order>, orderId: string, status: string, now: int): (r: seq<Order>)
    ensures |r| == |orders|
    ensures forall i :: 0 <= i < |r| && orders[i].orderId == orderId ==>
      r[i] == orders[i].(status := status, updatedAt := now)
    ensures forall i :: 0 <= i < |r| && orders[i].orderId != orderId ==> r[i] == orders[i]
  {
    if orders == [] then []
    else
      var head := if orders[0].orderId == orderId then orders[0].(status := status, updatedAt := now) else orders[0];
      [head] + WithStatus(orders[1..], orderId, status, now)
  }

  /** A status update renames no order. */
  lemma WithStatusKeepsIds(orders: seq<Order>, orderId: string, status: string, now: int)
    ensures OrderIds(WithStatus(orders, orderId, status, now)) == OrderIds(orders)
  {
  }

  // ---------------------------------------------------------------------------
  // Listings

  datatype Owner = ByVendor(vendorId: string) | ByUser(userUuid: string)

  /** `where vendor_id = ?` or `where user_uuid = ?`: an exact match on one column. */
  function Owns(owner: Owner, o: Order): (owns: bool)
    ensures owner.ByVendor? ==> (owns <==> o.vendorId == owner.vendorId)
    ensures owner.ByUser? ==> (owns <==> o.userUuid == owner.userUuid)
  {
    match owner
    case ByVendor(v) => o.vendorId == v
    case ByUser(u) => o.userUuid == u
  }

  predicate NewestFirst(s: seq<Order>) {
    forall i, j :: 0 <= i < j < |s| ==> s[i].createdAt >= s[j].createdAt
  }

  lemma PrependNewest(x: Order, t: seq<Order>)
    requires NewestFirst(t)
    requires forall y :: y in t ==> x.createdAt >= y.createdAt
    ensures NewestFirst([x] + t)
  {
    var r := [x] + t;
    forall i, j | 0 <= i < j < |r| ensures r[i].createdAt >= r[j].createdAt {
      assert r[j] == t[j - 1];
      if i > 0 {
        assert r[i] == t[i - 1];
      } else {
        assert t[j - 1] in t;
      }
    }
  }

  lemma NewestFirstSplit(s: seq<Order>)
    requires NewestFirst(s) && s != []
    ensures NewestFirst(s[1..])
    ensures forall y :: y in s ==> s[0].createdAt >= y.createdAt
  {
    forall y | y in s ensures s[0].createdAt >= y.createdAt {
      var j :| 0 <= j < |s| && s[j] == y;
      assert j == 0 || s[0].createdAt >= s[j].createdAt;
    }
    forall i, j | 0 <= i < j < |s[1..]| ensures s[1..][i].createdAt >= s[1..][j].createdAt {
      assert s[1..][i] == s[i + 1] && s[1..][j] == s[j + 1];
    }
  }

  /** Puts `o` before the first row that is not newer than it. */
  function InsertNewest(o: Order, s: seq<Order>): seq<Order> {
    if s == [] || o.createdAt >= s[0].createdAt then [o] + s
    else [s[0]] + InsertNewest(o, s[1..])
  }

  lemma {:induction false} InsertNewestPermutes(o: Order, s: seq<Order>)
    ensures multiset(InsertNewest(o, s)) == multiset(s) + multiset{o}
  {
    if s != [] && o.createdAt < s[0].createdAt {
      InsertNewestPermutes(o, s[1..]);
      assert s == [s[0]] + s[1..];
    }
  }

  lemma {:induction false} InsertNewestSorted(o: Order, s: seq<Order>)
    requires NewestFirst(s)
    ensures NewestFirst(InsertNewest(o, s))
  {
    if s != [] {
      NewestFirstSplit(s);
      if o.createdAt >= s[0].createdAt {
        PrependNewest(o, s);
      } else {
        var rest := InsertNewest(o, s[1..]);
        InsertNewestSorted(o, s[1..]);
        InsertNewestPermutes(o, s[1..]);
        forall y | y in rest ensures s[0].createdAt >= y.createdAt {
          assert y in multiset(rest);
          assert y == o || y in multiset(s[1..]);
          assert y == o || y in s;
        }
        PrependNewest(s[0], rest);
      }
    }
  }

  /** `order by created_at desc`: the same rows, newest first. Rows with the same time
      keep their table order. */
  function SortNewest(s: seq<Order>): (r: seq<Order>)
    ensures NewestFirst(r)
    ensures multiset(r) == multiset(s)
  {
    if s == [] then []
    else
      var rest := SortNewest(s[1..]);
      InsertNewestSorted(s[0], rest);
      InsertNewestPermutes(s[0], rest);
      assert s == [s[0]] + s[1..];
      InsertNewest(s[0], rest)
  }

  /** `Math.min(limit, 100)`. */
  function PageSize(limit: int): (n: int)
    ensures n <= MaxPageSize
    ensures n == limit || (n == MaxPageSize && limit > MaxPageSize)
  {
    if limit < MaxPageSize then limit else MaxPageSize
  }

  /** `(page - 1) * limit`, with the limit already capped. Page 1 starts at the top; from
      page 1 on, a non-negative page size gives a non-negative offset and a negative one
      an offset of zero or less. */
  function Offset(page: int, limit: int): (k: int)
    ensures page == 1 ==> k == 0
    ensures page >= 1 && PageSize(limit) >= 0 ==> k >= 0
    ensures page >= 1 && PageSize(limit) < 0 ==> k <= 0
  {
    (page - 1) * PageSize(limit)
  }

  /** Where an offset lands in `len` rows, as SQLite applies it: a negative offset counts
      as zero, and one past the end as the end. */
  function Clamp(k: int, len: nat): (c: nat)
    ensures c <= len
    ensures 0 <= k <= len ==> c == k
    ensures k < 0 ==> c == 0
    ensures k > len ==> c == len
  {
    if k < 0 then 0 else if k > len then len else k
  }

  /** `... limit n offset k` as SQLite evaluates it: a negative offset counts as
      zero, and a negative limit sets no bound. */
  function LimitOffset<T>(rows: seq<T>, n: int, k: int): (r: seq<T>)
    ensures n >= 0 ==> |r| <= n
    ensures n < 0 ==> r == rows[Clamp(k, |rows|)..]
    ensures var skip := Clamp(k, |rows|);
            skip + |r| <= |rows| && r == rows[skip..skip + |r|] &&
            (|r| < |rows| - skip ==> |r| == n)
  {
    var rest := rows[Clamp(k, |rows|)..];
    if 0 <= n < |rest| then rest[..n] else rest
  }

  /** Two pages of size `n` placed one after the other are one page of size `2n`. */
  lemma LimitOffsetSplit<T>(rows: seq<T>, n: int, k: int)
    requires n >= 0 && k >= 0
    ensures LimitOffset(rows, n, k) + LimitOffset(rows, n, k + n) == LimitOffset(rows, 2 * n, k)
  {
    var a, b, c := Clamp(k, |rows|), Clamp(k + n, |rows|), Clamp(k + 2 * n, |rows|);
    assert LimitOffset(rows, n, k) == rows[a..b];
    assert LimitOffset(rows, n, k + n) == rows[b..c];
    assert LimitOffset(rows, 2 * n, k) == rows[a..c];
    assert rows[a..b] + rows[b..c] == rows[a..c];
  }

  /** The owner's orders in table order: `where vendor_id = ?` or `where user_uuid = ?`. */
  function Mine(orders: seq<Order>, owner: Owner): (r: seq<Order>)
    ensures forall o :: o in r <==> o in orders && Owns(owner, o)
  {
    Filter(orders, (o: Order) => Owns(owner, o))
  }

  /** The rows a listing endpoint returns for one owner: the owner's orders, newest
      first, from the page's offset on, as many as the page size allows. */
  function Listing(orders: seq<Order>, owner: Owner, page: int, limit: int): (r: seq<Order>)
    ensures forall o :: o in r ==> o in orders && Owns(owner, o)
    ensures NewestFirst(r)
    ensures PageSize(limit) >= 0 ==> |r| <= PageSize(limit)
    ensures var sorted := SortNewest(Mine(orders, owner));
            var skip := Clamp(Offset(page, limit), |sorted|);
            skip + |r| <= |sorted| && r == sorted[skip..skip + |r|] &&
            (|r| < |sorted| - skip ==> |r| == PageSize(limit))
  {
    var sorted, n, k := SortNewest(Mine(orders, owner)), PageSize(limit), Offset(page, limit);
    PageOfSorted(orders, owner, n, k);
    LimitOffset(sorted, n, k)
  }

  /** A window of the owner's sorted orders holds only the owner's orders, newest first. */
  lemma PageOfSorted(orders: seq<Order>, owner: Owner, n: int, k: int)
    ensures var r := LimitOffset(SortNewest(Mine(orders, owner)), n, k);
            NewestFirst(r) && forall o :: o in r ==> o in orders && Owns(owner, o)
  {
    var sorted := SortNewest(Mine(orders, owner));
    var r := LimitOffset(sorted, n, k);
    var skip := Clamp(k, |sorted|);
    assert skip + |r| <= |sorted| && r == sorted[skip..skip + |r|];
    SortedSlice(orders, owner, skip, skip + |r|);
  }

  /** Any run of consecutive sorted rows holds only the owner's orders, newest first. */
  lemma SortedSlice(orders: seq<Order>, owner: Owner, a: nat, b: nat)
    requires a <= b <= |SortNewest(Mine(orders, owner))|
    ensures var run := SortNewest(Mine(orders, owner))[a..b];
            NewestFirst(run) && forall o :: o in run ==> o in orders && Owns(owner, o)
  {
    var mine := Mine(orders, owner);
    var sorted := SortNewest(mine);
    var run := sorted[a..b];
    forall o | o in run ensures o in orders && Owns(owner, o) {
      assert o in sorted;
      assert o in multiset(sorted);
      assert o in multiset(mine);
    }
    forall i, j | 0 <= i < j < |run| ensures run[i].createdAt >= run[j].createdAt {
      assert run[i] == sorted[a + i] && run[j] == sorted[a + j];
    }
  }

  /** For any non-negative limit, no page holds more than 100 orders. */
  lemma ListingCapped(orders: seq<Order>, owner: Owner, page: int, limit: int)
    requires limit >= 0
    ensures |Listing(orders, owner, page, limit)| <= MaxPageSize
  {
  }

  /** Under SQLite's rule that a negative limit sets no bound, a negative limit is not
      capped at all: from page 1 on, every page holds every order of the owner, newest
      first. */
  lemma ListingUnbounded(orders: seq<Order>, owner: Owner, page: int, limit: int)
    requires limit < 0 && page >= 1
    ensures Listing(orders, owner, page, limit) == SortNewest(Mine(orders, owner))
  {
    var sorted := SortNewest(Mine(orders, owner));
    assert Clamp(Offset(page, limit), |sorted|) == 0;
  }

  /** With a non-negative limit, page `p + 1` starts where page `p` ends: no order is
      shown on both and none between them is skipped. */
  lemma ConsecutivePages(orders: seq<Order>, owner: Owner, page: int, limit: int)
    requires page >= 1 && limit >= 0
    ensures Listing(orders, owner, page, limit) + Listing(orders, owner, page + 1, limit)
            == LimitOffset(SortNewest(Mine(orders, owner)), 2 * PageSize(limit), Offset(page, limit))
  {
    var n, k := PageSize(limit), Offset(page, limit);
    assert page * n == (page - 1) * n + n;
    assert Offset(page + 1, limit) == k + n;
    LimitOffsetSplit(SortNewest(Mine(orders, owner)), n, k);
  }

  /** A request with neither `?page` nor `?limit` gets the owner's newest orders, twenty
      at most. */
  lemma DefaultListing(orders: seq<Order>, owner: Owner)
    ensures var all := SortNewest(Mine(orders, owner));
            var n := if |all| < DefaultLimit then |all| else DefaultLimit;
            Listing(orders, owner, DefaultPage, DefaultLimit) == all[..n]
  {
    var all := SortNewest(Mine(orders, owner));
    assert Clamp(Offset(DefaultPage, DefaultLimit), |all|) == 0;
  }

  /** When one page is large enough, the first page holds every order of the owner. */
  lemma FirstPageComplete(orders: seq<Order>, owner: Owner, limit: int)
    requires |Mine(orders, owner)| <= PageSize(limit)
    ensures multiset(Listing(orders, owner, 1, limit)) == multiset(Mine(orders, owner))
  {
    var sorted := SortNewest(Mine(orders, owner));
    assert |sorted| == |multiset(sorted)| == |multiset(Mine(orders, owner))| == |Mine(orders, owner)|;
    assert LimitOffset(sorted, PageSize(limit), Offset(1, limit)) == sorted;
  }
}
