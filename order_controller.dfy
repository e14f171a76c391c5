/** The order handlers (cf-server/src/controllers/order.ts) over an in-memory copy of
    the tables they touch. The order id that `uuidv4` supplies and the time that
    `new Date()` reads are parameters.

    The storefront's checkout calls `CreateOrder` only after the payment gateway's
    verification answered `isOk` (web/components/productsPage/BuyBox.tsx:251); that
    flow is not part of this model. */
module OrderController {
  import opened Wrappers
  import opened OrderModel

  /** The database: the ids of existing users, vendors and products, and the
      `orders` and `order_items` tables in insertion order. */
  class Database {
    var users: set<string>
    var vendors: set<string>
    var products: set<string>
    var orders: seq<Order>
    var orderItems: seq<OrderItem>

    /** Order ids are unique, and every item row belongs to an order. */
    ghost predicate Valid()
      reads this
    {
      Distinct(OrderIds(orders)) &&
      (forall it :: it in orderItems ==> it.orderId in OrderIds(orders))
    }

    constructor (users: set<string>, vendors: set<string>, products: set<string>)
      ensures Valid()
      ensures this.users == users && this.vendors == vendors && this.products == products
      ensures orders == [] && orderItems == []
    {
      this.users := users;
      this.vendors := vendors;
      this.products := products;
      orders := [];
      orderItems := [];
    }
  }

  datatype OrderWithItems = OrderWithItems(order: Order, items: seq<OrderItem>)

  /** The `data` and `pagination` of a listing response. */
  datatype Page = Page(data: seq<Order>, page: int, limit: int, count: nat)

  /** `createOrder`: validate, then insert the header, then one item row per line.
      On any failed check nothing is written. */
  method CreateOrder(db: Database, req: CreateRequest, orderId: string, now: int) returns (r: Result<Order>)
    requires db.Valid()
    requires orderId !in OrderIds(db.orders)  // what uuidv4 is relied on for
    modifies db`orders, db`orderItems
    ensures db.Valid()
    ensures var v := Validate(req, old(db.users), old(db.vendors), old(db.products));
      v.Err? ==>
        r == Err(v.status, v.message) &&
        db.orders == old(db.orders) && db.orderItems == old(db.orderItems)
    ensures var v := Validate(req, old(db.users), old(db.vendors), old(db.products));
      v.Ok? ==>
        r == Ok(Header(req, orderId, now)) &&
        db.orders == old(db.orders) + [r.value] &&
        db.orderItems == old(db.orderItems) + ItemRows(orderId, v.value, now) &&
        FirstWithId(db.orders, orderId) == Some(r.value) &&
        ItemsOf(db.orderItems, orderId) == ItemRows(orderId, v.value, now)
  {
    if MissingRequired(req) {
      return Err(400, "Missing required fields");
    }
    if req.userUuid !in db.users {
      return Err(404, "User not found");
    }
    if req.vendorId !in db.vendors {
      return Err(404, "Vendor not found");
    }
    var lines := req.items.value;
    var ids := ProductIds(lines);
    if FoundCount(ids, db.products) != |ids| {
      return Err(400, "One or more products not found");
    }

    assert Validate(req, db.users, db.vendors, db.products) == Ok(lines);
    var header := Header(req, orderId, now);
    InsertOrder(db, header, lines, now);
    r := Ok(header);
  }

  /** The writes of a create that passed validation: the header, then the item rows. */
  method InsertOrder(db: Database, header: Order, lines: seq<LineRequest>, now: int)
    requires db.Valid()
    requires header.orderId !in OrderIds(db.orders)
    modifies db`orders, db`orderItems
    ensures db.Valid()
    ensures db.orders == old(db.orders) + [header]
    ensures db.orderItems == old(db.orderItems) + ItemRows(header.orderId, lines, now)
    ensures FirstWithId(db.orders, header.orderId) == Some(header)
    ensures ItemsOf(db.orderItems, header.orderId) == ItemRows(header.orderId, lines, now)
  {
    CreatedOrderFacts(db.orders, db.orderItems, header, ItemRows(header.orderId, lines, now));
    db.orders := db.orders + [header];
    InsertItems(db, header.orderId, lines, now);
  }

  /** `for (const it of items) await db.insert(orderItems).values(...)`. */
  method InsertItems(db: Database, orderId: string, lines: seq<LineRequest>, now: int)
    modifies db`orderItems
    ensures db.orderItems == old(db.orderItems) + ItemRows(orderId, lines, now)
  {
    var i := 0;
    while i < |lines|
      invariant 0 <= i <= |lines|
      invariant db.orderItems == old(db.orderItems) + ItemRows(orderId, lines[..i], now)
    {
      ItemRowsExtend(orderId, lines, i, now);
      db.orderItems := db.orderItems + [ItemRow(orderId, lines[i], now)];
      i := i + 1;
    }
    assert lines[..i] == lines;
  }

  /** What appending a fresh header and its item rows does to the tables. */
  lemma CreatedOrderFacts(orders: seq<Order>, items: seq<OrderItem>, header: Order, rows: seq<OrderItem>)
    requires Distinct(OrderIds(orders)) && header.orderId !in OrderIds(orders)
    requires forall it :: it in items ==> it.orderId in OrderIds(orders)
    requires forall it :: it in rows ==> it.orderId == header.orderId
    ensures Distinct(OrderIds(orders + [header]))
    ensures forall it :: it in items + rows ==> it.orderId in OrderIds(orders + [header])
    ensures FirstWithId(orders + [header], header.orderId) == Some(header)
    ensures ItemsOf(items + rows, header.orderId) == rows
  {
    AppendedIds(orders, items, header, rows);
    FirstWithIdAppendFresh(orders, header);
    AppendedItems(orders, items, header, rows);
  }

  lemma AppendedIds(orders: seq<Order>, items: seq<OrderItem>, header: Order, rows: seq<OrderItem>)
    requires Distinct(OrderIds(orders)) && header.orderId !in OrderIds(orders)
    requires forall it :: it in items ==> it.orderId in OrderIds(orders)
    requires forall it :: it in rows ==> it.orderId == header.orderId
    ensures Distinct(OrderIds(orders + [header]))
    ensures forall it :: it in items + rows ==> it.orderId in OrderIds(orders + [header])
  {
    var ids := OrderIds(orders + [header]);
    assert ids == OrderIds(orders) + [header.orderId];
    forall it | it in items + rows ensures it.orderId in ids {
      if it in items {
        assert it.orderId in OrderIds(orders);
      } else {
        assert it in rows;
      }
    }
  }

  lemma AppendedItems(orders: seq<Order>, items: seq<OrderItem>, header: Order, rows: seq<OrderItem>)
    requires header.orderId !in OrderIds(orders)
    requires forall it :: it in items ==> it.orderId in OrderIds(orders)
    requires forall it :: it in rows ==> it.orderId == header.orderId
    ensures ItemsOf(items + rows, header.orderId) == rows
  {
    var keep := (it: OrderItem) => it.orderId == header.orderId;
    FilterAppend(items, rows, keep);
    FilterNone(items, keep);
    FilterAll(rows, keep);
  }

  /** `getOrdersByVendor`. An absent `?page` counts as page 1, an absent `?limit`
      as 20. */
  method GetOrdersByVendor(db: Database, vendorId: string, page: Option<int>, limit: Option<int>) returns (r: Result<Page>)
    ensures vendorId == "" ==> r == Err(400, "Vendor ID is required")
    ensures vendorId != "" ==>
      r.Ok? &&
      r.value.data == Listing(db.orders, ByVendor(vendorId), page.GetOr(DefaultPage), limit.GetOr(DefaultLimit)) &&
      r.value.page == page.GetOr(DefaultPage) && r.value.limit == PageSize(limit.GetOr(DefaultLimit)) &&
      r.value.count == |r.value.data|
    ensures r.Ok? ==> forall o :: o in r.value.data ==> o in db.orders && Owns(ByVendor(vendorId), o)
    ensures r.Ok? ==> NewestFirst(r.value.data)
    ensures r.Ok? && limit.GetOr(DefaultLimit) >= 0 ==>
      r.value.count <= limit.GetOr(DefaultLimit) && r.value.count <= MaxPageSize
    // neither `?page` nor `?limit`: the vendor's newest orders, twenty at most
    ensures vendorId != "" && page.None? && limit.None? ==>
      var all := SortNewest(Mine(db.orders, ByVendor(vendorId)));
      r.value.data == all[..if |all| < DefaultLimit then |all| else DefaultLimit]
    // a negative limit lifts the cap: every page from 1 on holds all of the vendor's orders
    ensures vendorId != "" && limit.GetOr(DefaultLimit) < 0 && page.GetOr(DefaultPage) >= 1 ==>
      r.value.data == SortNewest(Mine(db.orders, ByVendor(vendorId)))
  {
    if vendorId == "" {
      return Err(400, "Vendor ID is required");
    }
    var p, n := page.GetOr(DefaultPage), limit.GetOr(DefaultLimit);
    var data := Listing(db.orders, ByVendor(vendorId), p, n);
    if page.None? && limit.None? {
      DefaultListing(db.orders, ByVendor(vendorId));
    }
    if n < 0 && p >= 1 {
      ListingUnbounded(db.orders, ByVendor(vendorId), p, n);
    }
    r := Ok(Page(data, p, PageSize(n), |data|));
  }

  /** `getOrdersByUser`. An absent `?page` counts as page 1, an absent `?limit`
      as 20. */
  method GetOrdersByUser(db: Database, userUuid: string, page: Option<int>, limit: Option<int>) returns (r: Result<Page>)
    ensures userUuid == "" ==> r == Err(400, "User UUID is required")
    ensures userUuid != "" ==>
      r.Ok? &&
      r.value.data == Listing(db.orders, ByUser(userUuid), page.GetOr(DefaultPage), limit.GetOr(DefaultLimit)) &&
      r.value.page == page.GetOr(DefaultPage) && r.value.limit == PageSize(limit.GetOr(DefaultLimit)) &&
      r.value.count == |r.value.data|
    ensures r.Ok? ==> forall o :: o in r.value.data ==> o in db.orders && Owns(ByUser(userUuid), o)
    ensures r.Ok? ==> NewestFirst(r.value.data)
    ensures r.Ok? && limit.GetOr(DefaultLimit) >= 0 ==>
      r.value.count <= limit.GetOr(DefaultLimit) && r.value.count <= MaxPageSize
    // neither `?page` nor `?limit`: the user's newest orders, twenty at most
    ensures userUuid != "" && page.None? && limit.None? ==>
      var all := SortNewest(Mine(db.orders, ByUser(userUuid)));
      r.value.data == all[..if |all| < DefaultLimit then |all| else DefaultLimit]
    // a negative limit lifts the cap: every page from 1 on holds all of the user's orders
    ensures userUuid != "" && limit.GetOr(DefaultLimit) < 0 && page.GetOr(DefaultPage) >= 1 ==>
      r.value.data == SortNewest(Mine(db.orders, ByUser(userUuid)))
  {
    if userUuid == "" {
      return Err(400, "User UUID is required");
    }
    var p, n := page.GetOr(DefaultPage), limit.GetOr(DefaultLimit);
    var data := Listing(db.orders, ByUser(userUuid), p, n);
    if page.None? && limit.None? {
      DefaultListing(db.orders, ByUser(userUuid));
    }
    if n < 0 && p >= 1 {
      ListingUnbounded(db.orders, ByUser(userUuid), p, n);
    }
    r := Ok(Page(data, p, PageSize(n), |data|));
  }

  /** `getOrderItems`. */
  method GetOrderItems(db: Database, orderId: string) returns (r: Result<seq<OrderItem>>)
    ensures orderId == "" ==> r == Err(400, "Order ID is required")
    ensures orderId != "" ==> r == Ok(ItemsOf(db.orderItems, orderId))
    ensures r.Ok? ==> forall it :: it in r.value <==> it in db.orderItems && it.orderId == orderId
  {
    if orderId == "" {
      return Err(400, "Order ID is required");
    }
    r := Ok(ItemsOf(db.orderItems, orderId));
  }

  /** `updateOrderStatus`: any non-empty status is written, whatever the current one. */
  method UpdateOrderStatus(db: Database, orderId: string, status: string, now: int) returns (r: Result<Option<Order>>)
    requires db.Valid()
    modifies db`orders
    ensures db.Valid()
    ensures orderId == "" || status == "" ==>
      r == Err(400, "Order ID and status are required") && db.orders == old(db.orders)
    ensures orderId != "" && status != "" ==>
      db.orders == WithStatus(old(db.orders), orderId, status, now) &&
      r == Ok(FirstWithId(db.orders, orderId))
  {
    if orderId == "" || status == "" {
      return Err(400, "Order ID and status are required");
    }
    WithStatusKeepsIds(db.orders, orderId, status, now);
    db.orders := WithStatus(db.orders, orderId, status, now);
    r := Ok(FirstWithId(db.orders, orderId));
  }

  /** `getOrder`: the header and exactly its item rows. */
  method GetOrder(db: Database, orderId: string) returns (r: Result<OrderWithItems>)
    ensures orderId == "" ==> r == Err(400, "Order ID is required")
    ensures orderId != "" && (forall o :: o in db.orders ==> o.orderId != orderId) ==>
      r == Err(404, "Order not found")
    ensures orderId != "" && (exists o :: o in db.orders && o.orderId == orderId) ==> r.Ok?
    ensures r.Ok? ==>
      r.value.order in db.orders && r.value.order.orderId == orderId &&
      r.value.items == ItemsOf(db.orderItems, orderId) &&
      (forall it :: it in r.value.items <==> it in db.orderItems && it.orderId == orderId)
  {
    if orderId == "" {
      return Err(400, "Order ID is required");
    }
    var found := FirstWithId(db.orders, orderId);
    if found.None? {
      return Err(404, "Order not found");
    }
    r := Ok(OrderWithItems(found.value, ItemsOf(db.orderItems, orderId)));
  }
}
