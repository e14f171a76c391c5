/** The cart and wishlist helpers (web/helpers/cart-and-wishlist/CRUD-Wishlist-and-Cart.ts).
    Each helper computes a new list from the old one — the pure functions below — then
    writes it to storage through `SafeLocalStorage` under a fixed key and announces it
    with a window event. */
module CartWishlist {
  import opened Items
  import opened LocalStore

  const CartKey: string := "plantomartCart"
  const WishlistKey: string := "plantomartWishlist"

  function CartKeyOf(c: CartItem): string { c.Key() }
  function WishlistKeyOf(w: WishlistItem): string { w.Key() }

  // ---------------------------------------------------------------------------
  // Keyed sequences

  /** `items.findIndex(item => getItemId(item) === k) >= 0`. */
  function HasKey<T(!new)>(s: seq<T>, key: T -> string, k: string): (found: bool)
    ensures found <==> exists x :: x in s && key(x) == k
  {
    exists i :: 0 <= i < |s| && key(s[i]) == k
  }

  /** No two entries share a key. */
  predicate KeysUnique<T>(s: seq<T>, key: T -> string) {
    forall i, j :: 0 <= i < j < |s| ==> key(s[i]) != key(s[j])
  }

  /** How many entries carry key `k`. */
  function Count<T>(s: seq<T>, key: T -> string, k: string): nat {
    if s == [] then 0 else (if key(s[0]) == k then 1 else 0) + Count(s[1..], key, k)
  }

  /** `a` is `b` with some entries left out and the rest in their order. */
  ghost predicate IsSubsequence<T>(a: seq<T>, b: seq<T>)
    decreases |b|
  {
    if a == [] then true
    else if b == [] then false
    else (a[0] == b[0] && IsSubsequence(a[1..], b[1..])) || IsSubsequence(a, b[1..])
  }

  /** `items.filter(item => getItemId(item) !== k)`: exactly the entries whose key is not `k`. */
  function Without<T(!new)>(s: seq<T>, key: T -> string, k: string): (r: seq<T>)
    ensures forall x :: x in r <==> x in s && key(x) != k
    ensures |r| + Count(s, key, k) == |s|
  {
    if s == [] then []
    else if key(s[0]) == k then Without(s[1..], key, k)
    else [s[0]] + Without(s[1..], key, k)
  }

  lemma {:induction false} WithoutKeepsOrder<T(!new)>(s: seq<T>, key: T -> string, k: string)
    ensures IsSubsequence(Without(s, key, k), s)
  {
    if s != [] {
      WithoutKeepsOrder(s[1..], key, k);
      var r := Without(s, key, k);
      if key(s[0]) != k {
        assert r[0] == s[0] && r[1..] == Without(s[1..], key, k);
      } else if r != [] {
        assert r == Without(s[1..], key, k);
      }
    }
  }

  lemma {:induction false} WithoutIdempotent<T(!new)>(s: seq<T>, key: T -> string, k: string)
    ensures Without(Without(s, key, k), key, k) == Without(s, key, k)
  {
    if s != [] {
      WithoutIdempotent(s[1..], key, k);
      if key(s[0]) != k {
        var r := Without(s, key, k);
        assert r[0] == s[0] && r[1..] == Without(s[1..], key, k);
      }
    }
  }

  /** Removing a key no entry carries changes nothing. */
  lemma {:induction false} WithoutAbsentKey<T(!new)>(s: seq<T>, key: T -> string, k: string)
    requires !HasKey(s, key, k)
    ensures Without(s, key, k) == s
  {
    if s != [] {
      assert key(s[0]) != k;
      assert !HasKey(s[1..], key, k) by {
        forall i | 0 <= i < |s[1..]| ensures key(s[1..][i]) != k {
          assert s[1..][i] == s[i + 1];
        }
      }
      WithoutAbsentKey(s[1..], key, k);
    }
  }

  lemma {:induction false} WithoutKeepsKeysUnique<T(!new)>(s: seq<T>, key: T -> string, k: string)
    requires KeysUnique(s, key)
    ensures KeysUnique(Without(s, key, k), key)
  {
    if s != [] {
      assert KeysUnique(s[1..], key) by {
        forall i, j | 0 <= i < j < |s[1..]| ensures key(s[1..][i]) != key(s[1..][j]) {
          assert s[1..][i] == s[i + 1] && s[1..][j] == s[j + 1];
        }
      }
      WithoutKeepsKeysUnique(s[1..], key, k);
      if key(s[0]) != k {
        var rest := Without(s[1..], key, k);
        forall y | y in rest ensures key(y) != key(s[0]) {
          assert y in s[1..];
          var j :| 0 <= j < |s[1..]| && s[1..][j] == y;
          assert s[j + 1] == y;
        }
        var r := Without(s, key, k);
        forall i, j | 0 <= i < j < |r| ensures key(r[i]) != key(r[j]) {
          assert r[j] == rest[j - 1];
          if i > 0 {
            assert r[i] == rest[i - 1];
          } else {
            assert rest[j - 1] in rest;
          }
        }
      }
    }
  }

  // ---------------------------------------------------------------------------
  // Cart

  /** `cartItems.map(item => getItemId(item) === k ? { ...item, quantity: f(item.quantity) } : item)`. */
  function UpdateMatching(cart: seq<CartItem>, k: string, f: int -> int): (r: seq<CartItem>)
    ensures |r| == |cart|
    ensures forall i :: 0 <= i < |r| && cart[i].Key() == k ==> r[i] == cart[i].(quantity := f(cart[i].quantity))
    ensures forall i :: 0 <= i < |r| && cart[i].Key() != k ==> r[i] == cart[i]
  {
    if cart == [] then []
    else
      var head := if cart[0].Key() == k then cart[0].(quantity := f(cart[0].quantity)) else cart[0];
      [head] + UpdateMatching(cart[1..], k, f)
  }

  /** The list `updateCartQuantity` produces when `newQuantity` is positive. */
  function SetQuantity(cart: seq<CartItem>, k: string, newQuantity: int): (r: seq<CartItem>)
    ensures |r| == |cart|
    ensures forall i :: 0 <= i < |r| ==> r[i].Key() == cart[i].Key()
    ensures forall i :: 0 <= i < |r| && cart[i].Key() == k ==> r[i] == cart[i].(quantity := newQuantity)
    ensures forall i :: 0 <= i < |r| && cart[i].Key() != k ==> r[i] == cart[i]
  {
    UpdateMatching(cart, k, q => newQuantity)
  }

  /** The line added for a product not yet in the cart: quantity 1, whatever the
      product carried, and `id` filled in from `product_id` when empty. */
  function NewLine(product: WishlistItem): (c: CartItem)
    ensures c.quantity == 1
    ensures c.id == product.Key() && c.Key() == product.Key()
    ensures c.productId == product.productId && c.details == product.details
  {
    var w := product.WithIdFilled();
    CartItem(w.id, w.productId, w.details, 1)
  }

  /** The list `addWishlistItemToCart` produces. */
  function AddedToCart(cart: seq<CartItem>, product: WishlistItem): (r: seq<CartItem>)
    ensures HasKey(cart, CartKeyOf, product.Key()) ==>
      |r| == |cart| &&
      (forall i :: 0 <= i < |r| && cart[i].Key() == product.Key() ==> r[i] == cart[i].(quantity := cart[i].quantity + 1)) &&
      (forall i :: 0 <= i < |r| && cart[i].Key() != product.Key() ==> r[i] == cart[i])
    ensures !HasKey(cart, CartKeyOf, product.Key()) ==> r == cart + [NewLine(product)]
    ensures HasKey(r, CartKeyOf, product.Key())
  {
    var k := product.Key();
    if HasKey(cart, CartKeyOf, k) then
      var r := UpdateMatching(cart, k, q => q + 1);
      var i :| 0 <= i < |cart| && CartKeyOf(cart[i]) == k;
      assert CartKeyOf(r[i]) == k;
      r
    else
      var r := cart + [NewLine(product)];
      assert CartKeyOf(r[|cart|]) == k;
      r
  }

  lemma AddedToCartKeepsKeysUnique(cart: seq<CartItem>, product: WishlistItem)
    requires KeysUnique(cart, CartKeyOf)
    ensures KeysUnique(AddedToCart(cart, product), CartKeyOf)
  {
    var r := AddedToCart(cart, product);
    if !HasKey(cart, CartKeyOf, product.Key()) {
      forall i, j | 0 <= i < j < |r| ensures CartKeyOf(r[i]) != CartKeyOf(r[j]) {
        if j == |cart| {
          assert r[i] == cart[i];
        }
      }
    }
  }

  // ---------------------------------------------------------------------------
  // Wishlist

  /** The list `addToWishlist` produces. */
  function AddedToWishlist(list: seq<WishlistItem>, product: WishlistItem): (r: seq<WishlistItem>)
    ensures HasKey(list, WishlistKeyOf, product.Key()) ==> r == list
    ensures !HasKey(list, WishlistKeyOf, product.Key()) ==> r == list + [product.WithIdFilled()]
    ensures HasKey(r, WishlistKeyOf, product.Key())
  {
    if HasKey(list, WishlistKeyOf, product.Key()) then list
    else
      var r := list + [product.WithIdFilled()];
      assert WishlistKeyOf(r[|list|]) == product.Key();
      r
  }

  lemma AddedToWishlistIdempotent(list: seq<WishlistItem>, product: WishlistItem)
    ensures AddedToWishlist(AddedToWishlist(list, product), product) == AddedToWishlist(list, product)
  {
  }

  lemma AddedToWishlistKeepsKeysUnique(list: seq<WishlistItem>, product: WishlistItem)
    requires KeysUnique(list, WishlistKeyOf)
    ensures KeysUnique(AddedToWishlist(list, product), WishlistKeyOf)
  {
    var r := AddedToWishlist(list, product);
    if !HasKey(list, WishlistKeyOf, product.Key()) {
      forall i, j | 0 <= i < j < |r| ensures WishlistKeyOf(r[i]) != WishlistKeyOf(r[j]) {
        if j == |list| {
          assert r[i] == list[i];
        }
      }
    }
  }

  // ---------------------------------------------------------------------------
  // The helpers, with their writes and events

  datatype Event = CartUpdated(cart: seq<CartItem>) | WishlistUpdated(wishlist: seq<WishlistItem>)

  /** The page's `window`, seen only through the events dispatched on it. */
  class Window {
    var dispatched: seq<Event>

    constructor ()
      ensures dispatched == []
    {
      dispatched := [];
    }

    method DispatchEvent(e: Event)
      modifies this
      ensures dispatched == old(dispatched) + [e]
    {
      dispatched := dispatched + [e];
    }
  }

  /** `updateCartQuantity`: a quantity of zero or less is ignored outright. */
  method UpdateCartQuantity(storage: Storage, window: Window, cartItems: seq<CartItem>, id: string, newQuantity: int)
    returns (updated: seq<CartItem>)
    modifies storage, window
    ensures newQuantity <= 0 ==>
      updated == cartItems &&
      storage.entries == old(storage.entries) && window.dispatched == old(window.dispatched)
    ensures newQuantity > 0 ==>
      updated == SetQuantity(cartItems, id, newQuantity) &&
      storage.entries == Saved(storage.serializedLength, storage.fits, old(storage.entries), CartKey, CartDoc(updated)) &&
      window.dispatched == old(window.dispatched) + [CartUpdated(updated)]
  {
    if newQuantity <= 0 {
      return cartItems;
    }
    updated := SetQuantity(cartItems, id, newQuantity);
    SafeLocalStorage(storage, CartKey, CartDoc(updated));
    window.DispatchEvent(CartUpdated(updated));
  }

  /** `removeFromCart`. */
  method RemoveFromCart(storage: Storage, window: Window, cartItems: seq<CartItem>, id: string)
    returns (updated: seq<CartItem>)
    modifies storage, window
    ensures updated == Without(cartItems, CartKeyOf, id)
    ensures storage.entries == Saved(storage.serializedLength, storage.fits, old(storage.entries), CartKey, CartDoc(updated))
    ensures window.dispatched == old(window.dispatched) + [CartUpdated(updated)]
  {
    updated := Without(cartItems, CartKeyOf, id);
    SafeLocalStorage(storage, CartKey, CartDoc(updated));
    window.DispatchEvent(CartUpdated(updated));
  }

  /** `addWishlistItemToCart`. */
  method AddWishlistItemToCart(storage: Storage, window: Window, cartItems: seq<CartItem>, product: WishlistItem)
    returns (updated: seq<CartItem>)
    modifies storage, window
    ensures updated == AddedToCart(cartItems, product)
    ensures storage.entries == Saved(storage.serializedLength, storage.fits, old(storage.entries), CartKey, CartDoc(updated))
    ensures window.dispatched == old(window.dispatched) + [CartUpdated(updated)]
  {
    updated := AddedToCart(cartItems, product);
    SafeLocalStorage(storage, CartKey, CartDoc(updated));
    window.DispatchEvent(CartUpdated(updated));
  }

  /** `addToWishlist`: a product already listed changes nothing, not even storage. */
  method AddToWishlist(storage: Storage, window: Window, wishlistItems: seq<WishlistItem>, product: WishlistItem)
    returns (updated: seq<WishlistItem>)
    modifies storage, window
    ensures updated == AddedToWishlist(wishlistItems, product)
    ensures HasKey(wishlistItems, WishlistKeyOf, product.Key()) ==>
      storage.entries == old(storage.entries) && window.dispatched == old(window.dispatched)
    ensures !HasKey(wishlistItems, WishlistKeyOf, product.Key()) ==>
      storage.entries == Saved(storage.serializedLength, storage.fits, old(storage.entries), WishlistKey, WishlistDoc(updated)) &&
      window.dispatched == old(window.dispatched) + [WishlistUpdated(updated)]
  {
    if HasKey(wishlistItems, WishlistKeyOf, product.Key()) {
      return wishlistItems;
    }
    updated := wishlistItems + [product.WithIdFilled()];
    SafeLocalStorage(storage, WishlistKey, WishlistDoc(updated));
    window.DispatchEvent(WishlistUpdated(updated));
  }

  /** `removeFromWishlist`. */
  method RemoveFromWishlist(storage: Storage, window: Window, wishlistItems: seq<WishlistItem>, id: string)
    returns (updated: seq<WishlistItem>)
    modifies storage, window
    ensures updated == Without(wishlistItems, WishlistKeyOf, id)
    ensures storage.entries == Saved(storage.serializedLength, storage.fits, old(storage.entries), WishlistKey, WishlistDoc(updated))
    ensures window.dispatched == old(window.dispatched) + [WishlistUpdated(updated)]
  {
    updated := Without(wishlistItems, WishlistKeyOf, id);
    SafeLocalStorage(storage, WishlistKey, WishlistDoc(updated));
    window.DispatchEvent(WishlistUpdated(updated));
  }
}
