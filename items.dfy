/** The entries kept in the shopper's cart and wishlist (web/types/Cart.ts), and the
    rule that decides which entries are "the same product". */
module Items {

  /** The descriptive fields of an entry (title, price, ...). The store copies them
      as they are and never looks inside. */
  datatype Details = Details(title: string, price: int)

  /** An entry's key: `id` when it is non-empty, otherwise `product_id`, otherwise
      the empty string. An absent `product_id` is written as "". */
  function KeyOf(id: string, productId: string): (k: string)
    ensures id != "" ==> k == id
    ensures id == "" ==> k == productId
    ensures k == "" <==> id == "" && productId == ""
  {
    if id != "" then id else if productId != "" then productId else ""
  }

  datatype CartItem = CartItem(id: string, productId: string, details: Details, quantity: int)
  {
    function Key(): string { KeyOf(id, productId) }
  }

  datatype WishlistItem = WishlistItem(id: string, productId: string, details: Details)
  {
    function Key(): string { KeyOf(id, productId) }

    /** The copy that is stored: when `id` is empty and `product_id` is not, `id`
        takes the value of `product_id`. */
    function WithIdFilled(): (w: WishlistItem)
      ensures w.Key() == Key()
      ensures w.productId == productId && w.details == details
      ensures w.id != "" || productId == ""
      ensures id != "" ==> w == this
    {
      if id == "" && productId != "" then this.(id := productId) else this
    }
  }
}
