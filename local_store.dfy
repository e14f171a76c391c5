/** The browser's key-value store (`localStorage`) as the client code sees it, and the
    size-guarded write every cart, wishlist and cache update goes through. */
module LocalStore {
  import opened Wrappers
  import opened Items

  /** A JSON value as read back from storage. Numbers are integers here. The members
      of an object are not represented: the code that reads these values only asks
      whether they are truthy, and every object is. */
  datatype Value =
    | Undefined
    | Null
    | Bool(b: bool)
    | Number(n: int)
    | Text(s: string)
    | Array(elems: seq<Value>)
    | Object
  {
    /** JavaScript truthiness: every array and every object is truthy, even an empty one. */
    function Truthy(): (t: bool)
      ensures !t <==> this == Undefined || this == Null || this == Bool(false) || this == Number(0) || this == Text("")
    {
      match this
      case Undefined => false
      case Null => false
      case Bool(b) => b
      case Number(n) => n != 0
      case Text(s) => s != ""
      case Array(_) => true
      case Object => true
    }
  }

  /** The `expiry` property of a cache entry: absent, or a time in milliseconds. */
  datatype Stamp = NoStamp | At(ms: int) {
    function Truthy(): (t: bool)
      ensures !t <==> this == NoStamp || this == At(0)
    {
      At? && ms != 0
    }
  }

  /** What a key holds. This code never writes the last two; other code or an
      earlier session may have left them. `EmptyText` is the empty string;
      `Unparseable` is non-empty text on which reading a property throws: text that is
      not JSON, or the JSON `null`. */
  datatype Doc =
    | CartDoc(cart: seq<CartItem>)
    | WishlistDoc(wishlist: seq<WishlistItem>)
    | ExpiringDoc(value: Value, expiry: Stamp)
    | EmptyText
    | Unparseable
  {
    /** `Array.isArray`: the cart and the wishlist are arrays; a cache entry and
        anything left by other code are not. */
    function IsArray(): (a: bool)
      ensures CartDoc? || WishlistDoc? ==> a
      ensures ExpiringDoc? || EmptyText? || Unparseable? ==> !a
    {
      CartDoc? || WishlistDoc?
    }

    function Length(): nat
      requires IsArray()
    {
      if CartDoc? then |cart| else |wishlist|
    }

    /** `data.slice(-10)`: the ten last elements, in order. */
    function LastTen(): (d: Doc)
      requires IsArray() && Length() >= KeepOnOverflow
      ensures d.IsArray() && d.Length() == KeepOnOverflow
      ensures CartDoc? ==> d == CartDoc(cart[|cart| - KeepOnOverflow..])
      ensures WishlistDoc? ==> d == WishlistDoc(wishlist[|wishlist| - KeepOnOverflow..])
    {
      if CartDoc? then CartDoc(cart[|cart| - KeepOnOverflow..])
      else WishlistDoc(wishlist[|wishlist| - KeepOnOverflow..])
    }
  }

  /** Serialised documents longer than this many characters are not written as they are. */
  const MaxSize: nat := 2 * 1024 * 1024

  /** How many of the most recent entries an oversized array is cut down to. */
  const KeepOnOverflow: nat := 10

  /** `localStorage.setItem`, which throws QuotaExceededError when the store would no
      longer fit, followed in that case by `removeItem` of the same key. */
  function PutOrDrop(fits: map<string, Doc> -> bool, entries: map<string, Doc>, key: string, d: Doc)
    : (r: map<string, Doc>)
    ensures r - {key} == entries - {key}
    ensures key in r <==> fits(entries[key := d])
    ensures key in r ==> r[key] == d
  {
    if fits(entries[key := d]) then entries[key := d] else entries - {key}
  }

  /** The storage after `safeLocalStorage(key, data)`, given the length of
      `JSON.stringify(data)` and the browser's quota. */
  function Saved(serializedLength: Doc -> nat, fits: map<string, Doc> -> bool,
                 entries: map<string, Doc>, key: string, data: Doc): (r: map<string, Doc>)
    // no other key is ever touched
    ensures r - {key} == entries - {key}
    // within the limit: written whole, or removed on a quota error
    ensures serializedLength(data) <= MaxSize ==> r == PutOrDrop(fits, entries, key, data)
    // over the limit, an array of more than ten: only its ten last elements are written
    ensures serializedLength(data) > MaxSize && data.IsArray() && data.Length() > KeepOnOverflow ==>
      r == PutOrDrop(fits, entries, key, data.LastTen())
    // over the limit otherwise: nothing at all is written
    ensures serializedLength(data) > MaxSize && !(data.IsArray() && data.Length() > KeepOnOverflow) ==>
      r == entries
    // whatever ends up under the key is the data or its trimmed copy
    ensures key in r && (key !in entries || r[key] != entries[key]) ==>
      r[key] == data || (data.IsArray() && data.Length() > KeepOnOverflow && r[key] == data.LastTen())
  {
    if serializedLength(data) > MaxSize then
      if data.IsArray() && data.Length() > KeepOnOverflow then PutOrDrop(fits, entries, key, data.LastTen())
      else entries
    else PutOrDrop(fits, entries, key, data)
  }

  function Lookup(entries: map<string, Doc>, key: string): Option<Doc>
  {
    if key in entries then Some(entries[key]) else None
  }

  /** The Web Storage object. How long a document's JSON text is, and whether a
      store of given contents fits the browser's quota, are decided by the
      browser; they are given when the object is made. */
  class Storage {
    const serializedLength: Doc -> nat
    const fits: map<string, Doc> -> bool
    var entries: map<string, Doc>

    constructor (serializedLength: Doc -> nat, fits: map<string, Doc> -> bool, entries: map<string, Doc>)
      ensures this.serializedLength == serializedLength && this.fits == fits
      ensures this.entries == entries
    {
      this.serializedLength := serializedLength;
      this.fits := fits;
      this.entries := entries;
    }

    /** `getItem`. */
    method GetItem(key: string) returns (d: Option<Doc>)
      ensures d == Lookup(entries, key)
    {
      d := if key in entries then Some(entries[key]) else None;
    }

    /** `setItem`; `ok` is false when it throws QuotaExceededError, and then nothing changes. */
    method SetItem(key: string, d: Doc) returns (ok: bool)
      modifies this
      ensures ok == fits(old(entries)[key := d])
      ensures entries == if ok then old(entries)[key := d] else old(entries)
    {
      ok := fits(entries[key := d]);
      if ok {
        entries := entries[key := d];
      }
    }

    /** `removeItem`. */
    method RemoveItem(key: string)
      modifies this
      ensures entries == old(entries) - {key}
    {
      entries := entries - {key};
    }
  }

  /** `safeLocalStorage(key, data)`. */
  method SafeLocalStorage(storage: Storage, key: string, data: Doc)
    modifies storage
    ensures storage.entries == Saved(storage.serializedLength, storage.fits, old(storage.entries), key, data)
  {
    if storage.serializedLength(data) > MaxSize {
      if data.IsArray() && data.Length() > KeepOnOverflow {
        var ok := storage.SetItem(key, data.LastTen());
        if !ok {
          storage.RemoveItem(key);
        }
      }
      return;
    }
    var ok := storage.SetItem(key, data);
    if !ok {
      storage.RemoveItem(key);
    }
  }
}
