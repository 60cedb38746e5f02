/** A listing of the marketplace (`Item` in src/Item.h and src/Item.cpp).
    The publish date comes from the wall clock and the image list is never
    used, so neither is modelled; the price is an exact `real`. */
module Items {

  /** Lifecycle of a listing. AVAILABLE is initial; a purchase makes it SOLD
      and a deletion makes it DELETED. */
  datatype Status = Available | Deleted | Sold

  datatype Item = Item(
    id: int,
    name: string,
    description: string,
    category: string,
    price: real,
    status: Status,
    sellerId: int)

  /** `Item::isAvailable`. */
  predicate IsAvailable(it: Item) {
    it.status == Available
  }

  /** The `Item` constructor: every new listing starts out AVAILABLE. */
  function NewItem(id: int, name: string, description: string, category: string,
                   price: real, sellerId: int): (it: Item)
    ensures IsAvailable(it)
    ensures it.id == id && it.sellerId == sellerId
    ensures it.name == name && it.description == description
    ensures it.category == category && it.price == price
  {
    Item(id, name, description, category, price, Available, sellerId)
  }

  /** `Item::setStatus`: the status becomes `s` and nothing else changes. */
  function SetStatus(it: Item, s: Status): (r: Item)
    ensures r.status == s
    ensures r.(status := it.status) == it
  {
    it.(status := s)
  }

  /** `Item::updateInfo`: replaces the descriptive fields and the price; the
      identity, the seller and the status stay. */
  function UpdateInfo(it: Item, name: string, description: string, category: string,
                      price: real): (r: Item)
    ensures r.name == name && r.description == description
    ensures r.category == category && r.price == price
    ensures r.id == it.id && r.sellerId == it.sellerId && r.status == it.status
  {
    it.(name := name, description := description, category := category, price := price)
  }

  /** After `setStatus(s)` the listing is available exactly when `s` is
      AVAILABLE, whatever it was before. */
  lemma SetStatusDecidesAvailability(it: Item, s: Status)
    ensures IsAvailable(SetStatus(it, s)) <==> s == Available
  {
  }

  /** Editing a listing never changes whether it can be bought. */
  lemma UpdateInfoKeepsAvailability(it: Item, name: string, description: string,
                                    category: string, price: real)
    ensures IsAvailable(UpdateInfo(it, name, description, category, price)) == IsAvailable(it)
  {
  }
}
