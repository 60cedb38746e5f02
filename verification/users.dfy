/** Accounts (`User`, `RegularUser` and `Admin` in src/User.h and
    src/User.cpp). The class hierarchy becomes one datatype with a variant
    per role; only a regular user carries the four item-id lists. Console
    messages of the list operations are not modelled. */
module Users {
  import opened Seqs
  import opened Items

  /** The role tag passed to registration (`REGULAR_USER` or `ADMIN`). */
  datatype UserRole = RegularRole | AdminRole

  datatype User =
    | RegularUser(
        id: int, username: string, password: string, email: string,
        phone: string, studentId: string, realName: string, college: string,
        published: seq<int>, purchased: seq<int>, cart: seq<int>, favorites: seq<int>)
    | Admin(
        id: int, username: string, password: string, email: string,
        phone: string, studentId: string, realName: string, college: string)

  /** `User::getRole`. */
  function Role(u: User): UserRole {
    if u.Admin? then AdminRole else RegularRole
  }

  /** The `RegularUser` constructor: all four lists start empty. */
  function NewRegularUser(id: int, username: string, password: string, email: string,
                          phone: string, studentId: string, realName: string,
                          college: string): (u: User)
    ensures Role(u) == RegularRole && u.RegularUser?
    ensures u.published == [] && u.purchased == [] && u.cart == [] && u.favorites == []
    ensures u.id == id && u.username == username && u.password == password && u.email == email
    ensures u.phone == phone && u.studentId == studentId
    ensures u.realName == realName && u.college == college
  {
    RegularUser(id, username, password, email, phone, studentId, realName, college, [], [], [], [])
  }

  /** The `Admin` constructor: only id, username, password and email are
      kept; the other profile fields are empty. */
  function NewAdmin(id: int, username: string, password: string, email: string): (u: User)
    ensures Role(u) == AdminRole
    ensures u.id == id && u.username == username && u.password == password && u.email == email
    ensures u.phone == "" && u.studentId == "" && u.realName == "" && u.college == ""
  {
    Admin(id, username, password, email, "", "", "", "")
  }

  /** `User::login`: plain equality of the stored and the supplied password. */
  predicate PasswordMatches(u: User, password: string) {
    u.password == password
  }

  /** `User::resetPassword`: afterwards the new password, and only it, is
      accepted; nothing else about the account changes. */
  function ResetPassword(u: User, password: string): (r: User)
    ensures PasswordMatches(r, password)
    ensures forall p :: PasswordMatches(r, p) <==> p == password
    ensures r.(password := u.password) == u
  {
    u.(password := password)
  }

  /** `RegularUser::publishItem`: records the listing's id, with no
      duplicate check. */
  function PublishItem(u: User, it: Item): (r: User)
    requires u.RegularUser?
    ensures r.RegularUser? && r.published == u.published + [it.id]
    ensures r.(published := u.published) == u
  {
    u.(published := u.published + [it.id])
  }

  /** `RegularUser::addPurchasedItem`: records the id, with no duplicate
      check. */
  function AddPurchasedItem(u: User, itemId: int): (r: User)
    requires u.RegularUser?
    ensures r.RegularUser? && r.purchased == u.purchased + [itemId]
    ensures r.(purchased := u.purchased) == u
  {
    u.(purchased := u.purchased + [itemId])
  }

  /** `RegularUser::addToCart`: the id ends up in the cart exactly once more
      if it was absent, and the cart is untouched if it was present. */
  function AddToCart(u: User, itemId: int): (r: User)
    requires u.RegularUser?
    ensures r.RegularUser? && itemId in r.cart
    ensures itemId in u.cart ==> r == u
    ensures itemId !in u.cart ==> r.cart == u.cart + [itemId]
    ensures NoDuplicates(u.cart) ==> NoDuplicates(r.cart)
    ensures r.(cart := u.cart) == u
  {
    u.(cart := AddIfAbsent(u.cart, itemId))
  }

  /** `RegularUser::removeFromCart`: erases the first occurrence of the id,
      keeping the rest in order; an absent id changes nothing. */
  function RemoveFromCart(u: User, itemId: int): (r: User)
    requires u.RegularUser?
    ensures r.RegularUser?
    ensures itemId !in u.cart ==> r == u
    ensures itemId in u.cart ==>
      r.cart == u.cart[..IndexOf(u.cart, itemId)] + u.cart[IndexOf(u.cart, itemId) + 1..]
    ensures NoDuplicates(u.cart) ==> itemId !in r.cart && NoDuplicates(r.cart)
    ensures r.(cart := u.cart) == u
  {
    RemoveFirstFromDistinct(u.cart, itemId);
    if itemId in u.cart then
      RemoveFirstSlices(u.cart, itemId);
      u.(cart := RemoveFirst(u.cart, itemId))
    else
      u
  }

  /** `RegularUser::addToFavorites`: as `AddToCart`, on the favourites. */
  function AddToFavorites(u: User, itemId: int): (r: User)
    requires u.RegularUser?
    ensures r.RegularUser? && itemId in r.favorites
    ensures itemId in u.favorites ==> r == u
    ensures itemId !in u.favorites ==> r.favorites == u.favorites + [itemId]
    ensures NoDuplicates(u.favorites) ==> NoDuplicates(r.favorites)
    ensures r.(favorites := u.favorites) == u
  {
    u.(favorites := AddIfAbsent(u.favorites, itemId))
  }

  /** `RegularUser::removeFromFavorites`: as `RemoveFromCart`, on the
      favourites. */
  function RemoveFromFavorites(u: User, itemId: int): (r: User)
    requires u.RegularUser?
    ensures r.RegularUser?
    ensures itemId !in u.favorites ==> r == u
    ensures itemId in u.favorites ==>
      r.favorites == u.favorites[..IndexOf(u.favorites, itemId)]
                     + u.favorites[IndexOf(u.favorites, itemId) + 1..]
    ensures NoDuplicates(u.favorites) ==> itemId !in r.favorites && NoDuplicates(r.favorites)
    ensures r.(favorites := u.favorites) == u
  {
    RemoveFirstFromDistinct(u.favorites, itemId);
    if itemId in u.favorites then
      RemoveFirstSlices(u.favorites, itemId);
      u.(favorites := RemoveFirst(u.favorites, itemId))
    else
      u
  }

  /** Adding an id twice has the effect of adding it once. */
  lemma AddToCartIdempotent(u: User, itemId: int)
    requires u.RegularUser?
    ensures AddToCart(AddToCart(u, itemId), itemId) == AddToCart(u, itemId)
  {
  }

  /** Removing an id that was just added to the cart restores the account. */
  lemma RemoveFromCartUndoesAdd(u: User, itemId: int)
    requires u.RegularUser? && itemId !in u.cart
    ensures RemoveFromCart(AddToCart(u, itemId), itemId) == u
  {
    RemoveUndoesAdd(u.cart, itemId);
  }

  /** Removing an id that was just added to the favourites restores the
      account. */
  lemma RemoveFromFavoritesUndoesAdd(u: User, itemId: int)
    requires u.RegularUser? && itemId !in u.favorites
    ensures RemoveFromFavorites(AddToFavorites(u, itemId), itemId) == u
  {
    RemoveUndoesAdd(u.favorites, itemId);
  }
}
