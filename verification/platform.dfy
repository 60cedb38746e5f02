/** The in-memory store (`TradingPlatform` in src/Platform.h and
    src/Platform.cpp). Every operation is a pure function from the old store
    to the new store and the operation's reply. Shared handles to users and
    item handles become lookups by id; the user collection is a sequence
    of values, so a change to an account is a replacement at its index. */
module Platform {
  import opened Wrappers
  import opened Seqs
  import opened Items
  import opened Users
  import opened SearchEngine

  datatype Store = Store(
    users: seq<User>,
    items: seq<Item>,
    nextUserId: int,
    nextItemId: int)

  /* ------------------------------------------------------------- lookups */

  /** Position of the first account with that id. */
  function UserIndex(users: seq<User>, id: int): (r: Option<nat>)
    ensures r.Some? ==> r.value < |users| && users[r.value].id == id
    ensures r.Some? ==> forall j :: 0 <= j < r.value ==> users[j].id != id
    ensures r.None? <==> forall j :: 0 <= j < |users| ==> users[j].id != id
  {
    FirstIndex(users, (u: User) => u.id == id)
  }

  /** Position of the first listing with that id. */
  function ItemIndex(items: seq<Item>, id: int): (r: Option<nat>)
    ensures r.Some? ==> r.value < |items| && items[r.value].id == id
    ensures r.Some? ==> forall j :: 0 <= j < r.value ==> items[j].id != id
    ensures r.None? <==> forall j :: 0 <= j < |items| ==> items[j].id != id
  {
    FirstIndex(items, (it: Item) => it.id == id)
  }

  /** `findUserById`: the first account with that id, or not found. */
  function FindUserById(st: Store, id: int): (r: Option<User>)
    ensures r.Some? ==> r.value in st.users && r.value.id == id
    ensures r.None? <==> forall u :: u in st.users ==> u.id != id
  {
    match UserIndex(st.users, id)
    case None => None
    case Some(k) => Some(st.users[k])
  }

  /** `findItemById`: the first listing with that id, or not found. */
  function FindItemById(st: Store, id: int): (r: Option<Item>)
    ensures r.Some? ==> r.value in st.items && r.value.id == id
    ensures r.None? <==> forall it :: it in st.items ==> it.id != id
  {
    match ItemIndex(st.items, id)
    case None => None
    case Some(k) => Some(st.items[k])
  }

  /** The id names a regular account (the downcast to `RegularUser`
      of the lookup succeeds). */
  predicate IsRegularId(st: Store, id: int) {
    FindUserById(st, id).Some? && FindUserById(st, id).value.RegularUser?
  }

  /** The listing found under that id exists and is AVAILABLE. */
  predicate ListedAvailable(st: Store, itemId: int) {
    FindItemById(st, itemId).Some? && IsAvailable(FindItemById(st, itemId).value)
  }

  /* ----------------------------------------------------------- invariant */

  /** Ids are positive, strictly increasing in insertion order and below the
      next id to hand out. */
  ghost predicate UserIdsIncreasing(users: seq<User>, next: int) {
    && (forall i :: 0 <= i < |users| ==> 1 <= users[i].id < next)
    && (forall i, j :: 0 <= i < j < |users| ==> users[i].id < users[j].id)
  }

  ghost predicate ItemIdsIncreasing(items: seq<Item>, next: int) {
    && (forall i :: 0 <= i < |items| ==> 1 <= items[i].id < next)
    && (forall i, j :: 0 <= i < j < |items| ==> items[i].id < items[j].id)
  }

  ghost predicate DistinctEmails(users: seq<User>) {
    forall i, j :: 0 <= i < j < |users| ==> users[i].email != users[j].email
  }

  ghost predicate DistinctLists(users: seq<User>) {
    forall i :: 0 <= i < |users| && users[i].RegularUser? ==>
      NoDuplicates(users[i].cart) && NoDuplicates(users[i].favorites)
  }

  /** What every store reachable through the operations below satisfies. */
  ghost predicate Valid(st: Store) {
    && st.nextUserId >= 1 && st.nextItemId >= 1
    && UserIdsIncreasing(st.users, st.nextUserId)
    && ItemIdsIncreasing(st.items, st.nextItemId)
    && DistinctEmails(st.users)
    && DistinctLists(st.users)
  }

  /** Replacing an account by one with the same id and email and
      duplicate-free lists keeps the store valid. */
  lemma ReplaceUserKeepsValid(st: Store, k: nat, u: User)
    requires Valid(st) && k < |st.users|
    requires u.id == st.users[k].id && u.email == st.users[k].email
    requires u.RegularUser? ==> NoDuplicates(u.cart) && NoDuplicates(u.favorites)
    ensures Valid(st.(users := st.users[k := u]))
  {
  }

  /** Replacing a listing by one with the same id keeps the store valid. */
  lemma ReplaceItemKeepsValid(st: Store, k: nat, it: Item)
    requires Valid(st) && k < |st.items| && it.id == st.items[k].id
    ensures Valid(st.(items := st.items[k := it]))
  {
  }

  /** In a valid store an id names at most one listing, so the lookup finds
      exactly the listing at its position. */
  lemma ItemLookupInValid(st: Store, k: nat)
    requires Valid(st) && k < |st.items|
    ensures ItemIndex(st.items, st.items[k].id) == Some(k)
    ensures FindItemById(st, st.items[k].id) == Some(st.items[k])
  {
  }

  /* -------------------------------------------------------- registration */

  /** The account `registerUser` builds for a role: an administrator keeps
      only id, username, password and email. */
  function NewUser(id: int, username: string, password: string, email: string,
                   phone: string, studentId: string, realName: string, college: string,
                   role: UserRole): (u: User)
    ensures Role(u) == role && u.id == id && u.username == username && u.email == email
    ensures forall p :: PasswordMatches(u, p) <==> p == password
    ensures role == RegularRole ==>
      && u.phone == phone && u.studentId == studentId && u.realName == realName && u.college == college
      && u.published == [] && u.purchased == [] && u.cart == [] && u.favorites == []
    ensures role == AdminRole ==> u.phone == "" && u.studentId == "" && u.realName == "" && u.college == ""
  {
    if role == AdminRole then NewAdmin(id, username, password, email)
    else NewRegularUser(id, username, password, email, phone, studentId, realName, college)
  }

  /** `registerUser`: refused without any change when the email is already
      held (exact comparison); otherwise the account gets the next user id
      and is appended. */
  function RegisterUser(st: Store, username: string, password: string, email: string,
                        phone: string, studentId: string, realName: string, college: string,
                        role: UserRole): (r: (Store, bool))
    ensures (exists i :: 0 <= i < |st.users| && st.users[i].email == email) ==> r == (st, false)
    ensures (forall i :: 0 <= i < |st.users| ==> st.users[i].email != email) ==>
      && r.1
      && r.0.users == st.users + [NewUser(st.nextUserId, username, password, email,
                                          phone, studentId, realName, college, role)]
      && r.0.nextUserId == st.nextUserId + 1
      && r.0.items == st.items && r.0.nextItemId == st.nextItemId
  {
    if FirstIndex(st.users, (u: User) => u.email == email).Some? then (st, false)
    else
      var u := NewUser(st.nextUserId, username, password, email, phone, studentId, realName, college, role);
      (st.(users := st.users + [u], nextUserId := st.nextUserId + 1), true)
  }

  lemma RegisterPreservesValid(st: Store, username: string, password: string, email: string,
                               phone: string, studentId: string, realName: string, college: string,
                               role: UserRole)
    requires Valid(st)
    ensures Valid(RegisterUser(st, username, password, email, phone, studentId, realName, college, role).0)
  {
  }

  /** A successful registration adds exactly one account; a refused one adds
      none (`getUserCount`). */
  lemma RegisterCountsUsers(st: Store, username: string, password: string, email: string,
                            phone: string, studentId: string, realName: string, college: string,
                            role: UserRole)
    ensures var r := RegisterUser(st, username, password, email, phone, studentId, realName, college, role);
      GetUserCount(r.0) == GetUserCount(st) + (if r.1 then 1 else 0)
  {
  }

  /** The construction of the store: the seeded administrator is user 1. */
  function Init(): (st: Store)
    ensures |st.users| == 1 && Role(st.users[0]) == AdminRole && st.users[0].id == 1
    ensures st.users[0] == NewAdmin(1, "admin", "admin123", "admin@nju.edu.cn")
    ensures st.items == [] && st.nextUserId == 2 && st.nextItemId == 1
    ensures Valid(st)
  {
    RegisterUser(Store([], [], 1, 1), "admin", "admin123", "admin@nju.edu.cn", "13921590994",
                 "231240015", "系统管理员", "匡亚明学院", AdminRole).0
  }

  /* --------------------------------------------------------------- login */

  predicate Credentials(u: User, email: string, password: string) {
    u.email == email && PasswordMatches(u, password)
  }

  /** `login`: the first account, in insertion order, whose email and
      password both match; not found otherwise. */
  function Login(st: Store, email: string, password: string): (r: Option<User>)
    ensures r.None? <==> forall i :: 0 <= i < |st.users| ==> !Credentials(st.users[i], email, password)
    ensures r.Some? ==>
      exists i :: (0 <= i < |st.users| && st.users[i] == r.value
                   && Credentials(r.value, email, password)
                   && forall j :: 0 <= j < i ==> !Credentials(st.users[j], email, password))
  {
    match FirstIndex(st.users, (u: User) => Credentials(u, email, password))
    case None => None
    case Some(k) => Some(st.users[k])
  }

  /** With distinct emails, logging in with an account's email yields that
      account exactly when the password is its own. */
  lemma LoginInValid(st: Store, k: nat, password: string)
    requires Valid(st) && k < |st.users|
    ensures Login(st, st.users[k].email, password)
      == if PasswordMatches(st.users[k], password) then Some(st.users[k]) else None
  {
    var email := st.users[k].email;
    forall i | 0 <= i < |st.users| && i != k
      ensures !Credentials(st.users[i], email, password)
    {
      if i < k { assert st.users[i].email != st.users[k].email; }
      else { assert st.users[k].email != st.users[i].email; }
    }
  }

  /** Right after a successful registration the new credentials log in to
      the new account. */
  lemma RegisterThenLogin(st: Store, username: string, password: string, email: string,
                          phone: string, studentId: string, realName: string, college: string,
                          role: UserRole)
    requires RegisterUser(st, username, password, email, phone, studentId, realName, college, role).1
    ensures var st' := RegisterUser(st, username, password, email, phone, studentId, realName, college, role).0;
      Login(st', email, password) == Some(st'.users[|st'.users| - 1])
      && st'.users[|st'.users| - 1].id == st.nextUserId
  {
    var st' := RegisterUser(st, username, password, email, phone, studentId, realName, college, role).0;
    assert forall i :: 0 <= i < |st.users| ==> st.users[i].email != email;
    assert forall i :: 0 <= i < |st.users| ==> st'.users[i] == st.users[i];
  }

  /** The seeded administrator logs in to the fresh store with its own
      credentials and with no other password. */
  lemma InitAdminLogin(password: string)
    ensures Login(Init(), "admin@nju.edu.cn", password)
      == if password == "admin123" then Some(Init().users[0]) else None
  {
    LoginInValid(Init(), 0, password);
  }

  /* ---------------------------------------------------------- publishing */

  /** `publishItem`: always creates an AVAILABLE listing under the next item
      id and returns that id; the id is recorded on the seller's account
      only when the seller is a regular user. */
  function PublishItem(st: Store, name: string, description: string, category: string,
                       price: real, sellerId: int): (r: (Store, int))
    ensures r.1 == st.nextItemId
    ensures r.0.items == st.items + [NewItem(r.1, name, description, category, price, sellerId)]
    ensures r.0.nextItemId == st.nextItemId + 1 && r.0.nextUserId == st.nextUserId
    ensures !IsRegularId(st, sellerId) ==> r.0.users == st.users
    ensures IsRegularId(st, sellerId) ==>
      var k := UserIndex(st.users, sellerId).value;
      r.0.users == st.users[k := st.users[k].(published := st.users[k].published + [r.1])]
  {
    var it := NewItem(st.nextItemId, name, description, category, price, sellerId);
    var users :=
      match UserIndex(st.users, sellerId)
      case Some(k) => if st.users[k].RegularUser? then st.users[k := Users.PublishItem(st.users[k], it)] else st.users
      case None => st.users;
    (Store(users, st.items + [it], st.nextUserId, st.nextItemId + 1), it.id)
  }

  lemma PublishPreservesValid(st: Store, name: string, description: string, category: string,
                              price: real, sellerId: int)
    requires Valid(st)
    ensures Valid(PublishItem(st, name, description, category, price, sellerId).0)
  {
    var r := PublishItem(st, name, description, category, price, sellerId);
    var st1 := st.(items := r.0.items, nextItemId := r.0.nextItemId);
    assert Valid(st1);
    if IsRegularId(st, sellerId) {
      var k := UserIndex(st.users, sellerId).value;
      ReplaceUserKeepsValid(st1, k, r.0.users[k]);
      assert r.0 == st1.(users := st1.users[k := r.0.users[k]]);
    } else {
      assert r.0 == st1;
    }
  }

  /* ------------------------------------------------------------ deletion */

  /** The authorization rule of `deleteItem`: the requester and the listing
      both exist, and the requester is an administrator or the seller. */
  predicate MayDelete(st: Store, itemId: int, requesterId: int) {
    && FindUserById(st, requesterId).Some?
    && FindItemById(st, itemId).Some?
    && (Role(FindUserById(st, requesterId).value) == AdminRole
        || FindItemById(st, itemId).value.sellerId == requesterId)
  }

  /** `deleteItem`: a soft delete. On success only the listing's status
      becomes DELETED, whatever it was (SOLD and DELETED listings included);
      nothing is removed. On refusal nothing changes. */
  function DeleteItem(st: Store, itemId: int, requesterId: int): (r: (Store, bool))
    ensures r.1 <==> MayDelete(st, itemId, requesterId)
    ensures r.1 ==>
      var k := ItemIndex(st.items, itemId).value;
      r.0 == st.(items := st.items[k := SetStatus(st.items[k], Deleted)])
    ensures !r.1 ==> r.0 == st
  {
    match UserIndex(st.users, requesterId)
    case None => (st, false)
    case Some(u) =>
      match ItemIndex(st.items, itemId)
      case None => (st, false)
      case Some(k) =>
        if st.users[u].Admin? || st.items[k].sellerId == requesterId then
          (st.(items := st.items[k := SetStatus(st.items[k], Deleted)]), true)
        else (st, false)
  }

  lemma DeletePreservesValid(st: Store, itemId: int, requesterId: int)
    requires Valid(st)
    ensures Valid(DeleteItem(st, itemId, requesterId).0)
  {
    if DeleteItem(st, itemId, requesterId).1 {
      var k := ItemIndex(st.items, itemId).value;
      ReplaceItemKeepsValid(st, k, SetStatus(st.items[k], Deleted));
    }
  }

  /** After an authorized delete the listing is still found by id and still
      listed by `getAllItems`, now DELETED, and no longer offered by
      `getAvailableItems`; the number of listings is unchanged. */
  lemma DeleteIsSoft(st: Store, itemId: int, requesterId: int)
    requires Valid(st) && MayDelete(st, itemId, requesterId)
    ensures var st' := DeleteItem(st, itemId, requesterId).0;
      && GetItemCount(st') == GetItemCount(st)
      && FindItemById(st', itemId).Some?
      && FindItemById(st', itemId).value.status == Deleted
      && FindItemById(st', itemId).value in GetAllItems(st')
      && FindItemById(st', itemId).value !in GetAvailableItems(st')
  {
    var st' := DeleteItem(st, itemId, requesterId).0;
    var k := ItemIndex(st.items, itemId).value;
    DeletePreservesValid(st, itemId, requesterId);
    ItemLookupInValid(st', k);
  }

  /* ------------------------------------------------------------ purchase */

  /** Position of the first listing with that id that is AVAILABLE. */
  function AvailableIndex(items: seq<Item>, id: int): (r: Option<nat>)
    ensures r.Some? ==> r.value < |items| && items[r.value].id == id && IsAvailable(items[r.value])
    ensures r.Some? ==> forall j :: 0 <= j < r.value ==> !(items[j].id == id && IsAvailable(items[j]))
    ensures r.None? <==> forall j :: 0 <= j < |items| ==> !(items[j].id == id && IsAvailable(items[j]))
  {
    FirstIndex(items, (it: Item) => it.id == id && IsAvailable(it))
  }

  /** `purchaseItem`: succeeds exactly when some listing with that id is
      AVAILABLE. It then becomes SOLD, and the id is recorded on the buyer's
      account when the buyer is a regular user; an unknown buyer does not
      stop the sale. On failure nothing changes. */
  function PurchaseItem(st: Store, itemId: int, buyerId: int): (r: (Store, bool))
    ensures r.1 <==> exists i :: 0 <= i < |st.items| && st.items[i].id == itemId && IsAvailable(st.items[i])
    ensures r.1 ==>
      var k := AvailableIndex(st.items, itemId).value;
      && r.0.items == st.items[k := SetStatus(st.items[k], Sold)]
      && r.0.nextUserId == st.nextUserId && r.0.nextItemId == st.nextItemId
      && (!IsRegularId(st, buyerId) ==> r.0.users == st.users)
      && (IsRegularId(st, buyerId) ==>
            var b := UserIndex(st.users, buyerId).value;
            r.0.users == st.users[b := st.users[b].(purchased := st.users[b].purchased + [itemId])])
    ensures !r.1 ==> r.0 == st
  {
    match AvailableIndex(st.items, itemId)
    case None => (st, false)
    case Some(k) =>
      var items := st.items[k := SetStatus(st.items[k], Sold)];
      var users :=
        match UserIndex(st.users, buyerId)
        case Some(b) =>
          if st.users[b].RegularUser? then st.users[b := AddPurchasedItem(st.users[b], itemId)] else st.users
        case None => st.users;
      (st.(users := users, items := items), true)
  }

  lemma PurchasePreservesValid(st: Store, itemId: int, buyerId: int)
    requires Valid(st)
    ensures Valid(PurchaseItem(st, itemId, buyerId).0)
  {
    var r := PurchaseItem(st, itemId, buyerId);
    if r.1 {
      var k := AvailableIndex(st.items, itemId).value;
      var st1 := st.(items := st.items[k := SetStatus(st.items[k], Sold)]);
      ReplaceItemKeepsValid(st, k, SetStatus(st.items[k], Sold));
      if IsRegularId(st, buyerId) {
        var b := UserIndex(st.users, buyerId).value;
        ReplaceUserKeepsValid(st1, b, r.0.users[b]);
        assert r.0 == st1.(users := st1.users[b := r.0.users[b]]);
      } else {
        assert r.0 == st1;
      }
    }
  }

  /** Once a purchase of an id has gone through, any further purchase of the
      same id fails and changes nothing, whoever the buyer. */
  lemma SecondPurchaseFails(st: Store, itemId: int, buyer1: int, buyer2: int)
    requires Valid(st)
    ensures var st1 := PurchaseItem(st, itemId, buyer1).0;
      PurchaseItem(st, itemId, buyer1).1 ==> PurchaseItem(st1, itemId, buyer2) == (st1, false)
  {
    var r := PurchaseItem(st, itemId, buyer1);
    if r.1 {
      var k := AvailableIndex(st.items, itemId).value;
      forall i | 0 <= i < |r.0.items| && r.0.items[i].id == itemId
        ensures !IsAvailable(r.0.items[i])
      {
      }
    }
  }

  /* ---------------------------------------------------- cart & favourites */

  /** `addToCart`: reports success exactly when the user is a regular user
      and the listing found under the id is AVAILABLE, including when the id
      is already in the cart (which then does not change). Listings never
      change. */
  function AddToCart(st: Store, itemId: int, userId: int): (r: (Store, bool))
    ensures r.1 <==> IsRegularId(st, userId) && ListedAvailable(st, itemId)
    ensures r.1 ==>
      var k := UserIndex(st.users, userId).value;
      r.0 == st.(users := st.users[k := Users.AddToCart(st.users[k], itemId)])
    ensures !r.1 ==> r.0 == st
  {
    match UserIndex(st.users, userId)
    case None => (st, false)
    case Some(k) =>
      match ItemIndex(st.items, itemId)
      case None => (st, false)
      case Some(i) =>
        if IsAvailable(st.items[i]) && st.users[k].RegularUser? then
          (st.(users := st.users[k := Users.AddToCart(st.users[k], itemId)]), true)
        else (st, false)
  }

  /** `removeFromCart`: reports success exactly when the user is a regular
      user, whether or not the id was in the cart. */
  function RemoveFromCart(st: Store, itemId: int, userId: int): (r: (Store, bool))
    ensures r.1 <==> IsRegularId(st, userId)
    ensures r.1 ==>
      var k := UserIndex(st.users, userId).value;
      r.0 == st.(users := st.users[k := Users.RemoveFromCart(st.users[k], itemId)])
    ensures !r.1 ==> r.0 == st
  {
    match UserIndex(st.users, userId)
    case None => (st, false)
    case Some(k) =>
      if st.users[k].RegularUser? then
        (st.(users := st.users[k := Users.RemoveFromCart(st.users[k], itemId)]), true)
      else (st, false)
  }

  /** `addToFavorites`: as `AddToCart`, on the favourites. */
  function AddToFavorites(st: Store, itemId: int, userId: int): (r: (Store, bool))
    ensures r.1 <==> IsRegularId(st, userId) && ListedAvailable(st, itemId)
    ensures r.1 ==>
      var k := UserIndex(st.users, userId).value;
      r.0 == st.(users := st.users[k := Users.AddToFavorites(st.users[k], itemId)])
    ensures !r.1 ==> r.0 == st
  {
    match UserIndex(st.users, userId)
    case None => (st, false)
    case Some(k) =>
      match ItemIndex(st.items, itemId)
      case None => (st, false)
      case Some(i) =>
        if IsAvailable(st.items[i]) && st.users[k].RegularUser? then
          (st.(users := st.users[k := Users.AddToFavorites(st.users[k], itemId)]), true)
        else (st, false)
  }

  /** `removeFromFavorites`: as `RemoveFromCart`, on the favourites. */
  function RemoveFromFavorites(st: Store, itemId: int, userId: int): (r: (Store, bool))
    ensures r.1 <==> IsRegularId(st, userId)
    ensures r.1 ==>
      var k := UserIndex(st.users, userId).value;
      r.0 == st.(users := st.users[k := Users.RemoveFromFavorites(st.users[k], itemId)])
    ensures !r.1 ==> r.0 == st
  {
    match UserIndex(st.users, userId)
    case None => (st, false)
    case Some(k) =>
      if st.users[k].RegularUser? then
        (st.(users := st.users[k := Users.RemoveFromFavorites(st.users[k], itemId)]), true)
      else (st, false)
  }

  lemma ListOperationsPreserveValid(st: Store, itemId: int, userId: int)
    requires Valid(st)
    ensures Valid(AddToCart(st, itemId, userId).0)
    ensures Valid(RemoveFromCart(st, itemId, userId).0)
    ensures Valid(AddToFavorites(st, itemId, userId).0)
    ensures Valid(RemoveFromFavorites(st, itemId, userId).0)
  {
    if IsRegularId(st, userId) {
      var k := UserIndex(st.users, userId).value;
      var u := st.users[k];
      ReplaceUserKeepsValid(st, k, Users.AddToCart(u, itemId));
      ReplaceUserKeepsValid(st, k, Users.RemoveFromCart(u, itemId));
      ReplaceUserKeepsValid(st, k, Users.AddToFavorites(u, itemId));
      ReplaceUserKeepsValid(st, k, Users.RemoveFromFavorites(u, itemId));
    }
  }

  /** Adding the same listing to a cart twice leaves the store as adding it
      once, and both calls report the same outcome. */
  lemma AddToCartTwice(st: Store, itemId: int, userId: int)
    ensures var r := AddToCart(st, itemId, userId);
      AddToCart(r.0, itemId, userId) == r
  {
    var r := AddToCart(st, itemId, userId);
    if r.1 {
      var k := UserIndex(st.users, userId).value;
      var u' := Users.AddToCart(st.users[k], itemId);
      AddToCartIdempotent(st.users[k], itemId);
      assert r.0.users == st.users[k := u'] && r.0.items == st.items;
      assert UserIndex(r.0.users, userId) == Some(k) by {
        assert forall j :: 0 <= j < |st.users| ==> r.0.users[j].id == st.users[j].id;
      }
      assert r.0.users[k := Users.AddToCart(u', itemId)] == r.0.users;
    }
  }

  /* ------------------------------------------------------------- queries */

  function NameHit(keyword: string): Item -> bool {
    it => IsAvailable(it) && Contains(it.name, keyword)
  }

  /** `searchItemsByName`: the AVAILABLE listings whose name contains the
      keyword (case-sensitive), in insertion order. */
  function SearchItemsByName(st: Store, keyword: string): (r: seq<Item>)
    ensures IsOrderedSelection(r, st.items, NameHit(keyword))
    ensures forall it :: it in r <==> it in st.items && IsAvailable(it) && HasSubstring(it.name, keyword)
  {
    FilterIsOrderedSelection(st.items, NameHit(keyword));
    FilterMembershipAll(st.items, NameHit(keyword));
    Filter(st.items, NameHit(keyword))
  }

  /** `searchItemsByCategory`: the AVAILABLE listings of exactly that
      category, in insertion order. */
  function SearchItemsByCategory(st: Store, category: string): (r: seq<Item>)
    ensures IsOrderedSelection(r, st.items, CategoryHit(category))
    ensures forall it :: it in r <==> it in st.items && IsAvailable(it) && it.category == category
  {
    FilterIsOrderedSelection(st.items, CategoryHit(category));
    FilterMembershipAll(st.items, CategoryHit(category));
    Filter(st.items, CategoryHit(category))
  }

  /** The name search is the search engine's text search narrowed to hits
      in the name: the same listings in the same order, less those matched
      only through their description. */
  lemma NameSearchNarrowsTextSearch(st: Store, keyword: string)
    ensures SearchItemsByName(st, keyword) == Filter(TextSearch(st.items, keyword), NameHit(keyword))
  {
    FilterOfFilter(st.items, NameHit(keyword), TextHit(keyword));
  }

  function AvailableHit(): Item -> bool {
    it => IsAvailable(it)
  }

  /** `getAvailableItems`: the AVAILABLE listings, in insertion order. */
  function GetAvailableItems(st: Store): (r: seq<Item>)
    ensures IsOrderedSelection(r, st.items, AvailableHit())
    ensures forall it :: it in r <==> it in st.items && IsAvailable(it)
  {
    FilterIsOrderedSelection(st.items, AvailableHit());
    FilterMembershipAll(st.items, AvailableHit());
    Filter(st.items, AvailableHit())
  }

  /** `getAllItems`: every listing ever published, whatever its status. */
  function GetAllItems(st: Store): seq<Item> {
    st.items
  }

  /** `getUserCount`. */
  function GetUserCount(st: Store): int {
    |st.users|
  }

  /** `getItemCount`: listings of every status. */
  function GetItemCount(st: Store): int {
    |st.items|
  }
}
