# Campus trading platform — a Dafny model

This project models the core of a campus second-hand marketplace. The core is
an in-memory store (`TradingPlatform`) that keeps two things:

- user accounts: regular users and administrators;
- item listings, each AVAILABLE, SOLD or DELETED.

It also models the store's operations (registration, login, publishing,
soft deletion, purchase, cart and favourites, read-only queries) and a
stateless search module that filters and sorts snapshots of listings.

The store is an immutable value. Each operation is a pure function that
returns the new store together with the reply the C++ method returns:

- a `bool`;
- an id;
- an account, or `None` where the C++ code returns `nullptr`.

`shared_ptr` handles and `Item*` handles become lookups by id. An account change
is a replacement at the account's position.

Modules, one per source file plus two helpers:

| module | file | models |
|---|---|---|
| `Wrappers` | wrappers.dfy | `Option`, the "not found" result |
| `Seqs` | seqs.dfy | first-match search, order-preserving filter and its characterisation, add-if-absent and remove-first-occurrence lists, substring search |
| `Items` | items.dfy | src/Item.cpp |
| `Users` | users.dfy | src/User.cpp |
| `SearchEngine` | search_engine.dfy | src/SearchEngine.cpp |
| `Platform` | platform.dfy | src/Platform.cpp |
| `Runs` | runs.dfy | arbitrary sequences of store operations |

The store invariant `Platform.Valid` says:

- user ids and item ids are positive, strictly increasing, and below their counters;
- account emails are distinct;
- every regular user's cart and favourites are duplicate-free.

Every operation preserves `Valid`. `Runs.PurchaseAtMostOnce` proves that,
along any run from a valid store, each listing is sold at most once.

Details of the code that the model keeps:

- `addToCart` and `addToFavorites` report success even when the id is
  already in the list.
- The price sorts use `std::sort`, which is not stable. The model promises
  only sortedness and permutation, and
  `SearchEngine.SortedPermutationsAgreeOnPrices` shows that every such result
  has the same price sequence.
- `deleteItem` does not check the listing's status. It turns SOLD listings
  into DELETED ones, and succeeds again on a listing that is already DELETED.
- `purchaseItem` succeeds when the buyer id is unknown. It succeeds when the
  buyer is an administrator too. In both cases it only marks the listing
  SOLD.

## Model

| member | source | states |
|---|---|---|
| `Items.NewItem` | src/Item.cpp:6-7 | a new listing is AVAILABLE and carries the given id, name, description, category, price and seller |
| `Items.SetStatus` | src/Item.cpp:25 | the status becomes the given one and no other field changes |
| `Items.UpdateInfo` | src/Item.cpp:27-32 | name, description, category and price are replaced; id, seller and status are kept |
| `Items.SetStatusDecidesAvailability` | src/Item.cpp:53 | after setting a status, the listing is available exactly when that status is AVAILABLE |
| `Items.UpdateInfoKeepsAvailability` | src/Item.cpp:27-32 | editing a listing never changes whether it is available |
| `Users.NewRegularUser` | src/User.cpp:33-34 | a regular account has the regular role, the given profile and four empty lists |
| `Users.NewAdmin` | src/User.cpp:100-101 | an administrator keeps id, username, password and email; phone, student id, real name and college are empty |
| `Users.ResetPassword` | src/User.cpp:13-19 | afterwards the new password and no other is accepted by the login check; nothing else changes |
| `Users.PublishItem` | src/User.cpp:36-38 | the listing's id is appended to the published list with no duplicate check; only that list changes |
| `Users.AddPurchasedItem` | src/User.cpp:44-46 | the id is appended to the purchased list with no duplicate check; only that list changes |
| `Users.AddToCart` | src/User.cpp:48-58 | a present id leaves the account unchanged; an absent one is appended; a duplicate-free cart stays duplicate-free; only the cart changes |
| `Users.RemoveFromCart` | src/User.cpp:60-68 | the first occurrence is erased and the rest keep their order; an absent id changes nothing; in a duplicate-free cart the id is gone afterwards |
| `Users.AddToFavorites` | src/User.cpp:70-80 | as for the cart, on the favourites |
| `Users.RemoveFromFavorites` | src/User.cpp:82-90 | as for the cart, on the favourites |
| `Users.AddToCartIdempotent` | src/User.cpp:48-58 | adding the same id twice is the same as adding it once |
| `Users.RemoveFromCartUndoesAdd` | src/User.cpp:48-68 | removing an id just added to a cart that lacked it restores the account |
| `Users.RemoveFromFavoritesUndoesAdd` | src/User.cpp:70-90 | the same round trip on the favourites |
| `Seqs.Contains` | src/SearchEngine.cpp:27-29 | the `find(keyword) != npos` test holds exactly when the keyword occurs at some position of the text |
| `Seqs.EmptyKeywordAlwaysFound` | src/Platform.cpp:67 | the empty keyword occurs in every text, so an empty name search matches every available listing |
| `Seqs.FilterIsOrderedSelection` | src/SearchEngine.cpp:51-62 | a filtering loop's result consists of exactly the qualifying elements, each taken from an increasing input position |
| `Seqs.OrderedSelectionIsFilter` | src/SearchEngine.cpp:51-62 | conversely, any order-preserving selection of exactly the qualifying elements is that filter's result |
| `Seqs.FilterMembership` | src/Platform.cpp:84-92 | an element is in a filtered result exactly when it is in the input and qualifies |
| `Seqs.FilterOfFilter` | src/Platform.cpp:64-72 | filtering by a weaker then a stronger test is filtering by the stronger one |
| `SearchEngine.DefaultCriteria` | src/SearchEngine.cpp:7 | default criteria: no keyword, no category, price window [0, 1000000], no sorting |
| `SearchEngine.SortByPrice` | src/SearchEngine.cpp:75-86 | the result (ascending unless asked otherwise) is a permutation of all input listings, whatever their status, sorted ascending or descending by price |
| `SearchEngine.SortedPermutationsAgreeOnPrices` | src/SearchEngine.cpp:78-84 | any two price-sorted permutations of the same listings have the same price sequence; an unstable sort can differ only in the order of equal prices |
| `SearchEngine.SortAsRequested` | src/SearchEngine.cpp:40-46 | the filtered listings are rearranged, not changed; sorted ascending for "price_asc", descending for "price_desc", and left in order for any other request |
| `SearchEngine.Apply` | src/SearchEngine.cpp:17-49 | every result is available and within the price window, matches a non-empty keyword and category; every qualifying listing is kept with its multiplicity; sorted per `sortBy`; otherwise the order-preserving selection of qualifying listings |
| `SearchEngine.TextSearch` | src/SearchEngine.cpp:51-62 | the available listings whose name or description contains the keyword, in input order |
| `SearchEngine.CategorySearch` | src/SearchEngine.cpp:64-73 | the available listings of exactly that category, in input order |
| `SearchEngine.DefaultCriteriaKeepAffordable` | src/SearchEngine.cpp:7-25 | with default criteria, a listing is in the result exactly when it is in the input, available and priced within [0, 1000000], and the result keeps input order |
| `Platform.UserIndex` | src/Platform.cpp:178-185 | the position of the first account with that id, or none exactly when no account has it |
| `Platform.FindUserById` | src/Platform.cpp:178-185 | the account found has that id and is stored; not found exactly when no stored account has the id |
| `Platform.ItemIndex` | src/Platform.cpp:50-52 | the position of the first listing with that id, or none exactly when no listing has it |
| `Platform.FindItemById` | src/Platform.cpp:187-194 | the listing found has that id and is stored; not found exactly when no stored listing has the id |
| `Platform.Init` | src/Platform.cpp:7-9 | exactly one account, the administrator built by `Users.NewAdmin` with id 1, username "admin", password "admin123" and email "admin@nju.edu.cn", so the phone, student id, real name and college passed in are dropped; no listings; next ids 2 and 1; the invariant holds |
| `Platform.InitAdminLogin` | src/Platform.cpp:7-9 | in the fresh store the seeded administrator's email logs in with "admin123" and with no other password |
| `Platform.NewUser` | src/Platform.cpp:17-22 | the account built for a role has that role, id, name, email and password; a regular one has the profile and empty lists, an administrator empty extras |
| `Platform.RegisterUser` | src/Platform.cpp:11-25 | a held email is refused with no change; otherwise one account with the old next user id is appended and the counter advances; listings untouched |
| `Platform.RegisterPreservesValid` | src/Platform.cpp:11-25 | registration keeps ids increasing and emails distinct |
| `Platform.RegisterCountsUsers` | src/Platform.cpp:98-100 | the user count grows by one on success and not at all on refusal |
| `Platform.Login` | src/Platform.cpp:27-34 | the first account in insertion order whose email and password both match, or none exactly when no account matches |
| `Platform.LoginInValid` | src/Platform.cpp:27-34 | with distinct emails, an account's email logs in to that account exactly when the password is its own |
| `Platform.RegisterThenLogin` | src/Platform.cpp:11-34 | right after a successful registration, its email and password log in to the new account, which has the old next user id |
| `Platform.PublishItem` | src/Platform.cpp:36-44 | returns the old next item id, appends one available listing with the given fields and advances the counter; the seller's published list grows iff the seller is a regular user |
| `Platform.PublishPreservesValid` | src/Platform.cpp:36-44 | publishing keeps item ids increasing and below the counter |
| `Platform.DeleteItem` | src/Platform.cpp:46-61 | succeeds iff requester and listing exist and the requester is an administrator or the seller; then only that listing's status becomes DELETED, whatever it was; otherwise nothing changes |
| `Platform.DeletePreservesValid` | src/Platform.cpp:46-61 | deletion keeps the invariant |
| `Platform.DeleteIsSoft` | src/Platform.cpp:46-104 | after an authorized delete the listing is still found, now DELETED, still in all items and the item count, and absent from the available items |
| `Platform.AvailableIndex` | src/Platform.cpp:107-109 | the first listing with that id that is available, or none exactly when there is none |
| `Platform.PurchaseItem` | src/Platform.cpp:106-120 | succeeds iff a listing with the id is available; that listing becomes SOLD; the buyer's purchased list grows iff the buyer is a regular user; on failure nothing changes |
| `Platform.PurchasePreservesValid` | src/Platform.cpp:106-120 | a purchase keeps the invariant |
| `Platform.SecondPurchaseFails` | src/Platform.cpp:106-120 | after a successful purchase, buying the same id again fails and changes nothing, whoever buys |
| `Platform.AddToCart` | src/Platform.cpp:122-136 | succeeds iff the user is a regular user and the listing found under the id is available, even if already in the cart; the user's cart is updated and no listing changes |
| `Platform.RemoveFromCart` | src/Platform.cpp:138-148 | succeeds iff the user is a regular user, whether or not the id was in the cart; no listing changes |
| `Platform.AddToFavorites` | src/Platform.cpp:150-164 | as for the cart, on the favourites |
| `Platform.RemoveFromFavorites` | src/Platform.cpp:166-176 | as for the cart, on the favourites |
| `Platform.ListOperationsPreserveValid` | src/Platform.cpp:122-176 | cart and favourite operations keep the lists duplicate-free and the rest of the invariant |
| `Platform.AddToCartTwice` | src/Platform.cpp:122-136 | adding the same listing to a cart twice gives the same store and reply as adding it once |
| `Platform.SearchItemsByName` | src/Platform.cpp:64-72 | the available listings whose name contains the keyword, in insertion order |
| `Platform.NameSearchNarrowsTextSearch` | src/Platform.cpp:64-72 | the name search is the search engine's text search narrowed to name hits |
| `Platform.SearchItemsByCategory` | src/Platform.cpp:74-82 | the available listings of exactly that category, in insertion order |
| `Platform.GetAvailableItems` | src/Platform.cpp:84-92 | the available listings, in insertion order |
| `Runs.StepPreservesValid` | src/Platform.cpp:11-176 | every store operation keeps the invariant |
| `Runs.RunPreservesValid` | src/Platform.cpp:11-176 | any sequence of operations from a valid store ends in a valid store |
| `Runs.RunKeepsListings` | src/Platform.cpp:36-120 | no run removes a listing or changes anything about it but its status |
| `Runs.StepKeepsUnsellable` | src/Platform.cpp:106-120 | once no listing with an id that has been handed out is available, no operation makes one available |
| `Runs.PurchaseEndsSale` | src/Platform.cpp:106-120 | a successful purchase needs a sellable id and leaves it unsellable |
| `Runs.PurchaseAtMostOnce` | src/Platform.cpp:106-120 | along any run from a valid store, at most one purchase of an id succeeds, and none if the id was no longer sellable at the start |

## Left out

- src/main.cpp is not part of this model. It holds the interactive console menus, input parsing and retry loops. Its direct writes to profile fields bypass the store.
- Console output is not modelled. This covers the messages printed by the list operations and the `displayInfo` and `displayProfile` renderers. Only the state effect of each operation is modelled.
- An item's `publishDate` is not modelled, because it is read from the wall clock. The image list is never used and is not modelled either.
- Prices are exact `real` numbers. The code compares `double`s only with `<`, `>` and `==`, so NaN and rounding behaviour are not modelled.
- Ids and counters are unbounded integers. The 32-bit `int` overflow of `nextUserId`, `nextItemId` and the counts is not modelled.
- Aliasing through `shared_ptr` is not modelled. Lookups return copies, and every change goes through the store operations.
- The `SearchType` enum is never used and is not modelled.
- The `SearchCriteria` setters are Dafny record updates (`c.(keyword := k)`) and get no members of their own.
- The getters of `Item` and `User`, and `getPublishedItems`, are datatype field selectors, except `User::getRole`, which is `Users.Role` and is read off the account's variant.
- `Items.IsAvailable` (`Item::isAvailable`, src/Item.cpp:53), `Users.PasswordMatches` (`User::login`, src/User.cpp:13-15) and `Users.Role` (`User::getRole`, src/User.cpp:11) are one-line definitions with no contract of their own. `Items.SetStatusDecidesAvailability`, `Users.ResetPassword`, `Users.NewRegularUser` and `Users.NewAdmin` state what they return.
- `Platform.GetAllItems`, `Platform.GetUserCount` and `Platform.GetItemCount` return a field or a length and carry no contract of their own. `Platform.DeleteIsSoft` and `Platform.RegisterCountsUsers` state what they return.
- `SearchEngine.SortByPrice`: an insertion sort stands in for `std::sort`. The contract promises only a price-sorted permutation, and it says nothing about the order of listings with equal prices, because `std::sort` does not fix that order either. The insertion sort itself happens to be stable, and no property of the model relies on unfolding it.
- Strings are sequences of characters compared exactly. Byte encodings and locale are not modelled.
