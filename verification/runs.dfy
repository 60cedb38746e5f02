/** Sequences of store operations, as a session of the console front end
    would issue them, and the properties that hold along any such run. */
module Runs {
  import opened Items
  import Users
  import opened Platform

  /** One mutating request to the store. */
  datatype Op =
    | Register(username: string, password: string, email: string, phone: string,
               studentId: string, realName: string, college: string, role: Users.UserRole)
    | Publish(name: string, description: string, category: string, price: real, sellerId: int)
    | Delete(itemId: int, requesterId: int)
    | Purchase(itemId: int, buyerId: int)
    | CartAdd(itemId: int, userId: int)
    | CartRemove(itemId: int, userId: int)
    | FavoriteAdd(itemId: int, userId: int)
    | FavoriteRemove(itemId: int, userId: int)

  /** The store after one request, and whether the request succeeded
      (publishing always does). */
  function Step(st: Store, op: Op): (Store, bool) {
    match op
    case Register(n, pw, e, ph, sid, rn, col, role) => RegisterUser(st, n, pw, e, ph, sid, rn, col, role)
    case Publish(n, d, c, pr, s) => (PublishItem(st, n, d, c, pr, s).0, true)
    case Delete(i, u) => DeleteItem(st, i, u)
    case Purchase(i, u) => PurchaseItem(st, i, u)
    case CartAdd(i, u) => AddToCart(st, i, u)
    case CartRemove(i, u) => RemoveFromCart(st, i, u)
    case FavoriteAdd(i, u) => AddToFavorites(st, i, u)
    case FavoriteRemove(i, u) => RemoveFromFavorites(st, i, u)
  }

  function Run(st: Store, ops: seq<Op>): Store
    decreases |ops|
  {
    if |ops| == 0 then st else Run(Step(st, ops[0]).0, ops[1..])
  }

  /** How many purchases of `itemId` succeed along the run. */
  function PurchasesOf(st: Store, ops: seq<Op>, itemId: int): nat
    decreases |ops|
  {
    if |ops| == 0 then 0
    else
      var r := Step(st, ops[0]);
      (if ops[0].Purchase? && ops[0].itemId == itemId && r.1 then 1 else 0)
      + PurchasesOf(r.0, ops[1..], itemId)
  }

  lemma StepPreservesValid(st: Store, op: Op)
    requires Valid(st)
    ensures Valid(Step(st, op).0)
  {
    match op
    case Register(n, pw, e, ph, sid, rn, col, role) => RegisterPreservesValid(st, n, pw, e, ph, sid, rn, col, role);
    case Publish(n, d, c, pr, s) => PublishPreservesValid(st, n, d, c, pr, s);
    case Delete(i, u) => DeletePreservesValid(st, i, u);
    case Purchase(i, u) => PurchasePreservesValid(st, i, u);
    case CartAdd(i, u) => ListOperationsPreserveValid(st, i, u);
    case CartRemove(i, u) => ListOperationsPreserveValid(st, i, u);
    case FavoriteAdd(i, u) => ListOperationsPreserveValid(st, i, u);
    case FavoriteRemove(i, u) => ListOperationsPreserveValid(st, i, u);
  }

  lemma {:induction false} RunPreservesValid(st: Store, ops: seq<Op>)
    requires Valid(st)
    ensures Valid(Run(st, ops))
    decreases |ops|
  {
    if |ops| > 0 {
      StepPreservesValid(st, ops[0]);
      RunPreservesValid(Step(st, ops[0]).0, ops[1..]);
    }
  }

  /** `before` grows into `after` only by appending listings and changing
      the status of existing ones. */
  ghost predicate ListingsKept(before: seq<Item>, after: seq<Item>) {
    && |before| <= |after|
    && forall i :: 0 <= i < |before| ==> after[i].(status := before[i].status) == before[i]
  }

  lemma StepKeepsListings(st: Store, op: Op)
    ensures ListingsKept(st.items, Step(st, op).0.items)
  {
  }

  /** No run ever removes a listing or changes anything about it but its
      status: deletion is soft. */
  lemma {:induction false} RunKeepsListings(st: Store, ops: seq<Op>)
    ensures ListingsKept(st.items, Run(st, ops).items)
    decreases |ops|
  {
    if |ops| > 0 {
      var st1 := Step(st, ops[0]).0;
      StepKeepsListings(st, ops[0]);
      RunKeepsListings(st1, ops[1..]);
      var after := Run(st, ops).items;
      assert after == Run(st1, ops[1..]).items;
      forall i | 0 <= i < |st.items|
        ensures after[i].(status := st.items[i].status) == st.items[i]
      {
        assert after[i].(status := st1.items[i].status) == st1.items[i];
        assert st1.items[i].(status := st.items[i].status) == st.items[i];
      }
    }
  }

  /** Some future or present purchase of `itemId` could still succeed: the
      id has not been handed out yet, or a listing with it is AVAILABLE. */
  ghost predicate Sellable(st: Store, itemId: int) {
    itemId >= st.nextItemId
    || exists i :: 0 <= i < |st.items| && st.items[i].id == itemId && IsAvailable(st.items[i])
  }

  /** Nothing makes a listing AVAILABLE again once it is not. */
  lemma StepKeepsUnsellable(st: Store, op: Op, itemId: int)
    requires Valid(st) && !Sellable(st, itemId)
    ensures !Sellable(Step(st, op).0, itemId)
  {
    var st' := Step(st, op).0;
    assert st'.nextItemId >= st.nextItemId;
    forall i | 0 <= i < |st'.items| && st'.items[i].id == itemId
      ensures !IsAvailable(st'.items[i])
    {
      if i < |st.items| {
        assert !IsAvailable(st.items[i]);
      }
    }
  }

  /** A successful purchase of `itemId` leaves it unsellable. */
  lemma PurchaseEndsSale(st: Store, itemId: int, buyerId: int)
    requires Valid(st) && PurchaseItem(st, itemId, buyerId).1
    ensures Sellable(st, itemId)
    ensures !Sellable(PurchaseItem(st, itemId, buyerId).0, itemId)
  {
    var st' := PurchaseItem(st, itemId, buyerId).0;
    var k := AvailableIndex(st.items, itemId).value;
    forall i | 0 <= i < |st'.items| && st'.items[i].id == itemId
      ensures !IsAvailable(st'.items[i])
    {
    }
  }

  /** Along any run from a valid store, each listing is sold at most once,
      and never if it was no longer sellable at the start. */
  lemma {:induction false} PurchaseAtMostOnce(st: Store, ops: seq<Op>, itemId: int)
    requires Valid(st)
    ensures PurchasesOf(st, ops, itemId) <= 1
    ensures !Sellable(st, itemId) ==> PurchasesOf(st, ops, itemId) == 0
    decreases |ops|
  {
    if |ops| > 0 {
      var r := Step(st, ops[0]);
      StepPreservesValid(st, ops[0]);
      PurchaseAtMostOnce(r.0, ops[1..], itemId);
      if ops[0].Purchase? && ops[0].itemId == itemId && r.1 {
        PurchaseEndsSale(st, itemId, ops[0].buyerId);
      } else if !Sellable(st, itemId) {
        StepKeepsUnsellable(st, ops[0], itemId);
      }
    }
  }
}
