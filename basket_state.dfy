/**
 * The web front end's basket state (src/WebApp/Services/BasketState.cs):
 * the basket quantity updates pushed to the basket service, the memoised
 * copy of the basket, and the set of change subscriptions notified after
 * every pushed update.
 *
 * The remote basket service is an object holding the stored basket. A
 * basket line keeps only what the updates use (product and quantity); the
 * catalog details `FetchCoreAsync` adds are not modelled. Awaited tasks are
 * modelled by the values they resolve to.
 */
module WebApp {
  import opened Common

  // ---------------------------------------------------------------------
  // Basket lines and the two list updates
  // ---------------------------------------------------------------------

  datatype BasketQuantity = BasketQuantity(productId: int32, quantity: int32)

  const MaxInt32: int32 := 0x7fff_ffff

  /** `q + 1` on a C# `int` (unchecked): the largest value wraps to the smallest. */
  function Increment(q: int32): (r: int32)
    ensures q < MaxInt32 ==> r == q + 1
    ensures q == MaxInt32 ==> r == -0x8000_0000
  {
    if q == MaxInt32 then -0x8000_0000 else q + 1
  }

  /** The position of the first line for `productId`. */
  function FirstIndex(items: seq<BasketQuantity>, productId: int32): (r: Option<nat>)
    ensures r.Some? ==> r.value < |items| && items[r.value].productId == productId
    ensures forall j :: 0 <= j < |items| && (r.None? || j < r.value) ==> items[j].productId != productId
  {
    if items == [] then None
    else if items[0].productId == productId then Some(0)
    else
      match FirstIndex(items[1..], productId)
      case None => None
      case Some(i) => Some(i + 1)
  }

  /** The lines after adding one of `productId`. */
  function AddOne(items: seq<BasketQuantity>, productId: int32): (r: seq<BasketQuantity>)
    ensures |r| == |items| + (if FirstIndex(items, productId).Some? then 0 else 1)
    ensures forall j :: 0 <= j < |items| ==> r[j].productId == items[j].productId
    ensures forall j :: 0 <= j < |items| && items[j].productId != productId ==> r[j] == items[j]
  {
    match FirstIndex(items, productId)
    case Some(i) => items[i := items[i].(quantity := Increment(items[i].quantity))]
    case None => items + [BasketQuantity(productId, 1)]
  }

  /**
   * The lines after setting `productId` to `quantity`: the first line for
   * it takes the quantity, or is removed when the quantity is not
   * positive; without such a line nothing changes.
   */
  function WithQuantity(items: seq<BasketQuantity>, productId: int32, quantity: int32): (r: seq<BasketQuantity>)
    ensures FirstIndex(items, productId).None? ==> r == items
    ensures |r| == |items| - (if FirstIndex(items, productId).Some? && quantity <= 0 then 1 else 0)
    ensures quantity > 0 ==> forall j :: 0 <= j < |items| ==> r[j].productId == items[j].productId
    ensures forall j :: 0 <= j < |r| ==> r[j] in items || r[j] == BasketQuantity(productId, quantity)
  {
    match FirstIndex(items, productId)
    case None => items
    case Some(i) =>
      if quantity > 0 then items[i := items[i].(quantity := quantity)]
      else items[..i] + items[i + 1..]
  }

  /** The number of units in the basket. */
  function Total(items: seq<BasketQuantity>): int {
    if items == [] then 0 else items[0].quantity + Total(items[1..])
  }

  function ProductIds(items: seq<BasketQuantity>): (r: seq<int32>)
    ensures |r| == |items| && forall j :: 0 <= j < |items| ==> r[j] == items[j].productId
  {
    seq(|items|, j requires 0 <= j < |items| => items[j].productId)
  }

  // ---------------------------------------------------------------------
  // Properties of the list updates
  // ---------------------------------------------------------------------

  lemma {:induction false} TotalConcat(a: seq<BasketQuantity>, b: seq<BasketQuantity>)
    ensures Total(a + b) == Total(a) + Total(b)
  {
    if a != [] {
      assert (a + b)[1..] == a[1..] + b;
      TotalConcat(a[1..], b);
    } else {
      assert a + b == b;
    }
  }

  /** Replacing one line changes the total by the difference of the two quantities. */
  lemma TotalUpdate(items: seq<BasketQuantity>, i: nat, row: BasketQuantity)
    requires i < |items|
    ensures Total(items[i := row]) == Total(items) - items[i].quantity + row.quantity
  {
    assert items == items[..i] + ([items[i]] + items[i + 1..]);
    assert items[i := row] == items[..i] + ([row] + items[i + 1..]);
    TotalConcat(items[..i], [items[i]] + items[i + 1..]);
    TotalConcat(items[..i], [row] + items[i + 1..]);
    TotalConcat([items[i]], items[i + 1..]);
    TotalConcat([row], items[i + 1..]);
  }

  /**
   * Adding a product already in the basket increments only its first line;
   * the number of lines, the products and their order stay the same.
   */
  lemma AddOneExisting(items: seq<BasketQuantity>, productId: int32, i: nat)
    requires FirstIndex(items, productId) == Some(i)
    ensures var r := AddOne(items, productId);
            && |r| == |items|
            && r[i] == BasketQuantity(productId, Increment(items[i].quantity))
            && (forall j :: 0 <= j < |items| && j != i ==> r[j] == items[j])
            && ProductIds(r) == ProductIds(items)
  {
  }

  /** Adding an absent product appends one unit of it after the existing lines. */
  lemma AddOneAbsent(items: seq<BasketQuantity>, productId: int32)
    requires forall j :: 0 <= j < |items| ==> items[j].productId != productId
    ensures AddOne(items, productId) == items + [BasketQuantity(productId, 1)]
    ensures ProductIds(AddOne(items, productId)) == ProductIds(items) + [productId]
  {
    assert FirstIndex(items, productId).None?;
  }

  /** After an add the product is in the basket. */
  lemma AddOneContains(items: seq<BasketQuantity>, productId: int32)
    ensures FirstIndex(AddOne(items, productId), productId).Some?
  {
    var r := AddOne(items, productId);
    match FirstIndex(items, productId)
    case Some(i) =>
      assert r[i].productId == productId;
    case None =>
      assert r[|items|].productId == productId;
  }

  /** An add grows the total by exactly one unit, unless the line's quantity wraps. */
  lemma AddOneTotal(items: seq<BasketQuantity>, productId: int32)
    requires FirstIndex(items, productId).Some? ==> items[FirstIndex(items, productId).value].quantity < MaxInt32
    ensures Total(AddOne(items, productId)) == Total(items) + 1
  {
    match FirstIndex(items, productId)
    case Some(i) =>
      TotalUpdate(items, i, items[i].(quantity := Increment(items[i].quantity)));
    case None =>
      TotalConcat(items, [BasketQuantity(productId, 1)]);
  }

  /** Setting a quantity for an absent product changes nothing. */
  lemma WithQuantityAbsent(items: seq<BasketQuantity>, productId: int32, quantity: int32)
    requires forall j :: 0 <= j < |items| ==> items[j].productId != productId
    ensures WithQuantity(items, productId, quantity) == items
  {
    assert FirstIndex(items, productId).None?;
  }

  /**
   * A positive quantity lands on the product's first line and nowhere
   * else; the total changes by the difference.
   */
  lemma WithQuantitySet(items: seq<BasketQuantity>, productId: int32, quantity: int32, i: nat)
    requires FirstIndex(items, productId) == Some(i) && quantity > 0
    ensures var r := WithQuantity(items, productId, quantity);
            && |r| == |items|
            && r[i] == BasketQuantity(productId, quantity)
            && (forall j :: 0 <= j < |items| && j != i ==> r[j] == items[j])
            && FirstIndex(r, productId) == Some(i)
            && Total(r) == Total(items) - items[i].quantity + quantity
  {
    var r := WithQuantity(items, productId, quantity);
    TotalUpdate(items, i, items[i].(quantity := quantity));
    assert forall j :: 0 <= j < i ==> r[j].productId != productId;
  }

  /**
   * A quantity of zero or less removes the product's first line; the
   * lines before it and after it keep their order, and its units leave
   * the total.
   */
  lemma WithQuantityRemove(items: seq<BasketQuantity>, productId: int32, quantity: int32, i: nat)
    requires FirstIndex(items, productId) == Some(i) && quantity <= 0
    ensures var r := WithQuantity(items, productId, quantity);
            && |r| == |items| - 1
            && (forall j :: 0 <= j < i ==> r[j] == items[j])
            && (forall j :: i <= j < |r| ==> r[j] == items[j + 1])
            && Total(r) == Total(items) - items[i].quantity
  {
    assert items == items[..i] + ([items[i]] + items[i + 1..]);
    TotalConcat(items[..i], [items[i]] + items[i + 1..]);
    TotalConcat([items[i]], items[i + 1..]);
    TotalConcat(items[..i], items[i + 1..]);
  }

  // ---------------------------------------------------------------------
  // The services and the state object
  // ---------------------------------------------------------------------

  /** The remote basket, as `GetBasketAsync`, `UpdateBasketAsync` and `DeleteBasketAsync` see it. */
  class BasketService {
    var basket: seq<BasketQuantity>

    constructor (basket: seq<BasketQuantity>)
      ensures this.basket == basket
    {
      this.basket := basket;
    }

    method GetBasket() returns (r: seq<BasketQuantity>)
      ensures r == basket
    {
      r := basket;
    }

    method UpdateBasket(items: seq<BasketQuantity>)
      modifies this
      ensures basket == items
    {
      basket := items;
    }

    method DeleteBasket()
      modifies this
      ensures basket == []
    {
      basket := [];
    }
  }

  /** `BasketStateChangedSubscription`: a callback registered with its owner. */
  class Subscription {
    const owner: BasketState
    /** The `EventCallback`, identified by a number. */
    const callback: int

    constructor (owner: BasketState, callback: int)
      ensures this.owner == owner && this.callback == callback
    {
      this.owner := owner;
      this.callback := callback;
    }

    /** `Dispose`: the owner forgets this subscription and no other. */
    method Dispose()
      modifies owner
      ensures owner.subscriptions == old(owner.subscriptions) - {this}
      ensures owner.cachedBasket == old(owner.cachedBasket) && owner.notified == old(owner.notified)
    {
      owner.subscriptions := owner.subscriptions - {this};
    }
  }

  class BasketState {
    const basketService: BasketService
    /** `_cachedBasket`: `None` for null, else the basket it resolves to. */
    var cachedBasket: Option<seq<BasketQuantity>>
    /** `_changeSubscriptions`. */
    var subscriptions: set<Subscription>
    /** One entry per `NotifyChangeSubscribersAsync`: the subscriptions whose callbacks it invoked. */
    var notified: seq<set<Subscription>>

    constructor (basketService: BasketService)
      ensures this.basketService == basketService
      ensures cachedBasket.None? && subscriptions == {} && notified == []
    {
      this.basketService := basketService;
      cachedBasket := None;
      subscriptions := {};
      notified := [];
    }

    /** The basket the next fetch answers: the memoised one, or else the service's. */
    function Current(): seq<BasketQuantity>
      reads this, basketService
    {
      cachedBasket.GetOr(basketService.basket)
    }

    /** `NotifyOnChange`: a new subscription joins the set and is returned. */
    method NotifyOnChange(callback: int) returns (s: Subscription)
      modifies this
      ensures fresh(s) && s.owner == this && s.callback == callback
      ensures subscriptions == old(subscriptions) + {s}
      ensures cachedBasket == old(cachedBasket) && notified == old(notified)
    {
      s := new Subscription(this, callback);
      subscriptions := subscriptions + {s};
    }

    /** `NotifyChangeSubscribersAsync`: every current subscription's callback is invoked. */
    method NotifyChangeSubscribers()
      modifies this
      ensures notified == old(notified) + [subscriptions]
      ensures subscriptions == old(subscriptions) && cachedBasket == old(cachedBasket)
    {
      notified := notified + [subscriptions];
    }

    /**
     * `FetchBasketItemsAsync`: the memoised basket when there is one;
     * otherwise the service's basket, which is memoised.
     */
    method FetchBasketItems() returns (items: seq<BasketQuantity>)
      modifies this
      ensures items == old(Current())
      ensures cachedBasket == Some(items)
      ensures subscriptions == old(subscriptions) && notified == old(notified)
    {
      if cachedBasket.None? {
        var quantities := basketService.GetBasket();
        cachedBasket := Some(quantities);
      }
      items := cachedBasket.value;
    }

    /** `GetBasketItemsAsync`: an anonymous user sees an empty basket and nothing is fetched. */
    method GetBasketItems(isAuthenticated: bool) returns (items: seq<BasketQuantity>)
      modifies this
      ensures isAuthenticated ==> items == old(Current()) && cachedBasket == Some(items)
      ensures !isAuthenticated ==> items == [] && cachedBasket == old(cachedBasket)
      ensures subscriptions == old(subscriptions) && notified == old(notified)
    {
      if isAuthenticated {
        items := FetchBasketItems();
      } else {
        items := [];
      }
    }

    /** `DeleteBasketAsync`: the service's basket is emptied; the memoised basket is kept. */
    method DeleteBasket()
      modifies basketService
      ensures basketService.basket == []
    {
      basketService.DeleteBasket();
    }

    /**
     * `AddAsync`: one more unit of `productId`; the updated basket is
     * pushed to the service, the memoised copy dropped, and every
     * subscriber notified.
     */
    method Add(productId: int32)
      modifies this, basketService
      ensures basketService.basket == AddOne(old(Current()), productId)
      ensures cachedBasket.None?
      ensures subscriptions == old(subscriptions) && notified == old(notified) + [subscriptions]
    {
      var items := FetchBasketItems();
      ghost var fetched := items;
      var found := false;
      var i := 0;
      while i < |items|
        invariant 0 <= i <= |items|
        invariant items == fetched && !found
        invariant forall j :: 0 <= j < i ==> fetched[j].productId != productId
        decreases |items| - i
      {
        var existing := items[i];
        if existing.productId == productId {
          items := items[i := existing.(quantity := Increment(existing.quantity))];
          found := true;
          assert FirstIndex(fetched, productId) == Some(i);
          break;
        }
        i := i + 1;
      }
      if !found {
        items := items + [BasketQuantity(productId, 1)];
      }
      cachedBasket := None;
      basketService.UpdateBasket(items);
      NotifyChangeSubscribers();
    }

    /**
     * `SetQuantityAsync`: when the basket holds `productId`, its first line
     * takes `quantity` (or goes when `quantity <= 0`), and the basket is
     * pushed, the memoised copy dropped and every subscriber notified;
     * otherwise nothing is pushed and no one is notified, though the
     * fetched basket stays memoised.
     */
    method SetQuantity(productId: int32, quantity: int32)
      modifies this, basketService
      ensures FirstIndex(old(Current()), productId).None? ==>
                && basketService.basket == old(basketService.basket)
                && cachedBasket == Some(old(Current()))
                && notified == old(notified)
      ensures FirstIndex(old(Current()), productId).Some? ==>
                && basketService.basket == WithQuantity(old(Current()), productId, quantity)
                && cachedBasket.None?
                && notified == old(notified) + [subscriptions]
      ensures subscriptions == old(subscriptions)
    {
      var existingItems := FetchBasketItems();
      var row := FirstIndex(existingItems, productId);
      if row.Some? {
        var i := row.value;
        if quantity > 0 {
          existingItems := existingItems[i := existingItems[i].(quantity := quantity)];
        } else {
          existingItems := existingItems[..i] + existingItems[i + 1..];
        }
        cachedBasket := None;
        basketService.UpdateBasket(existingItems);
        NotifyChangeSubscribers();
      }
    }
  }

  // ---------------------------------------------------------------------
  // Scenarios
  // ---------------------------------------------------------------------

  /** Subscribing and then disposing the subscription leaves the set as it was. */
  method SubscribeThenDispose(state: BasketState, callback: int)
    modifies state
    ensures state.subscriptions == old(state.subscriptions)
  {
    var s := state.NotifyOnChange(callback);
    s.Dispose();
  }

  /**
   * The memoised basket is reused: a second fetch answers the first
   * fetch's basket even when the service's basket changed in between.
   */
  method FetchIsMemoised(state: BasketState, other: seq<BasketQuantity>) returns (first: seq<BasketQuantity>, second: seq<BasketQuantity>)
    modifies state, state.basketService
    ensures first == second
  {
    first := state.FetchBasketItems();
    state.basketService.UpdateBasket(other);
    second := state.FetchBasketItems();
  }

  /**
   * An add drops the memoised basket, so the next fetch reads the basket
   * just pushed.
   */
  method FetchAfterAdd(state: BasketState, productId: int32) returns (after: seq<BasketQuantity>)
    modifies state, state.basketService
    ensures after == AddOne(old(state.Current()), productId)
  {
    state.Add(productId);
    after := state.FetchBasketItems();
  }

  /**
   * Deleting the basket does not drop the memoised copy: once the basket
   * has been fetched, a fetch after the delete still answers the old lines.
   */
  method FetchAfterDelete(state: BasketState) returns (before: seq<BasketQuantity>, after: seq<BasketQuantity>)
    modifies state, state.basketService
    ensures after == before && state.basketService.basket == []
  {
    before := state.FetchBasketItems();
    state.DeleteBasket();
    after := state.FetchBasketItems();
  }
}
