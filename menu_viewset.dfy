/**
 * The menu endpoints' own actions: publishing a menu (only once it has meal
 * options) and listing a menu's orders.
 */
module MenuViewSet {
  import opened Models
  import opened Seqs

  datatype PublishResponse = PublishMenuNotFound | Published | NotModified

  function PublishStatusCode(response: PublishResponse): nat {
    match response
    case PublishMenuNotFound => 404
    case Published => 200
    case NotModified => 304
  }

  /** The meal options of a menu, in table order. */
  function MealOptionsOf(t: Tables, uuid: Uuid): seq<MenuOption> {
    Filter(t.mealOptions, (o: MenuOption) => o.menu == uuid)
  }

  /** What `publish` answers and the tables it leaves. */
  function PublishMenu(t: Tables, uuid: Uuid): (PublishResponse, Tables) {
    if uuid !in t.menus then (PublishMenuNotFound, t)
    else if |MealOptionsOf(t, uuid)| > 0 then
      (Published, t.(menus := t.menus[uuid := t.menus[uuid].(isPublished := true)]))
    else (NotModified, t)
  }

  method Publish(db: Database, uuid: Uuid) returns (response: PublishResponse)
    modifies db
    ensures (response, db.Snapshot()) == PublishMenu(old(db.Snapshot()), uuid)
  {
    if uuid !in db.menus {
      return PublishMenuNotFound;
    }
    var menu := db.menus[uuid];
    if |Filter(db.mealOptions, (o: MenuOption) => o.menu == uuid)| > 0 {
      menu := menu.(isPublished := true);
      db.menus := db.menus[uuid := menu];
      response := Published;
    } else {
      response := NotModified;
    }
  }

  /** An existing menu is published (200) exactly when some meal option belongs to it;
      otherwise it answers 304 and its flag keeps its value. */
  lemma {:induction false} PublishNeedsAnOption(t: Tables, uuid: Uuid)
    requires uuid in t.menus
    ensures var (response, t') := PublishMenu(t, uuid);
      && (response == Published <==> exists o :: o in t.mealOptions && o.menu == uuid)
      && (response == Published ==> PublishStatusCode(response) == 200 && t'.menus[uuid].isPublished)
      && (response == NotModified ==> PublishStatusCode(response) == 304 && t' == t)
  {
    var options := MealOptionsOf(t, uuid);
    FilterMembers(t.mealOptions, (o: MenuOption) => o.menu == uuid);
    if |options| > 0 {
      assert options[0] in options;
    }
    if exists o :: o in t.mealOptions && o.menu == uuid {
      var o :| o in t.mealOptions && o.menu == uuid;
      assert o in options;
    }
  }

  /** Publishing changes nothing but the target menu's published flag. */
  lemma PublishChangesOnlyTheFlag(t: Tables, uuid: Uuid)
    ensures var t' := PublishMenu(t, uuid).1;
      && t'.mealOptions == t.mealOptions && t'.orders == t.orders && t'.nextOrderId == t.nextOrderId
      && t'.menus.Keys == t.menus.Keys
      && (forall u :: u in t.menus && u != uuid ==> t'.menus[u] == t.menus[u])
      && (uuid in t.menus ==> t'.menus[uuid].date == t.menus[uuid].date)
  {
  }

  /** Publishing twice leaves the same tables, and the same answer, as publishing once. */
  lemma PublishIdempotent(t: Tables, uuid: Uuid)
    ensures var once := PublishMenu(t, uuid);
      PublishMenu(once.1, uuid) == once
  {
    var once := PublishMenu(t, uuid);
    assert once.1.mealOptions == t.mealOptions;
    if once.0 == Published {
      assert once.1.menus[uuid] == t.menus[uuid].(isPublished := true);
      assert once.1.menus[uuid := once.1.menus[uuid].(isPublished := true)] == once.1.menus;
    }
  }

  // ---------------------------------------------------------------------------
  // The `orders` action

  datatype OrdersResponse = OrdersMenuNotFound | NoOrdersFound | OrdersFound(orders: seq<Order>)

  function OrdersStatusCode(response: OrdersResponse): nat {
    match response
    case OrdersMenuNotFound => 404
    case NoOrdersFound => 404
    case OrdersFound(_) => 200
  }

  /** Whether an order was placed on the menu `uuid`. */
  function OrderOnMenu(uuid: Uuid): Order -> bool {
    (o: Order) => o.menu == uuid
  }

  /** The `orders` action: the menu's orders, in table order; 404 when there are none. */
  function MenuOrders(t: Tables, uuid: Uuid): (r: OrdersResponse)
  {
    if uuid !in t.menus then OrdersMenuNotFound
    else
      var orders := Filter(t.orders, OrderOnMenu(uuid));
      if |orders| > 0 then OrdersFound(orders) else NoOrdersFound
  }

  /** 404 exactly when the menu is missing or has no order; otherwise 200 listing the
      menu's orders and no other. */
  lemma {:induction false} MenuOrdersListsTheMenusOrders(t: Tables, uuid: Uuid)
    ensures var r := MenuOrders(t, uuid);
      && (OrdersStatusCode(r) == 404 <==> uuid !in t.menus || forall o :: o in t.orders ==> o.menu != uuid)
      && (r.OrdersFound? ==> forall o :: o in r.orders <==> o in t.orders && o.menu == uuid)
      && (r.OrdersFound? && (forall o :: o in t.orders ==> o.menu == uuid) ==> r.orders == t.orders)
  {
    var orders := Filter(t.orders, OrderOnMenu(uuid));
    FilterMembers(t.orders, OrderOnMenu(uuid));
    if |orders| > 0 {
      assert orders[0] in orders;
    }
    if forall o :: o in t.orders ==> o.menu == uuid {
      forall i | 0 <= i < |t.orders| ensures OrderOnMenu(uuid)(t.orders[i]) {
        assert t.orders[i] in t.orders;
      }
      FilterKeepsAll(t.orders, OrderOnMenu(uuid));
    }
  }

  /** The 200 answer holds each of the menu's orders as many times as the table does. */
  lemma MenuOrdersCountsEach(t: Tables, uuid: Uuid)
    ensures var r := MenuOrders(t, uuid);
      r.OrdersFound? ==> forall o :: multiset(r.orders)[o] == if o.menu == uuid then multiset(t.orders)[o] else 0
  {
    forall o ensures multiset(Filter(t.orders, OrderOnMenu(uuid)))[o] == if o.menu == uuid then multiset(t.orders)[o] else 0 {
      FilterCount(t.orders, OrderOnMenu(uuid), o);
    }
  }

  /** The 200 answer keeps table order: its k-th entry is the order at the k-th position,
      in ascending order, of the table's orders on the menu, and no such position is skipped. */
  lemma MenuOrdersInTableOrder(t: Tables, uuid: Uuid)
    ensures var r := MenuOrders(t, uuid);
      var ps := KeptPositions(t.orders, OrderOnMenu(uuid));
      r.OrdersFound? ==>
        && |r.orders| == |ps|
        && (forall k :: 0 <= k < |ps| ==> ps[k] < |t.orders| && r.orders[k] == t.orders[ps[k]])
        && (forall k, l :: 0 <= k < l < |ps| ==> ps[k] < ps[l])
        && (forall i :: 0 <= i < |t.orders| && t.orders[i].menu == uuid ==> i in ps)
  {
    FilterAtKeptPositions(t.orders, OrderOnMenu(uuid));
    KeptPositionsExact(t.orders, OrderOnMenu(uuid));
  }
}
