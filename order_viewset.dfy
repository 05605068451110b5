/**
 * The order endpoints' rules: which orders a user sees, and creating an
 * order (one per employee and menu, and none after 11:00).
 */
module OrderViewSet {
  import opened Models
  import opened Seqs

  const MicrosPerHour: nat := 3_600_000_000

  /** A local time of day, in microseconds since midnight. */
  type TimeOfDay = t: nat | t < 24 * MicrosPerHour

  /** Orders are accepted up to 11:00:00.000000 included. */
  const MaxAllowedOrderHour: TimeOfDay := 11 * MicrosPerHour

  /** The authenticated requester. */
  datatype User = User(id: nat, isSuperuser: bool)

  /** The fields of the create request the view reads. */
  datatype OrderRequest = OrderRequest(menu: Uuid, selectedOption: int, customizations: string)

  datatype CreateResponse =
    | MenuNotFound
    | OrderAlreadyExists
    | PastAllowedHour
    | Created(order: Order)

  function StatusCode(response: CreateResponse): nat {
    match response
    case MenuNotFound => 404
    case OrderAlreadyExists => 400
    case PastAllowedHour => 400
    case Created(_) => 201
  }

  predicate HasOrderFor(orders: seq<Order>, employeeId: nat, menu: Uuid) {
    exists i :: 0 <= i < |orders| && orders[i].employeeId == employeeId && orders[i].menu == menu
  }

  /** No employee has two orders on the same menu. */
  predicate OneOrderPerEmployeeAndMenu(orders: seq<Order>) {
    forall i, j :: 0 <= i < j < |orders| ==>
      orders[i].employeeId != orders[j].employeeId || orders[i].menu != orders[j].menu
  }

  /** The order table's invariant: ascending primary keys below the next one,
      orders only on existing menus, one order per employee and menu. */
  predicate OrdersConsistent(t: Tables) {
    && (forall i, j :: 0 <= i < j < |t.orders| ==> t.orders[i].id < t.orders[j].id)
    && (forall i :: 0 <= i < |t.orders| ==> t.orders[i].id < t.nextOrderId)
    && (forall i :: 0 <= i < |t.orders| ==> t.orders[i].menu in t.menus)
    && OneOrderPerEmployeeAndMenu(t.orders)
  }

  /** What `create` answers and the tables it leaves. */
  function CreateOrder(t: Tables, requester: User, request: OrderRequest, now: TimeOfDay): (CreateResponse, Tables) {
    if request.menu !in t.menus then (MenuNotFound, t)
    else if HasOrderFor(t.orders, requester.id, request.menu) then (OrderAlreadyExists, t)
    else if now > MaxAllowedOrderHour then (PastAllowedHour, t)
    else
      var order := Order(t.nextOrderId, requester.id, request.menu, request.selectedOption, request.customizations);
      (Created(order), t.(orders := t.orders + [order], nextOrderId := t.nextOrderId + 1))
  }

  method Create(db: Database, requester: User, request: OrderRequest, now: TimeOfDay) returns (response: CreateResponse)
    modifies db
    ensures (response, db.Snapshot()) == CreateOrder(old(db.Snapshot()), requester, request, now)
  {
    if request.menu !in db.menus {
      return MenuNotFound;
    }
    var orderAlreadyExists := HasOrderFor(db.orders, requester.id, request.menu);
    if orderAlreadyExists {
      response := OrderAlreadyExists;
    } else if now > MaxAllowedOrderHour {
      response := PastAllowedHour;
    } else {
      var order := Order(db.nextOrderId, requester.id, request.menu, request.selectedOption, request.customizations);
      db.orders := db.orders + [order];
      db.nextOrderId := db.nextOrderId + 1;
      response := Created(order);
    }
  }

  /** A refused create answers 404 or 400 and leaves every table as it was. */
  lemma RefusedCreateChangesNothing(t: Tables, requester: User, request: OrderRequest, now: TimeOfDay)
    ensures var (response, t') := CreateOrder(t, requester, request, now);
      !response.Created? ==> t' == t && StatusCode(response) in {400, 404}
  {
  }

  /** An existing order for the same employee and menu is refused, whatever the hour. */
  lemma DuplicateRefusedBeforeHourCheck(t: Tables, requester: User, request: OrderRequest, now: TimeOfDay)
    requires request.menu in t.menus
    requires exists o :: o in t.orders && o.employeeId == requester.id && o.menu == request.menu
    ensures CreateOrder(t, requester, request, now).0 == OrderAlreadyExists
  {
    var o :| o in t.orders && o.employeeId == requester.id && o.menu == request.menu;
    var i :| 0 <= i < |t.orders| && t.orders[i] == o;
  }

  /** Without a prior order, the answer depends only on the hour: up to 11:00 included it is created. */
  lemma HourDecidesFirstOrder(t: Tables, requester: User, request: OrderRequest, now: TimeOfDay)
    requires request.menu in t.menus
    requires forall o :: o in t.orders ==> o.employeeId != requester.id || o.menu != request.menu
    ensures CreateOrder(t, requester, request, now).0.Created? <==> now <= MaxAllowedOrderHour
    ensures now > MaxAllowedOrderHour ==> CreateOrder(t, requester, request, now).0 == PastAllowedHour
  {
  }

  /** A successful create appends exactly one order with the request's fields and the
      next key, answers 201, and changes no other row or table. */
  lemma CreatedAppendsOneOrder(t: Tables, requester: User, request: OrderRequest, now: TimeOfDay)
    ensures var (response, t') := CreateOrder(t, requester, request, now);
      response.Created? ==>
        && StatusCode(response) == 201
        && |t'.orders| == |t.orders| + 1
        && t'.orders[..|t.orders|] == t.orders
        && t'.orders[|t.orders|] == response.order
        && response.order.employeeId == requester.id
        && response.order.menu == request.menu
        && response.order.selectedOption == request.selectedOption
        && response.order.customizations == request.customizations
        && t'.menus == t.menus && t'.mealOptions == t.mealOptions
  {
  }

  /** Create keeps the order table consistent: in particular it never makes a second
      order for an employee and menu. */
  lemma CreateKeepsOrdersConsistent(t: Tables, requester: User, request: OrderRequest, now: TimeOfDay)
    requires OrdersConsistent(t)
    ensures OrdersConsistent(CreateOrder(t, requester, request, now).1)
  {
    var (response, t') := CreateOrder(t, requester, request, now);
    if response.Created? {
      var n := |t.orders|;
      var order := response.order;
      assert t'.orders == t.orders + [order];
      assert !HasOrderFor(t.orders, requester.id, request.menu);
      forall i | 0 <= i < n
        ensures t'.orders[i].employeeId != order.employeeId || t'.orders[i].menu != order.menu
      {
        assert t'.orders[i] == t.orders[i];
      }
    }
  }

  // ---------------------------------------------------------------------------
  // Visibility

  /** Whether an order was placed by the employee `id`. */
  function OrderedBy(id: nat): Order -> bool {
    (o: Order) => o.employeeId == id
  }

  /** The orders a user may list: all of them for a superuser, their own otherwise. */
  function GetQueryset(orders: seq<Order>, user: User): seq<Order> {
    if user.isSuperuser then orders else Filter(orders, OrderedBy(user.id))
  }

  /** A superuser sees every order; anyone else sees exactly the orders placed under their
      id, each as many times as the table holds it, so as many as the table has for them. */
  lemma {:induction false} VisibleOrders(orders: seq<Order>, user: User)
    ensures user.isSuperuser ==> GetQueryset(orders, user) == orders
    ensures !user.isSuperuser ==>
      forall o :: o in GetQueryset(orders, user) <==> o in orders && o.employeeId == user.id
    ensures !user.isSuperuser ==>
      forall o :: multiset(GetQueryset(orders, user))[o] == if o.employeeId == user.id then multiset(orders)[o] else 0
    ensures (forall i :: 0 <= i < |orders| ==> orders[i].employeeId == user.id) ==> GetQueryset(orders, user) == orders
  {
    FilterMembers(orders, OrderedBy(user.id));
    forall o ensures multiset(Filter(orders, OrderedBy(user.id)))[o] == if o.employeeId == user.id then multiset(orders)[o] else 0 {
      FilterCount(orders, OrderedBy(user.id), o);
    }
    if forall i :: 0 <= i < |orders| ==> orders[i].employeeId == user.id {
      FilterKeepsAll(orders, OrderedBy(user.id));
    }
  }

  /** A non-superuser's listing keeps table order: its k-th entry is the order at the k-th
      of their positions in the table, ascending, and none of their orders is skipped. */
  lemma VisibleOrdersInTableOrder(orders: seq<Order>, user: User)
    requires !user.isSuperuser
    ensures var r, ps := GetQueryset(orders, user), KeptPositions(orders, OrderedBy(user.id));
      && |r| == |ps|
      && (forall k :: 0 <= k < |ps| ==> ps[k] < |orders| && r[k] == orders[ps[k]])
      && (forall k, l :: 0 <= k < l < |ps| ==> ps[k] < ps[l])
      && (forall i :: 0 <= i < |orders| && orders[i].employeeId == user.id ==> i in ps)
  {
    FilterAtKeptPositions(orders, OrderedBy(user.id));
    KeptPositionsExact(orders, OrderedBy(user.id));
  }
}
