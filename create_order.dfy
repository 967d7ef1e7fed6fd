/** `CreateOrderService.execute`: check the customer, look the products up in one batch,
    build one line item per request entry with the catalog price, then store the order and
    decrement the stock.  Every check runs before either effect. */
module CreateOrder {
  import opened Outcomes
  import opened Sequences
  import opened Catalog

  /** The `AppError`s the service throws, by kind, plus the `TypeError` that destructuring
      an `undefined` search result would raise. */
  datatype Error =
    | CustomerNotFound
    | ProductNotFound
    | InsufficientQuantity(productName: string)
    | UndefinedProduct

  /** One line of an order: product, quantity, and the price read during this execution. */
  datatype LineItem = LineItem(productId: Id, quantity: int, price: int)

  /** A stored order; `id` is assigned by the order store. */
  datatype Order = Order(id: nat, customer: Id, lines: seq<LineItem>)

  /** The entry passes its per-line check against the looked-up records: its product is
      found and the stock is not below the quantity asked for. */
  predicate LineOk(found: seq<Product>, item: Item)
  {
    var p := Find(found, item.id);
    p.Some? && item.quantity <= p.value.quantity
  }

  /** The error a failing entry raises. */
  function LineError(found: seq<Product>, item: Item): Error
  {
    match Find(found, item.id)
    case None => UndefinedProduct
    case Some(p) => InsufficientQuantity(p.name)
  }

  /** Entry `k` is the first in request order to fail its per-line check. */
  predicate FirstBadLine(found: seq<Product>, request: seq<Item>, k: int)
  {
    && 0 <= k < |request|
    && !LineOk(found, request[k])
    && forall j :: 0 <= j < k ==> LineOk(found, request[j])
  }

  /** `products.map(...)`: one line item per entry, in request order, each copying the
      entry's id and quantity and the price of the record found for it; the first entry
      whose product is missing or short in stock aborts the whole map. */
  function BuildLines(request: seq<Item>, found: seq<Product>): (r: Result<seq<LineItem>, Error>)
    ensures r.Success? <==> forall i :: 0 <= i < |request| ==> LineOk(found, request[i])
    ensures r.Success? ==> |r.value| == |request|
    ensures r.Success? ==> forall i :: 0 <= i < |request| ==>
      && r.value[i].productId == request[i].id
      && r.value[i].quantity == request[i].quantity
      && r.value[i].price == Find(found, request[i].id).value.price
  {
    if request == [] then Success([])
    else
      var item := request[0];
      match Find(found, item.id)
      case None => Failure(UndefinedProduct)
      case Some(p) =>
        if p.quantity < item.quantity then Failure(InsufficientQuantity(p.name))
        else
          match BuildLines(request[1..], found)
          case Failure(e) => Failure(e)
          case Success(rest) => Success([LineItem(item.id, item.quantity, p.price)] + rest)
  }

  /** The error of a failed map is the one the first failing entry raises. */
  lemma {:induction false} BuildLinesFailsAtFirstBadLine(request: seq<Item>, found: seq<Product>, k: int)
    requires FirstBadLine(found, request, k)
    ensures BuildLines(request, found) == Failure(LineError(found, request[k]))
  {
    if k > 0 {
      assert FirstBadLine(found, request[1..], k - 1) by {
        forall j | 0 <= j < k - 1 ensures LineOk(found, request[1..][j]) {
          assert request[1..][j] == request[j + 1];
        }
      }
      assert LineOk(found, request[0]);
      BuildLinesFailsAtFirstBadLine(request[1..], found, k - 1);
    }
  }

  /** Every requested product (all of which exist) has at least the quantity asked for. */
  ghost predicate AllInStock(catalog: map<Id, Product>, request: seq<Item>)
    requires forall i :: 0 <= i < |request| ==> request[i].id in catalog
  {
    forall i :: 0 <= i < |request| ==> request[i].quantity <= catalog[request[i].id].quantity
  }

  /** Entry `k` is the first in request order that asks for more than its product's stock. */
  ghost predicate FirstShortage(catalog: map<Id, Product>, request: seq<Item>, k: int)
  {
    && 0 <= k < |request|
    && (forall i :: 0 <= i < |request| ==> request[i].id in catalog)
    && catalog[request[k].id].quantity < request[k].quantity
    && forall j :: 0 <= j < k ==> request[j].quantity <= catalog[request[j].id].quantity
  }

  /** Everything `execute` decides before its first effect: the customer check, the batch
      lookup and its count check, and the line construction. */
  function Validate(customers: set<Id>, catalog: map<Id, Product>, customerId: Id, request: seq<Item>)
    : (r: Result<seq<LineItem>, Error>)
    requires KeyedById(catalog)
    ensures customerId !in customers ==> r == Failure(CustomerNotFound)
    ensures customerId in customers && !ProductsResolve(catalog, request) ==> r == Failure(ProductNotFound)
    ensures customerId in customers && ProductsResolve(catalog, request) ==>
      (r.Success? <==> AllInStock(catalog, request))
    ensures r.Success? ==> |r.value| == |request|
    ensures r.Success? ==> forall i :: 0 <= i < |request| ==>
      r.value[i] == LineItem(request[i].id, request[i].quantity, catalog[request[i].id].price)
    ensures r != Failure(UndefinedProduct)
  {
    if customerId !in customers then Failure(CustomerNotFound)
    else
      var found := FindAllById(catalog, request);
      LengthCheckMeaning(catalog, request, found);
      if |found| != |request| then Failure(ProductNotFound)
      else
        ResolvedLines(catalog, request, found);
        BuildLines(request, found)
  }

  /** After a passed count check, each entry's per-line check is a comparison with the
      catalog's stock, and any failure is a shortage. */
  lemma ResolvedLines(catalog: map<Id, Product>, request: seq<Item>, found: seq<Product>)
    requires Admissible(catalog, request, found)
    requires ProductsResolve(catalog, request)
    ensures forall i :: 0 <= i < |request| ==> Find(found, request[i].id) == Some(catalog[request[i].id])
    ensures BuildLines(request, found).Failure? ==> BuildLines(request, found).error.InsufficientQuantity?
  {
    forall i | 0 <= i < |request| ensures Find(found, request[i].id) == Some(catalog[request[i].id]) {
      FindResolves(catalog, request, found, i);
    }
    var r := BuildLines(request, found);
    if r.Failure? {
      var i :| 0 <= i < |request| && !LineOk(found, request[i]);
      var k := FirstBadLineAtOrBefore(found, request, i);
      BuildLinesFailsAtFirstBadLine(request, found, k);
    }
  }

  /** Below any entry failing its per-line check lies a first such entry. */
  lemma FirstBadLineAtOrBefore(found: seq<Product>, request: seq<Item>, i: int) returns (k: int)
    requires 0 <= i < |request| && !LineOk(found, request[i])
    ensures k <= i && FirstBadLine(found, request, k)
    decreases i
  {
    if forall j :: 0 <= j < i ==> LineOk(found, request[j]) {
      k := i;
    } else {
      var j :| 0 <= j < i && !LineOk(found, request[j]);
      k := FirstBadLineAtOrBefore(found, request, j);
    }
  }

  /** A request whose first short entry is `k` fails with the shortage error naming that
      entry's product, however many later entries are short too. */
  lemma ValidateReportsFirstShortage(
    customers: set<Id>, catalog: map<Id, Product>, customerId: Id, request: seq<Item>, k: int)
    requires KeyedById(catalog)
    requires customerId in customers
    requires ProductsResolve(catalog, request)
    requires FirstShortage(catalog, request, k)
    ensures Validate(customers, catalog, customerId, request) == Failure(InsufficientQuantity(catalog[request[k].id].name))
  {
    var found := FindAllById(catalog, request);
    LengthCheckMeaning(catalog, request, found);
    ResolvedLines(catalog, request, found);
    BuildLinesFailsAtFirstBadLine(request, found, k);
  }

  /** A successful order decrements each requested product by exactly its entry's
      quantity, leaves every other product as it was, and leaves no stock negative. */
  lemma SuccessDecrementsExactly(customers: set<Id>, catalog: map<Id, Product>, customerId: Id, request: seq<Item>)
    requires KeyedById(catalog) && StockNonNegative(catalog)
    requires Validate(customers, catalog, customerId, request).Success?
    ensures KeyedById(Decremented(catalog, request)) && StockNonNegative(Decremented(catalog, request))
    ensures forall i :: 0 <= i < |request| ==>
      Decremented(catalog, request)[request[i].id]
        == catalog[request[i].id].(quantity := catalog[request[i].id].quantity - request[i].quantity)
    ensures forall k :: k in catalog && k !in RequestIds(request) ==> Decremented(catalog, request)[k] == catalog[k]
  {
    var after := Decremented(catalog, request);
    forall k | k in catalog
      ensures after[k] == catalog[k].(quantity := catalog[k].quantity - Requested(request, k))
    {
      DecrementedQuantity(catalog, request, k);
    }
    forall i | 0 <= i < |request| ensures Requested(request, request[i].id) == request[i].quantity {
      RequestedOnce(request, i);
    }
    forall k | k in catalog && k !in RequestIds(request) ensures Requested(request, k) == 0 {
      RequestedAbsent(request, k);
    }
    forall k | k in after ensures after[k].id == k && after[k].quantity >= 0 {
      if k in RequestIds(request) {
        var i :| 0 <= i < |request| && RequestIds(request)[i] == k;
      }
    }
  }

  /** A request whose entries each fit their product's stock, but which together ask for
      more of one product `id` than it holds: the per-line checks accept it and the update
      would drive that stock below zero, but such a request necessarily names `id` twice,
      so the count check rejects it, since the batch lookup returns the product only once. */
  lemma DuplicateEntriesRejected(
    customers: set<Id>, catalog: map<Id, Product>, customerId: Id, request: seq<Item>, id: Id)
    requires KeyedById(catalog) && StockNonNegative(catalog)
    requires customerId in customers
    requires forall i :: 0 <= i < |request| ==> request[i].id in catalog
    requires AllInStock(catalog, request)
    requires id in catalog && Requested(request, id) > catalog[id].quantity
    ensures !Distinct(RequestIds(request))
    ensures BuildLines(request, FindAllById(catalog, request)).Success?
    ensures Decremented(catalog, request)[id].quantity < 0
    ensures Validate(customers, catalog, customerId, request) == Failure(ProductNotFound)
  {
    if Distinct(RequestIds(request)) {
      if id in RequestIds(request) {
        var i :| 0 <= i < |request| && RequestIds(request)[i] == id;
        RequestedOnce(request, i);
      } else {
        RequestedAbsent(request, id);
      }
      assert false;
    }
    var found := FindAllById(catalog, request);
    forall i | 0 <= i < |request| ensures LineOk(found, request[i]) {
      FindResolves(catalog, request, found, i);
    }
    DecrementedQuantity(catalog, request, id);
  }

  /** The catalog is keyed by id with no negative stock; each stored order carries its
      position as id, belongs to a known customer and names only catalog products. */
  ghost predicate StoreValid(customers: set<Id>, catalog: map<Id, Product>, orders: seq<Order>)
  {
    && KeyedById(catalog)
    && StockNonNegative(catalog)
    && forall i :: 0 <= i < |orders| ==>
         && orders[i].id == i
         && orders[i].customer in customers
         && forall line :: line in orders[i].lines ==> line.productId in catalog
  }

  /** The service with its three repositories reduced to the state they hold: the
      customers, the product catalog and the stored orders. */
  class CreateOrderService {
    var customers: set<Id>
    var catalog: map<Id, Product>
    var orders: seq<Order>

    /** The store invariant over the current fields. */
    ghost predicate Valid()
      reads this
    {
      StoreValid(customers, catalog, orders)
    }

    constructor (customers: set<Id>, catalog: map<Id, Product>)
      requires KeyedById(catalog) && StockNonNegative(catalog)
      ensures Valid()
      ensures this.customers == customers && this.catalog == catalog && orders == []
    {
      this.customers := customers;
      this.catalog := catalog;
      this.orders := [];
    }

    /** `ordersRepository.create`: store a new order under the next free id.  The store stays
        valid for an order of a known customer over catalog products. */
    method CreateOrder(customerId: Id, lines: seq<LineItem>) returns (order: Order)
      requires Valid()
      requires customerId in customers
      requires forall line :: line in lines ==> line.productId in catalog
      modifies this`orders
      ensures Valid()
      ensures order == Order(|old(orders)|, customerId, lines)
      ensures orders == old(orders) + [order]
    {
      order := Order(|orders|, customerId, lines);
      orders := orders + [order];
    }

    /** `productsRepository.updateQuantity`: decrement the stock entry by entry.  The store
        stays valid when no stock goes below zero. */
    method UpdateQuantity(items: seq<Item>)
      requires Valid()
      requires StockNonNegative(Decremented(catalog, items))
      modifies this`catalog
      ensures Valid()
      ensures catalog == Decremented(old(catalog), items)
    {
      DecrementedKeyedById(catalog, items);
      catalog := Decremented(catalog, items);
    }

    /** `execute`: on any failed check nothing changes and the error is returned; otherwise
        exactly one order, with the validated lines, is appended, the stock is decremented
        by the original request, and the new order is returned. */
    method Execute(customerId: Id, request: seq<Item>) returns (r: Result<Order, Error>)
      requires Valid()
      modifies this`orders, this`catalog
      ensures Valid()
      ensures match Validate(customers, old(catalog), customerId, request)
        case Failure(e) =>
          r == Failure(e) && orders == old(orders) && catalog == old(catalog)
        case Success(lines) =>
          && r == Success(Order(|old(orders)|, customerId, lines))
          && orders == old(orders) + [r.value]
          && catalog == Decremented(old(catalog), request)
    {
      ghost var verdict := Validate(customers, catalog, customerId, request);
      if customerId !in customers {
        return Failure(CustomerNotFound);
      }
      var productList := FindAllById(catalog, request);
      LengthCheckMeaning(catalog, request, productList);
      if |productList| != |request| {
        return Failure(ProductNotFound);
      }
      var lines := BuildLines(request, productList);
      assert verdict == lines;
      if lines.Failure? {
        return Failure(lines.error);
      }
      SuccessDecrementsExactly(customers, catalog, customerId, request);
      forall line | line in lines.value ensures line.productId in catalog {
        var i :| 0 <= i < |lines.value| && lines.value[i] == line;
      }
      var order := CreateOrder(customerId, lines.value);
      UpdateQuantity(request);
      return Success(order);
    }
  }
}
