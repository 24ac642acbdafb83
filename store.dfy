/** The storefront's tables as one object, and the routes that write to them
    as its methods. Each table is a map from its auto-increment id to its
    row; each counter is the id the database hands out next and only grows. */
module Storefront {
  import opened Tables
  import opened Catalogue
  import opened Orders

  class Store {
    var products: map<int, Product>
    var categories: map<int, Category>
    var customers: map<int, Customer>
    var orders: map<int, Order>
    var lines: seq<OrderLine>
    var nextProductId: int
    var nextCategoryId: int
    var nextCustomerId: int
    var nextOrderId: int

    /** Every id is below its table's counter, every order belongs to a
        customer on file and every line item to an order on file. The
        detalle_pedidos table is only ever appended to, so its rows are a
        sequence and the row at position i has id i + 1. */
    ghost predicate Valid()
      reads this
    {
      && 1 <= nextProductId && IdsBelow(products, nextProductId)
      && 1 <= nextCategoryId && IdsBelow(categories, nextCategoryId)
      && 1 <= nextCustomerId && IdsBelow(customers, nextCustomerId)
      && 1 <= nextOrderId && IdsBelow(orders, nextOrderId)
      && (forall id :: id in orders ==> orders[id].customerId in customers)
      && (forall k :: 0 <= k < |lines| ==> lines[k].orderId in orders)
    }

    /** A store with the given categories (there is no route that writes
        categorias) and otherwise empty tables. */
    constructor (cats: map<int, Category>, nextCategory: int)
      requires 1 <= nextCategory && IdsBelow(cats, nextCategory)
      ensures Valid()
      ensures categories == cats && nextCategoryId == nextCategory
      ensures products == map[] && customers == map[] && orders == map[] && lines == []
      ensures nextProductId == 1 && nextCustomerId == 1 && nextOrderId == 1
    {
      products, categories, customers, orders, lines := map[], cats, map[], map[], [];
      nextProductId, nextCategoryId, nextCustomerId, nextOrderId := 1, nextCategory, 1, 1;
    }

    /** POST /api/productos: a new row under a fresh id; the Activo column
        takes its default, true. */
    method CreateProduct(f: ProductFields) returns (id: int)
      requires Valid()
      modifies this`products, this`nextProductId
      ensures Valid()
      ensures id == old(nextProductId) && id !in old(products)
      ensures nextProductId == old(nextProductId) + 1
      ensures products == old(products)[id := Product(f, true)]
      ensures ProductById(products, categories, id) == Some(RowOf(products, categories, id))
    {
      id := nextProductId;
      products := products[id := Product(f, true)];
      nextProductId := nextProductId + 1;
    }

    /** PUT /api/productos/:id: overwrites the ten editable columns of the row
        with that id, if there is one; Activo is left as it was. */
    method UpdateProduct(id: int, f: ProductFields)
      requires Valid()
      modifies this`products
      ensures Valid()
      ensures products.Keys == old(products).Keys
      ensures id in products ==> products[id] == Product(f, old(products)[id].active)
      ensures forall other :: other in products && other != id ==> products[other] == old(products)[other]
    {
      if id in products {
        products := products[id := products[id].(fields := f)];
      }
    }

    /** DELETE /api/productos/:id: only clears Activo; the row stays. */
    method DeleteProduct(id: int)
      requires Valid()
      modifies this`products
      ensures Valid()
      ensures products == Deactivated(old(products), id)
      ensures products.Keys == old(products).Keys
      ensures ProductById(products, categories, id) == None
      ensures forall k :: 0 <= k < |ActiveProducts(products, categories, nextProductId)| ==>
        ActiveProducts(products, categories, nextProductId)[k].id != id
    {
      if id in products {
        products := products[id := products[id].(active := false)];
      }
      SoftDeleteHides(old(products), categories, nextProductId, id);
    }

    /** PUT /api/pedidos/:id/estado: overwrites Estado of that order only. */
    method UpdateOrderStatus(id: int, status: string)
      requires Valid()
      modifies this`orders
      ensures Valid()
      ensures orders.Keys == old(orders).Keys
      ensures id in orders ==> orders[id] == old(orders)[id].(status := status)
      ensures forall other :: other in orders && other != id ==> orders[other] == old(orders)[other]
    {
      if id in orders {
        orders := orders[id := orders[id].(status := status)];
      }
    }

    /** Step one of POST /api/pedidos: looks the customer up by phone; when
        found, overwrites its fields and reuses its id, otherwise inserts it
        under a fresh id. */
    method ResolveCustomer(customer: Customer) returns (customerId: int)
      requires Valid()
      modifies this`customers, this`nextCustomerId
      ensures Valid()
      ensures Upserted(old(customers), old(nextCustomerId), customers, nextCustomerId, customer, customerId)
      ensures customerId in customers
    {
      var existing := FindByPhone(customers, nextCustomerId, customer.phone);
      if existing.Some? {
        customerId := existing.value;
        customers := customers[customerId := Overwrite(customers[customerId], customer)];
      } else {
        customerId := nextCustomerId;
        customers := customers[customerId := customer];
        nextCustomerId := nextCustomerId + 1;
      }
      UpsertKeys(old(customers), old(nextCustomerId), customers, nextCustomerId, customer, customerId);
    }

    /** Step two of POST /api/pedidos: the pedidos row under a fresh id. */
    method InsertOrder(order: Order) returns (orderId: int)
      requires Valid() && order.customerId in customers
      modifies this`orders, this`nextOrderId
      ensures Valid()
      ensures orderId == old(nextOrderId) && orderId !in old(orders)
      ensures nextOrderId == old(nextOrderId) + 1
      ensures orders == old(orders)[orderId := order]
    {
      orderId := nextOrderId;
      orders := orders[orderId := order];
      nextOrderId := nextOrderId + 1;
    }

    /** One turn of the line loop: appends the line item (its id is the next),
        then `UPDATE productos SET Stock = Stock - ?` for its product (no row
        changes when the product id is unknown). */
    method AddLineItem(orderId: int, req: LineRequest)
      requires Valid() && orderId in orders
      modifies this`lines, this`products
      ensures Valid()
      ensures lines == old(lines) + [LineFor(orderId, req)]
      ensures products == Decrement(old(products), req)
    {
      lines := lines + [LineFor(orderId, req)];
      if req.productId in products {
        products := products[req.productId := WithStock(products[req.productId], products[req.productId].fields.stock - req.quantity)];
      }
    }

    /** Step three of POST /api/pedidos: for each submitted line in turn,
        inserts its line item and takes its quantity from the product's
        stock, with no check on the result. */
    method InsertLines(orderId: int, reqs: seq<LineRequest>)
      requires Valid() && orderId in orders
      modifies this`lines, this`products
      ensures Valid()
      ensures lines == old(lines) + LinesFor(orderId, reqs)
      ensures products.Keys == old(products).Keys
      ensures forall id :: id in products ==>
        products[id] == WithStock(old(products)[id], old(products)[id].fields.stock - QuantityOf(reqs, id))
    {
      var i := 0;
      while i < |reqs|
        invariant 0 <= i <= |reqs|
        invariant Valid() && orderId in orders
        invariant lines == old(lines) + LinesFor(orderId, reqs[..i])
        invariant products == ApplyStock(old(products), reqs[..i])
      {
        assert reqs[..i + 1] == reqs[..i] + [reqs[i]];
        LinesForSnoc(orderId, reqs[..i], reqs[i]);
        AddLineItem(orderId, reqs[i]);
        i := i + 1;
      }
      assert reqs[..|reqs|] == reqs;
      StockAfter(old(products), reqs);
    }

    /** POST /api/pedidos: resolves the customer, inserts the order as
        Pendiente with the submitted total (not recomputed from the lines),
        then inserts the lines and takes the stock. Returns the order's id. */
    method PlaceOrder(customer: Customer, reqs: seq<LineRequest>, total: int, notes: string, deliveryType: string)
      returns (orderId: int)
      requires Valid()
      modifies this`customers, this`nextCustomerId, this`orders, this`nextOrderId
      modifies this`lines, this`products
      ensures Valid()
      // the order header
      ensures orderId == old(nextOrderId) && orderId !in old(orders)
      ensures nextOrderId == old(nextOrderId) + 1
      ensures orderId in orders
      ensures orders == old(orders)[orderId := Order(orders[orderId].customerId, total, Pending, deliveryType, notes)]
      // its customer: reused and overwritten, or added under a fresh id
      ensures Upserted(old(customers), old(nextCustomerId), customers, nextCustomerId, customer, orders[orderId].customerId)
      // one line item per submitted line, in submission order
      ensures lines == old(lines) + LinesFor(orderId, reqs)
      ensures forall i :: 0 <= i < |old(lines)| ==> old(lines)[i].orderId != orderId
      // the stock
      ensures products.Keys == old(products).Keys
      ensures forall id :: id in products ==>
        products[id] == WithStock(old(products)[id], old(products)[id].fields.stock - QuantityOf(reqs, id))
      ensures OrderDetail(orders, customers, products, lines, orderId).Some?
    {
      var customerId := ResolveCustomer(customer);
      orderId := InsertOrder(Order(customerId, total, Pending, deliveryType, notes));
      InsertLines(orderId, reqs);
    }
  }

  /** A client of the store: an order for two units of a product with five
      in stock leaves three, and one line item of subtotal 20. */
  method PlacementScenario(store: Store, productId: int, buyer: Customer)
    requires store.Valid() && productId in store.products
    requires store.products[productId].fields.stock == 5
    modifies store
  {
    var line := LineRequest(productId, 2, 10);
    var lineCount := |store.lines|;
    var orderId := store.PlaceOrder(buyer, [line], 20, "", "domicilio");
    assert [line][..0] == [];
    assert QuantityOf([line], productId) == 2;
    assert store.products[productId].fields.stock == 3;
    assert store.lines[lineCount] == OrderLine(orderId, productId, 2, 10, 20);
    assert store.orders[orderId].status == Pending;
  }

  /** A fresh store holds the products the admin creates. */
  method CatalogueScenario()
  {
    var store := new Store(map[1 := Category("Cervezas", true)], 2);
    var fields := ProductFields("Six clara", "", 10, 1, 5, "Lata", "355 ml", "4.5", "Marca", "");
    var productId := store.CreateProduct(fields);
    assert ProductById(store.products, store.categories, productId).Some?;
    store.DeleteProduct(productId);
    assert ProductById(store.products, store.categories, productId).None?;
  }

  /** A second order from the same phone reuses the customer and adds none. */
  method RepeatCustomerScenario(store: Store, buyer: Customer)
    requires store.Valid()
    modifies store
  {
    var before, nextBefore := store.customers, store.nextCustomerId;
    var first := store.PlaceOrder(buyer, [], 0, "", "domicilio");
    var customerId := store.orders[first].customerId;
    UpsertFinds(before, nextBefore, store.customers, store.nextCustomerId, buyer, customerId);
    var customersBefore := store.customers;
    var again := store.PlaceOrder(buyer, [], 0, "", "recoger");
    assert store.orders[again].customerId == customerId;
    assert store.customers.Keys == customersBefore.Keys;
  }
}
