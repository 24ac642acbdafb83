/** The pure side of the order routes: the customer lookup by phone and what
    an upsert does to it, the line items and stock changes an order causes,
    and the order detail query. The state transition itself is
    Store.PlaceOrder. */
module Orders {
  import opened Tables

  /** The status every new order starts in. */
  const Pending: string := "Pendiente"

  /** One element of the submitted `productos` array: {id, cantidad, precio}. */
  datatype LineRequest = LineRequest(productId: int, quantity: int, price: int)

  predicate HasPhone(c: Customer, phone: string)
  {
    c.phone == phone
  }

  /** `SELECT ID_Cliente FROM clientes WHERE Telefono = ?`, taking the first
      row; the select has no `ORDER BY`, and the model takes the lowest id as
      the first row. */
  function FindByPhone(cs: map<int, Customer>, next: int, phone: string): (r: Option<int>)
    ensures r.Some? ==> r.value in cs && cs[r.value].phone == phone && 1 <= r.value < next
    ensures r.Some? ==> forall id :: id in cs && 1 <= id < r.value ==> cs[id].phone != phone
    ensures r.None? <==> forall id :: id in cs && 1 <= id < next ==> cs[id].phone != phone
  {
    var keep := (c: Customer) => HasPhone(c, phone);
    var sel := SelectIds(cs, IdsAscending(next), keep);
    SelectIdsAscending(cs, IdsAscending(next), keep);
    if sel == [] then
      assert forall id :: id in cs && 1 <= id < next ==> cs[id].phone != phone by {
        forall id | id in cs && 1 <= id < next ensures cs[id].phone != phone {
          assert id in IdsAscending(next);
          assert id !in sel;
        }
      }
      None
    else
      assert sel[0] in sel;
      assert forall id :: id in cs && 1 <= id < sel[0] ==> cs[id].phone != phone by {
        forall id | id in cs && 1 <= id < sel[0] ensures cs[id].phone != phone {
          assert forall k :: 0 <= k < |sel| ==> sel[k] >= sel[0];
          assert id !in sel;
          assert id in IdsAscending(next);
        }
      }
      Some(sel[0])
  }

  /** No two customers share a phone number: the phone is the natural key the
      upsert relies on. */
  predicate PhonesUnique(cs: map<int, Customer>)
  {
    forall a, b :: a in cs && b in cs && cs[a].phone == cs[b].phone ==> a == b
  }

  /** `UPDATE clientes SET Nombre, Email, Direccion, Colonia, Ciudad,
      Codigo_Postal`: every submitted field except the phone. */
  function Overwrite(stored: Customer, submitted: Customer): (c: Customer)
    ensures c.phone == stored.phone
    ensures c.(phone := submitted.phone) == submitted
  {
    submitted.(phone := stored.phone)
  }

  /** Reusing a customer found by phone: the same id is found again, and the
      phone numbers stay unique if they were. */
  lemma FindAfterOverwrite(cs: map<int, Customer>, next: int, c: Customer, id: int)
    requires FindByPhone(cs, next, c.phone) == Some(id)
    ensures FindByPhone(cs[id := Overwrite(cs[id], c)], next, c.phone) == Some(id)
    ensures PhonesUnique(cs) ==> PhonesUnique(cs[id := Overwrite(cs[id], c)])
  {
    var cs' := cs[id := Overwrite(cs[id], c)];
    assert forall k :: k in cs' <==> k in cs;
    assert forall k :: k in cs ==> cs'[k].phone == cs[k].phone;
  }

  /** Inserting a customer whose phone is not on file under the next id: that
      id is what a later lookup finds, and phone numbers stay unique. */
  lemma FindAfterInsert(cs: map<int, Customer>, next: int, c: Customer)
    requires 1 <= next && IdsBelow(cs, next)
    requires FindByPhone(cs, next, c.phone) == None
    ensures FindByPhone(cs[next := c], next + 1, c.phone) == Some(next)
    ensures PhonesUnique(cs) ==> PhonesUnique(cs[next := c])
  {
    var cs' := cs[next := c];
    assert next in cs' && cs'[next].phone == c.phone;
    forall id | id in cs' && 1 <= id < next ensures cs'[id].phone != c.phone {
      assert id in cs;
    }
  }

  /** The customer step of placing an order, from the clientes table
      `before` (ids below `next`) to `after` (ids below `next'`), settling on
      customer `id`: a customer found by phone is reused and overwritten,
      otherwise the submitted one is inserted under the next id. */
  predicate Upserted(before: map<int, Customer>, next: int, after: map<int, Customer>, next': int,
                     c: Customer, id: int): (b: bool)
    ensures b ==> id in after && after[id] == c
    ensures b ==> forall other :: other in before && other != id ==> other in after && after[other] == before[other]
  {
    var found := FindByPhone(before, next, c.phone);
    if found.Some? then
      id == found.value && after == before[id := Overwrite(before[id], c)] && next' == next
    else
      id == next && after == before[id := c] && next' == next + 1
  }

  /** After the upsert the customer's phone leads back to the id it settled
      on, and phone numbers stay unique if they were. */
  lemma UpsertFinds(before: map<int, Customer>, next: int, after: map<int, Customer>, next': int,
                    c: Customer, id: int)
    requires 1 <= next && IdsBelow(before, next)
    requires Upserted(before, next, after, next', c, id)
    ensures FindByPhone(after, next', c.phone) == Some(id)
    ensures PhonesUnique(before) ==> PhonesUnique(after)
  {
    if FindByPhone(before, next, c.phone).Some? {
      FindAfterOverwrite(before, next, c, id);
    } else {
      FindAfterInsert(before, next, c);
    }
  }

  /** The upsert removes no customer, adds at most the one it settled on,
      and keeps every id below the counter. */
  lemma UpsertKeys(before: map<int, Customer>, next: int, after: map<int, Customer>, next': int,
                   c: Customer, id: int)
    requires 1 <= next && IdsBelow(before, next)
    requires Upserted(before, next, after, next', c, id)
    ensures after.Keys == before.Keys + {id} && id in after
    ensures 1 <= next' && IdsBelow(after, next')
  {
    var found := FindByPhone(before, next, c.phone);
    if found.Some? {
      assert id in before;
    }
  }

  /** The upsert adds no customer when the phone is on file, and exactly one,
      the submitted customer under a fresh id, when it is not. */
  lemma UpsertCount(before: map<int, Customer>, next: int, after: map<int, Customer>, next': int,
                    c: Customer, id: int)
    requires IdsBelow(before, next)
    requires Upserted(before, next, after, next', c, id)
    ensures FindByPhone(before, next, c.phone).Some? ==> after.Keys == before.Keys && |after| == |before|
    ensures FindByPhone(before, next, c.phone).None? ==>
      id !in before && after[id] == c && |after| == |before| + 1
  {
    var found := FindByPhone(before, next, c.phone);
    if found.Some? {
      assert id in before;
      assert after.Keys == before.Keys;
    } else {
      assert id !in before;
    }
  }

  /** The detalle_pedidos row for one submitted line: the order id, the
      product, the quantity, the unit price and their product. */
  function LineFor(orderId: int, req: LineRequest): (l: OrderLine)
    ensures l.orderId == orderId && l.productId == req.productId
    ensures l.quantity == req.quantity && l.unitPrice == req.price
    ensures l.subtotal == l.quantity * l.unitPrice
  {
    OrderLine(orderId, req.productId, req.quantity, req.price, req.quantity * req.price)
  }

  /** The rows the line loop appends to detalle_pedidos, one per submitted
      line and in submission order. */
  function LinesFor(orderId: int, reqs: seq<LineRequest>): (r: seq<OrderLine>)
    ensures |r| == |reqs|
    ensures forall k :: 0 <= k < |reqs| ==> r[k] == LineFor(orderId, reqs[k])
  {
    seq(|reqs|, k requires 0 <= k < |reqs| => LineFor(orderId, reqs[k]))
  }

  /** One more turn of the line loop appends the line item of the next line. */
  lemma LinesForSnoc(orderId: int, reqs: seq<LineRequest>, req: LineRequest)
    ensures LinesFor(orderId, reqs + [req]) == LinesFor(orderId, reqs) + [LineFor(orderId, req)]
  {
    assert forall k :: 0 <= k < |reqs| ==> (reqs + [req])[k] == reqs[k];
  }

  /** The total quantity the lines take from product `productId`. */
  function QuantityOf(reqs: seq<LineRequest>, productId: int): int
    decreases |reqs|
  {
    if reqs == [] then 0
    else
      var last := reqs[|reqs| - 1];
      QuantityOf(reqs[..|reqs| - 1], productId) + (if last.productId == productId then last.quantity else 0)
  }

  /** `UPDATE productos SET Stock = Stock - ? WHERE ID_Producto = ?`: no check
      of the result, and no row changes when the id is unknown. */
  function Decrement(ps: map<int, Product>, req: LineRequest): (r: map<int, Product>)
    ensures r.Keys == ps.Keys
    ensures req.productId in ps ==>
      r[req.productId] == WithStock(ps[req.productId], ps[req.productId].fields.stock - req.quantity)
    ensures forall id :: id in ps && id != req.productId ==> r[id] == ps[id]
  {
    if req.productId in ps then
      ps[req.productId := WithStock(ps[req.productId], ps[req.productId].fields.stock - req.quantity)]
    else ps
  }

  /** The products after the decrements of the given lines, in order. */
  function ApplyStock(ps: map<int, Product>, reqs: seq<LineRequest>): (r: map<int, Product>)
    ensures r.Keys == ps.Keys
    ensures forall id :: id in ps ==> r[id].active == ps[id].active
    ensures forall id :: id in ps ==> r[id].fields.(stock := ps[id].fields.stock) == ps[id].fields
    decreases |reqs|
  {
    if reqs == [] then ps
    else Decrement(ApplyStock(ps, reqs[..|reqs| - 1]), reqs[|reqs| - 1])
  }

  /** After the loop every product has lost exactly the quantities its lines
      asked for (possibly going below zero); nothing else about any product
      changes, and no product appears or disappears. */
  lemma {:induction false} StockAfter(ps: map<int, Product>, reqs: seq<LineRequest>)
    ensures ApplyStock(ps, reqs).Keys == ps.Keys
    ensures forall id :: id in ps ==>
      ApplyStock(ps, reqs)[id] == WithStock(ps[id], ps[id].fields.stock - QuantityOf(reqs, id))
    decreases |reqs|
  {
    if reqs != [] {
      StockAfter(ps, reqs[..|reqs| - 1]);
    }
  }

  /** A product no line mentions keeps its stock. */
  lemma {:induction false} QuantityOfUnreferenced(reqs: seq<LineRequest>, productId: int)
    requires forall k :: 0 <= k < |reqs| ==> reqs[k].productId != productId
    ensures QuantityOf(reqs, productId) == 0
    decreases |reqs|
  {
    if reqs != [] {
      QuantityOfUnreferenced(reqs[..|reqs| - 1], productId);
    }
  }

  /** One line of the order detail: the detalle_pedidos row with the name and
      image of its product (`JOIN productos`). */
  datatype DetailRow = DetailRow(lineId: int, line: OrderLine, productName: string, imageUrl: string)

  /** GET /api/pedidos/:id: the order joined with its customer, and its lines. */
  datatype OrderView = OrderView(order: Order, customer: CustomerSummary, lines: seq<DetailRow>)

  /** The clientes columns the detail query selects: Nombre, Telefono, Email,
      Direccion, Colonia and Ciudad (not Codigo_Postal). */
  datatype CustomerSummary = CustomerSummary(
    name: string,
    phone: string,
    email: string,
    address: string,
    neighborhood: string,
    city: string)

  function Summary(c: Customer): (v: CustomerSummary)
    ensures v.name == c.name && v.phone == c.phone && v.email == c.email
    ensures v.address == c.address && v.neighborhood == c.neighborhood && v.city == c.city
  {
    CustomerSummary(c.name, c.phone, c.email, c.address, c.neighborhood, c.city)
  }

  predicate LineOfOrder(l: OrderLine, orderId: int, ps: map<int, Product>)
  {
    l.orderId == orderId && l.productId in ps
  }

  /** The detail row of the line item with id `lineId`, the row at position
      lineId - 1 of the table. */
  function DetailRowOf(ls: seq<OrderLine>, ps: map<int, Product>, lineId: int): DetailRow
    requires 1 <= lineId <= |ls| && ls[lineId - 1].productId in ps
  {
    var p := ps[ls[lineId - 1].productId];
    DetailRow(lineId, ls[lineId - 1], p.fields.name, p.fields.imageUrl)
  }

  /** `WHERE ID_Pedido = ?` on detalle_pedidos, inner-joined with productos:
      the ids of the order's line items whose product row exists, in
      insertion order (the line item at position i has id i + 1). */
  function LineIdsOf(ls: seq<OrderLine>, ps: map<int, Product>, orderId: int): (r: seq<int>)
    ensures forall k :: 0 <= k < |r| ==> 1 <= r[k] <= |ls| && LineOfOrder(ls[r[k] - 1], orderId, ps)
    ensures forall i :: 0 <= i < |ls| && LineOfOrder(ls[i], orderId, ps) ==> i + 1 in r
    decreases |ls|
  {
    if ls == [] then []
    else
      var rest := LineIdsOf(ls[..|ls| - 1], ps, orderId);
      if LineOfOrder(ls[|ls| - 1], orderId, ps) then rest + [|ls|] else rest
  }

  /** The line items of an order come in ascending id order. */
  lemma {:induction false} LineIdsAscending(ls: seq<OrderLine>, ps: map<int, Product>, orderId: int)
    ensures Ascending(LineIdsOf(ls, ps, orderId))
    decreases |ls|
  {
    if ls != [] {
      LineIdsAscending(ls[..|ls| - 1], ps, orderId);
    }
  }

  /** An order no line item mentions has no detail lines. */
  lemma {:induction false} LineIdsOfAbsent(ls: seq<OrderLine>, ps: map<int, Product>, orderId: int)
    requires forall i :: 0 <= i < |ls| ==> ls[i].orderId != orderId
    ensures LineIdsOf(ls, ps, orderId) == []
    decreases |ls|
  {
    if ls != [] {
      LineIdsOfAbsent(ls[..|ls| - 1], ps, orderId);
    }
  }

  /** The detail of a freshly placed order lists every submitted line, in
      submission order, under the ids the append gave them (when every
      submitted product exists; the join drops the others). */
  lemma {:induction false} LineIdsOfNewOrder(ls: seq<OrderLine>, ps: map<int, Product>, orderId: int, reqs: seq<LineRequest>)
    requires forall i :: 0 <= i < |ls| ==> ls[i].orderId != orderId
    requires forall k :: 0 <= k < |reqs| ==> reqs[k].productId in ps
    ensures LineIdsOf(ls + LinesFor(orderId, reqs), ps, orderId) == seq(|reqs|, k => |ls| + k + 1)
    decreases |reqs|
  {
    if reqs == [] {
      assert ls + LinesFor(orderId, reqs) == ls;
      LineIdsOfAbsent(ls, ps, orderId);
    } else {
      var init := reqs[..|reqs| - 1];
      var all := ls + LinesFor(orderId, reqs);
      LinesForSnoc(orderId, init, reqs[|reqs| - 1]);
      assert reqs == init + [reqs[|reqs| - 1]];
      assert all[..|all| - 1] == ls + LinesFor(orderId, init);
      LineIdsOfNewOrder(ls, ps, orderId, init);
      assert LineOfOrder(all[|all| - 1], orderId, ps);
    }
  }

  /** The detail rows of an order: one per line item of `LineIdsOf`. */
  function DetailRows(ls: seq<OrderLine>, ps: map<int, Product>, orderId: int): (r: seq<DetailRow>)
    ensures |r| == |LineIdsOf(ls, ps, orderId)|
    ensures forall k :: 0 <= k < |r| ==>
      var id := LineIdsOf(ls, ps, orderId)[k];
      && r[k].lineId == id && r[k].line == ls[id - 1] && r[k].line.orderId == orderId
      && r[k].line.productId in ps
      && r[k].productName == ps[r[k].line.productId].fields.name
      && r[k].imageUrl == ps[r[k].line.productId].fields.imageUrl
  {
    var ids := LineIdsOf(ls, ps, orderId);
    seq(|ids|, k requires 0 <= k < |ids| => DetailRowOf(ls, ps, ids[k]))
  }

  /** The order detail: not found when no order has the id (or, the join with
      clientes being an inner one, when its customer row is missing);
      otherwise the order, its customer, and its line items. */
  function OrderDetail(os: map<int, Order>, cs: map<int, Customer>, ps: map<int, Product>,
                       ls: seq<OrderLine>, id: int): (r: Option<OrderView>)
    ensures r.None? <==> id !in os || os[id].customerId !in cs
    ensures r.Some? ==> r.value.order == os[id] && r.value.customer == Summary(cs[os[id].customerId])
    ensures r.Some? ==> r.value.lines == DetailRows(ls, ps, id)
  {
    if id !in os || os[id].customerId !in cs then None
    else Some(OrderView(os[id], Summary(cs[os[id].customerId]), DetailRows(ls, ps, id)))
  }
}
