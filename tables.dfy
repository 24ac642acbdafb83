/** The rows of the storefront's five tables (productos, categorias, clientes,
    pedidos, detalle_pedidos) and the ordering helpers that the read queries
    share. Every table is keyed by its auto-increment id. */
module Tables {

  datatype Option<T> = None | Some(value: T)

  /** The ten columns the admin routes write when creating or updating a
      product (Nombre, Descripcion, Precio, ID_Categoria, Stock,
      Tipo_Presentacion, Volumen, Grados_Alcohol, Marca, Imagen_URL). */
  datatype ProductFields = ProductFields(
    name: string,
    description: string,
    price: int,
    categoryId: int,
    stock: int,
    presentation: string,
    volume: string,
    alcoholGrade: string,
    brand: string,
    imageUrl: string)

  /** A productos row: the editable columns and the Activo flag. */
  datatype Product = Product(fields: ProductFields, active: bool)

  /** A categorias row. */
  datatype Category = Category(name: string, active: bool)

  /** A clientes row; it is also the shape of the submitted `cliente`. */
  datatype Customer = Customer(
    name: string,
    phone: string,
    email: string,
    address: string,
    neighborhood: string,
    city: string,
    postalCode: string)

  /** A pedidos row (the server-assigned Fecha_Pedido is not modelled). */
  datatype Order = Order(
    customerId: int,
    total: int,
    status: string,
    deliveryType: string,
    notes: string)

  /** A detalle_pedidos row. */
  datatype OrderLine = OrderLine(
    orderId: int,
    productId: int,
    quantity: int,
    unitPrice: int,
    subtotal: int)

  /** The product with its stock column replaced; nothing else changes. */
  function WithStock(p: Product, stock: int): (q: Product)
    ensures q.fields.stock == stock && q.active == p.active
    ensures q.fields.(stock := p.fields.stock) == p.fields
  {
    p.(fields := p.fields.(stock := stock))
  }

  predicate Descending(s: seq<int>)
  {
    forall j, k :: 0 <= j < k < |s| ==> s[j] > s[k]
  }

  predicate Ascending(s: seq<int>)
  {
    forall j, k :: 0 <= j < k < |s| ==> s[j] < s[k]
  }

  /** The auto-increment ids handed out so far are 1 .. next-1: every key of
      a table lies in that range. */
  predicate IdsBelow<V>(m: map<int, V>, next: int)
  {
    forall id :: id in m ==> 1 <= id < next
  }

  /** The candidate ids 1 .. next-1 from the highest to the lowest
      (`ORDER BY ... DESC` on the primary key). */
  function IdsDescending(next: int): (r: seq<int>)
    ensures forall id :: id in r <==> 1 <= id < next
    ensures forall k :: 0 <= k < |r| ==> 1 <= r[k] < next
    ensures Descending(r)
    decreases next
  {
    if next <= 1 then []
    else
      var rest := IdsDescending(next - 1);
      [next - 1] + rest
  }

  /** The candidate ids 1 .. next-1 in insertion (primary-key) order. */
  function IdsAscending(next: int): (r: seq<int>)
    ensures forall id :: id in r <==> 1 <= id < next
    ensures forall k :: 0 <= k < |r| ==> 1 <= r[k] < next
    ensures Ascending(r)
    decreases next
  {
    if next <= 1 then []
    else
      var rest := IdsAscending(next - 1);
      rest + [next - 1]
  }

  /** A `WHERE` clause: the ids of `ids` that are keys of `m` and whose row
      satisfies `keep`, in the order they come in. */
  function SelectIds<V>(m: map<int, V>, ids: seq<int>, keep: V -> bool): (r: seq<int>)
    ensures forall id :: id in r <==> id in ids && id in m && keep(m[id])
    ensures forall k :: 0 <= k < |r| ==> r[k] in m && keep(m[r[k]])
    ensures |r| <= |ids|
  {
    if ids == [] then []
    else
      var rest := SelectIds(m, ids[1..], keep);
      assert forall id :: id in ids <==> id == ids[0] || id in ids[1..];
      if ids[0] in m && keep(m[ids[0]]) then [ids[0]] + rest else rest
  }

  /** Scanning the ids the counter has handed out, highest first, reaches
      every row of the table that passes the filter. */
  lemma SelectIdsComplete<V>(m: map<int, V>, next: int, keep: V -> bool, id: int)
    requires IdsBelow(m, next) && id in m && keep(m[id])
    ensures exists k ::
      0 <= k < |SelectIds(m, IdsDescending(next), keep)| && SelectIds(m, IdsDescending(next), keep)[k] == id
  {
    var sel := SelectIds(m, IdsDescending(next), keep);
    assert id in IdsDescending(next);
    assert id in sel;
  }

  /** Every id `SelectIds` keeps is bounded by the first (largest) one offered. */
  lemma {:induction false} SelectIdsBelowFirst<V>(m: map<int, V>, ids: seq<int>, keep: V -> bool)
    requires Descending(ids) && |ids| > 0
    ensures forall k :: 0 <= k < |SelectIds(m, ids, keep)| ==> SelectIds(m, ids, keep)[k] <= ids[0]
    decreases |ids|
  {
    if |ids| > 1 {
      SelectIdsBelowFirst(m, ids[1..], keep);
    }
  }

  /** Filtering keeps the descending order of the ids. */
  lemma {:induction false} SelectIdsDescending<V>(m: map<int, V>, ids: seq<int>, keep: V -> bool)
    requires Descending(ids)
    ensures Descending(SelectIds(m, ids, keep))
    decreases |ids|
  {
    if ids != [] {
      SelectIdsDescending(m, ids[1..], keep);
      if |ids| > 1 {
        SelectIdsBelowFirst(m, ids[1..], keep);
      }
    }
  }

  /** Every id `SelectIds` keeps is at least the first (smallest) one offered. */
  lemma {:induction false} SelectIdsAboveFirst<V>(m: map<int, V>, ids: seq<int>, keep: V -> bool)
    requires Ascending(ids) && |ids| > 0
    ensures forall k :: 0 <= k < |SelectIds(m, ids, keep)| ==> SelectIds(m, ids, keep)[k] >= ids[0]
    decreases |ids|
  {
    if |ids| > 1 {
      SelectIdsAboveFirst(m, ids[1..], keep);
    }
  }

  /** Filtering keeps the ascending order of the ids. */
  lemma {:induction false} SelectIdsAscending<V>(m: map<int, V>, ids: seq<int>, keep: V -> bool)
    requires Ascending(ids)
    ensures Ascending(SelectIds(m, ids, keep))
    decreases |ids|
  {
    if ids != [] {
      SelectIdsAscending(m, ids[1..], keep);
      if |ids| > 1 {
        SelectIdsAboveFirst(m, ids[1..], keep);
      }
    }
  }
}
