# Six Pack Store backend, modelled in Dafny

The model covers the business rules of the Six Pack Store storefront API (`backend/server.js`). It has five MariaDB tables: productos, categorias, clientes, pedidos and detalle_pedidos. The model keeps them in one `Store` object:

- Each table is a map from its auto-increment id to its row.
- Each id counter only grows. It stands for the database's `insertId`.
- detalle_pedidos is only ever appended to, so it is a sequence. The line item at position i has id i + 1.

The routes that write are methods of `Store`, with frames on the fields they change:

- the order placement (`POST /api/pedidos`) and its three steps
- product create, update and soft delete
- the order status update

The read routes are pure functions over the tables:

- the active product listing
- the lookup by id
- the listing by category
- the category listing
- the order detail

Files:

- `tables.dfy` (module `Tables`) holds:
  - the rows
  - `Option`
  - the id ranges 1 .. next-1 in both orders
  - `SelectIds`, the `WHERE` filter that keeps id order
- `catalogue.dfy` (module `Catalogue`) holds:
  - the product and category read routes
  - the insertion sort behind `ORDER BY Nombre`
  - the soft delete and what it hides
- `orders.dfy` (module `Orders`) holds:
  - the phone lookup and the customer upsert
  - the line items
  - the stock fold over the submitted lines
  - the order detail query
- `store.dfy` (module `Storefront`) holds:
  - the class `Store` and its invariant `Valid`
  - the write routes
  - three client scenarios

`Store.Valid` says:

- every stored id lies below its counter
- every order refers to a customer on file
- every line item refers to an order on file

Every write method keeps `Valid`.

Three behaviours of the code are easy to miss, and the model keeps them:

- The lookup by id filters on `Activo` (`backend/server.js:41`), so a soft-deleted product is not found.
- Placing an order has no transaction and no stock check. Stock may go below zero.
- The total is stored as submitted, not recomputed from the lines.

## Model

| member | source | states |
|---|---|---|
| Storefront.Store.PlaceOrder | backend/server.js:135-187 | The order gets the next order id, which is also the returned `pedidoId`. It has status Pendiente and stores the submitted total, delivery type and notes unchanged; no other order changes. Its customer is the one the phone upsert settled on. Exactly one line item is appended per submitted line, in order. Every product's stock drops by the sum of its lines' quantities, and nothing else about it changes. No earlier line item belongs to the new order, and the order detail finds it. |
| Storefront.Store.ResolveCustomer | backend/server.js:139-158 | When the phone is on file, that customer's id is reused, its fields are overwritten except the phone, and the counter stays. Otherwise the submitted customer is inserted under the next id and the counter grows by one. The invariant is kept. |
| Storefront.Store.InsertOrder | backend/server.js:160-166 | The pedidos row goes in under the counter's id, which was free, and the counter grows by one. |
| Storefront.Store.InsertLines | backend/server.js:168-177 | After the loop the table is the old one plus one line item per submitted line, in submission order. Each product's stock is its old stock minus the quantities its lines ask for, with no lower bound. No product appears, disappears or changes otherwise. |
| Storefront.Store.AddLineItem | backend/server.js:170-176 | One loop turn appends the line item and decrements that product's stock by the quantity. An unknown product id leaves the products alone. |
| Storefront.Store.CreateProduct | backend/server.js:72-89 | The row goes in under a fresh id with the ten submitted columns and Activo true, and the by-id lookup then finds it. |
| Storefront.Store.UpdateProduct | backend/server.js:92-108 | The product with that id gets the submitted ten columns and keeps its Activo. Every other product is unchanged, and an unknown id changes nothing. |
| Storefront.Store.DeleteProduct | backend/server.js:111-118 | Only Activo is cleared and no row is removed. Afterwards the by-id lookup reports not found and the active listing does not show the id. |
| Storefront.Store.UpdateOrderStatus | backend/server.js:235-243 | Only Estado of that order changes. No other order and no other field changes, and an unknown id changes nothing. |
| Orders.FindByPhone | backend/server.js:141-144 | A Some result is a customer with that phone and the lowest such id; the select has no `ORDER BY`, and the model takes the lowest id as the first row. None holds exactly when no customer has the phone. |
| Orders.Overwrite | backend/server.js:146-150 | The stored phone is kept. Every other field is the submitted one. |
| Orders.Upserted | backend/server.js:139-158 | The customer step relates the table before and after: afterwards the settled id holds exactly the submitted customer, because the found row keeps a phone equal to the submitted one. Every other customer is unchanged. |
| Orders.UpsertFinds | backend/server.js:139-158 | After the upsert, looking up the phone finds the id the upsert settled on. Phone numbers stay unique if they were. |
| Orders.UpsertKeys | backend/server.js:139-158 | The upsert removes no customer and adds at most the id it settled on. Ids stay below the counter. |
| Orders.UpsertCount | backend/server.js:143-158 | A known phone adds no customer. An unknown phone adds exactly one: the submitted customer, phone included, under an id that was free. |
| Orders.FindAfterOverwrite | backend/server.js:143-150 | Overwriting the found customer does not change what the phone lookup finds. |
| Orders.FindAfterInsert | backend/server.js:151-158 | Inserting a customer whose phone was absent makes the lookup find the new id. |
| Orders.LineFor | backend/server.js:170-173 | The line item carries the order id, product, quantity and unit price, and its subtotal is quantity × unit price. |
| Orders.LinesFor | backend/server.js:169-173 | The loop inserts one line item per submitted line, in submission order. Each one is the LineFor of its line. |
| Orders.Decrement | backend/server.js:176 | One stock update lowers only the addressed product's stock, by the quantity and with no lower bound. No row appears or disappears, and an unknown product id changes nothing. |
| Orders.ApplyStock | backend/server.js:169-177 | The stock updates of the whole loop keep every product row, its Activo and every column except Stock. |
| Orders.StockAfter | backend/server.js:169-177 | Folding the stock decrements over the lines leaves every product's stock at old stock minus the total quantity of its lines. Nothing else about any product changes, and no product appears or disappears. |
| Orders.QuantityOfUnreferenced | backend/server.js:176 | A product that no line mentions loses no stock. |
| Orders.LineIdsOf | backend/server.js:218-223 | The detail lists exactly the line items of the order whose product row exists. No other line item is listed. |
| Orders.LineIdsAscending | backend/server.js:218-223 | The detail lines come in ascending line id order. |
| Orders.LineIdsOfAbsent | backend/server.js:218-223 | An order that no line item mentions has no detail lines. |
| Orders.LineIdsOfNewOrder | backend/server.js:168-177 | Once all products exist, the freshly placed order's detail lists every submitted line. The lines come in submission order, under the ids the appends gave them. |
| Orders.DetailRows | backend/server.js:218-223 | There is one detail row per line item of the order whose product exists. Each row is that line item under its id, with the product's name and image URL from the join with productos. |
| Orders.Summary | backend/server.js:208 | These are the six customer columns the detail select returns, copied unchanged. Codigo_Postal is not among them. |
| Orders.OrderDetail | backend/server.js:205-232 | Not found exactly when no order has the id, or its customer row is missing (the join is inner). Otherwise it returns the order, the six customer columns the query selects (Nombre, Telefono, Email, Direccion, Colonia, Ciudad; not Codigo_Postal) and its detail lines. |
| Catalogue.ActiveProducts | backend/server.js:19-27 | Every listed row is an active product with its category name. Every active product is listed. The ids are strictly descending. |
| Catalogue.ProductById | backend/server.js:35-46 | Found exactly when the product exists and is active. A found row carries that id, that product and the name of its category (None when the category row is absent). |
| Catalogue.LookupAgreesWithListing | backend/server.js:19-46 | A product is found by id exactly when the active listing shows it, and then with the same row. |
| Catalogue.CategoryMatches | backend/server.js:58-61 | The category filter keeps exactly the active products of that category, each with its category name, each id once. |
| Catalogue.ProductsInCategory | backend/server.js:55-63 | Exactly the active products of the category are listed, each with its category name. The list is sorted by name and is a permutation of the filtered rows. |
| Catalogue.CategoryRows | backend/server.js:125 | The category filter keeps exactly the active categories, each with its row, each id once. |
| Catalogue.ActiveCategories | backend/server.js:123-130 | Exactly the active categories are listed, sorted by name, as a permutation of the filtered rows. |
| Catalogue.SortBy | backend/server.js:62 | The result is sorted by the key and is a permutation of the input. |
| Catalogue.NameLeTotal | backend/server.js:62 | Any two names are ordered one way or the other. |
| Catalogue.NameLeTransitive | backend/server.js:62 | The name order is transitive. |
| Catalogue.Deactivated | backend/server.js:113 | The soft delete keeps every row and every product's columns. Only Activo of the addressed product goes false. |
| Catalogue.SoftDeleteHides | backend/server.js:111-118 | After a soft delete neither the by-id lookup nor the active listing shows the product. Every other product's lookup is unchanged. |
| Tables.SelectIds | backend/server.js:25 | The `WHERE` filter keeps exactly the offered ids whose row exists and passes the condition. |
| Tables.SelectIdsDescending | backend/server.js:26 | Filtering ids offered in descending order keeps them descending. |
| Tables.SelectIdsAscending | backend/server.js:141 | Filtering ids offered in ascending order keeps them ascending. |

## Left out

- `backend/db.js` (the mariadb connection pool): connection handling only. It is not part of this model.
- Express routing, CORS, body parsing, HTTP status codes, JSON responses, `app.listen` and logging: these are I/O.
- The environment configuration (`process.env`): it only selects ports and database names.
- `GET /api/pedidos`, the order listing: it is a join ordered on the server-assigned timestamp Fecha_Pedido. Fecha_Pedido is not modelled, because it comes from the database clock.
- Database errors and a failure part way through the line loop: these raise foreign exceptions. The model runs each route to the end.
- Concurrent requests: every route is modelled as one atomic step of the store.
- Money and quantities are integers. The source's JavaScript numbers (floats) and the column types are not modelled.
- The columns Tipo_Presentacion, Volumen and Grados_Alcohol are strings, because the schema is not visible.
- Storefront.Store.CreateProduct: the insert omits Activo. The model assumes the column defaults to true, because the schema is not visible.
- Storefront.Store.AddLineItem: the model assumes detalle_pedidos has no foreign key on ID_Producto, because the schema is not visible. So a line item whose product has no productos row is still appended, and the detail's inner join hides it later. With such a foreign key, that insert would fail. The earlier lines and stock updates would stay, the later lines would never be processed, and the client would get a 500.
- Orders.FindByPhone: the select has no `ORDER BY`, so the model takes the row with the lowest id as the first row. Phones are matched by exact string equality. The column's collation is not modelled, because the schema is not visible. A default case-insensitive PAD SPACE collation would also match phones that differ only in case or trailing spaces. Such a phone reuses the customer in the source, but the model inserts a new one.
- Orders.LineIdsOf: the detail select has no `ORDER BY`. The model returns the rows in insertion order.
- Catalogue.NameLeTotal: `ORDER BY Nombre` is modelled as plain lexicographic order on character codes. The database collation (case and accent folding) is not modelled.
- Catalogue.ActiveProducts: the listings scan the ids the counters have handed out (1 .. next-1). Completeness is stated under the store invariant that every id lies in that range.
- Storefront.Store.PlaceOrder: it does not restate the phone lookup after the upsert, nor phone uniqueness. `Orders.UpsertFinds` and `Orders.UpsertCount` state these about the `Upserted` relation that `PlaceOrder` ensures.
- The root route `/`: it returns a fixed message.
