/** The read side of the product and category routes: the active listing,
    the lookup by id, the listing by category and the category listing, with
    the ordering each query asks for. */
module Catalogue {
  import opened Tables

  /** `ORDER BY Nombre`: lexicographic order on character codes. */
  predicate NameLe(a: string, b: string)
    decreases |a|
  {
    a == [] || (b != [] && (a[0] < b[0] || (a[0] == b[0] && NameLe(a[1..], b[1..]))))
  }

  lemma {:induction false} NameLeTotal(a: string, b: string)
    ensures NameLe(a, b) || NameLe(b, a)
    decreases |a|
  {
    if a != [] && b != [] && a[0] == b[0] {
      NameLeTotal(a[1..], b[1..]);
    }
  }

  lemma {:induction false} NameLeTransitive(a: string, b: string, c: string)
    requires NameLe(a, b) && NameLe(b, c)
    ensures NameLe(a, c)
    decreases |a|
  {
    if a != [] && a[0] == b[0] && b[0] == c[0] {
      NameLeTransitive(a[1..], b[1..], c[1..]);
    }
  }

  predicate SortedBy<T>(s: seq<T>, key: T -> string)
  {
    forall j, k :: 0 <= j < k < |s| ==> NameLe(key(s[j]), key(s[k]))
  }

  /** A lower bound of `s` and of `x` is a lower bound of any sequence that
      holds the elements of `s` and `x`. */
  lemma LowerBoundKept<T>(y: T, x: T, s: seq<T>, r: seq<T>, key: T -> string)
    requires forall k :: 0 <= k < |s| ==> NameLe(key(y), key(s[k]))
    requires NameLe(key(y), key(x))
    requires multiset(r) == multiset(s) + multiset{x}
    ensures forall k :: 0 <= k < |r| ==> NameLe(key(y), key(r[k]))
  {
    forall k | 0 <= k < |r| ensures NameLe(key(y), key(r[k])) {
      assert r[k] in multiset(r);
      if r[k] != x {
        assert r[k] in multiset(s);
        assert r[k] in s;
      }
    }
  }

  /** Puts `x` in front of the first element whose key is not smaller. */
  function Insert<T>(x: T, s: seq<T>, key: T -> string): (r: seq<T>)
    requires SortedBy(s, key)
    ensures SortedBy(r, key)
    ensures multiset(r) == multiset(s) + multiset{x}
    ensures |r| == |s| + 1
  {
    if s == [] then [x]
    else if NameLe(key(x), key(s[0])) then
      forall k | 0 <= k < |s| ensures NameLe(key(x), key(s[k])) {
        if k > 0 { NameLeTransitive(key(x), key(s[0]), key(s[k])); }
      }
      [x] + s
    else
      NameLeTotal(key(x), key(s[0]));
      var rest := Insert(x, s[1..], key);
      LowerBoundKept(s[0], x, s[1..], rest, key);
      assert s == [s[0]] + s[1..];
      [s[0]] + rest
  }

  /** An insertion sort by `key`: sorted, and a permutation of its input. */
  function SortBy<T>(s: seq<T>, key: T -> string): (r: seq<T>)
    ensures SortedBy(r, key)
    ensures multiset(r) == multiset(s)
    ensures |r| == |s|
  {
    if s == [] then []
    else
      assert s == [s[0]] + s[1..];
      Insert(s[0], SortBy(s[1..], key), key)
  }

  /** A product as the listing queries return it: the row with the name of
      its category (`LEFT JOIN categorias`, so None when that category is
      absent). */
  datatype ProductRow = ProductRow(id: int, product: Product, category: Option<string>)

  /** A category as the category listing returns it. */
  datatype CategoryRow = CategoryRow(id: int, category: Category)

  function CategoryName(cats: map<int, Category>, categoryId: int): Option<string>
  {
    if categoryId in cats then Some(cats[categoryId].name) else None
  }

  function RowOf(ps: map<int, Product>, cats: map<int, Category>, id: int): ProductRow
    requires id in ps
  {
    ProductRow(id, ps[id], CategoryName(cats, ps[id].fields.categoryId))
  }

  function RowsOf(ps: map<int, Product>, cats: map<int, Category>, ids: seq<int>): (r: seq<ProductRow>)
    requires forall k :: 0 <= k < |ids| ==> ids[k] in ps
    ensures |r| == |ids| && forall k :: 0 <= k < |r| ==> r[k] == RowOf(ps, cats, ids[k])
  {
    seq(|ids|, k requires 0 <= k < |ids| => RowOf(ps, cats, ids[k]))
  }

  function ProductName(row: ProductRow): string
  {
    row.product.fields.name
  }

  function CategoryRowName(row: CategoryRow): string
  {
    row.category.name
  }

  /** The products whose row satisfies `keep`, highest id first, each with
      its category name: the shape shared by the product listings. */
  function RowsWhere(ps: map<int, Product>, cats: map<int, Category>, next: int, keep: Product -> bool): (r: seq<ProductRow>)
    ensures forall k :: 0 <= k < |r| ==> r[k].id in ps && keep(ps[r[k].id]) && r[k] == RowOf(ps, cats, r[k].id)
    ensures IdsBelow(ps, next) ==>
      forall id :: id in ps && keep(ps[id]) ==> exists k :: 0 <= k < |r| && r[k].id == id
    ensures forall j, k :: 0 <= j < k < |r| ==> r[j].id > r[k].id
  {
    var sel := SelectIds(ps, IdsDescending(next), keep);
    SelectIdsDescending(ps, IdsDescending(next), keep);
    var r := RowsOf(ps, cats, sel);
    assert forall k :: 0 <= k < |r| ==> r[k].id == sel[k];
    assert IdsBelow(ps, next) ==>
      forall id :: id in ps && keep(ps[id]) ==> exists k :: 0 <= k < |r| && r[k].id == id by {
      if IdsBelow(ps, next) {
        forall id | id in ps && keep(ps[id]) ensures exists k :: 0 <= k < |r| && r[k].id == id {
          SelectIdsComplete(ps, next, keep, id);
          var k :| 0 <= k < |sel| && sel[k] == id;
          assert r[k].id == id;
        }
      }
    }
    r
  }

  /** GET /api/productos: the active products, highest id first. */
  function ActiveProducts(ps: map<int, Product>, cats: map<int, Category>, next: int): (r: seq<ProductRow>)
    ensures forall k :: 0 <= k < |r| ==> r[k].id in ps && ps[r[k].id].active && r[k] == RowOf(ps, cats, r[k].id)
    ensures IdsBelow(ps, next) ==>
      forall id :: id in ps && ps[id].active ==> exists k :: 0 <= k < |r| && r[k].id == id
    ensures forall j, k :: 0 <= j < k < |r| ==> r[j].id > r[k].id
  {
    RowsWhere(ps, cats, next, (p: Product) => p.active)
  }

  /** GET /api/productos/:id: the product when it exists and is active. */
  function ProductById(ps: map<int, Product>, cats: map<int, Category>, id: int): (r: Option<ProductRow>)
    ensures r.Some? <==> id in ps && ps[id].active
    ensures r.Some? ==> r.value.id == id && r.value.product == ps[id]
    ensures r.Some? ==> r.value.category == CategoryName(cats, ps[id].fields.categoryId)
  {
    if id in ps && ps[id].active then Some(RowOf(ps, cats, id)) else None
  }

  predicate InCategory(p: Product, categoryId: int)
  {
    p.active && p.fields.categoryId == categoryId
  }

  /** The rows of the category query before `ORDER BY Nombre`. */
  function CategoryMatches(ps: map<int, Product>, cats: map<int, Category>, next: int, categoryId: int): (r: seq<ProductRow>)
    ensures forall k :: 0 <= k < |r| ==>
      r[k].id in ps && InCategory(ps[r[k].id], categoryId) && r[k] == RowOf(ps, cats, r[k].id)
    ensures IdsBelow(ps, next) ==>
      forall id :: id in ps && InCategory(ps[id], categoryId) ==> exists k :: 0 <= k < |r| && r[k].id == id
    ensures forall j, k :: 0 <= j < k < |r| ==> r[j].id > r[k].id
  {
    RowsWhere(ps, cats, next, (p: Product) => InCategory(p, categoryId))
  }

  /** An element of one of two sequences with the same elements occurs in
      the other. */
  lemma SameElements<T>(a: seq<T>, b: seq<T>, k: int)
    requires multiset(a) == multiset(b) && 0 <= k < |a|
    ensures exists j :: 0 <= j < |b| && b[j] == a[k]
  {
    assert a[k] in multiset(a);
    assert a[k] in multiset(b);
    assert a[k] in b;
  }

  /** GET /api/productos/categoria/:id: the active products of one category,
      ordered by name. */
  function ProductsInCategory(ps: map<int, Product>, cats: map<int, Category>, next: int, categoryId: int): (r: seq<ProductRow>)
    ensures SortedBy(r, ProductName)
    ensures multiset(r) == multiset(CategoryMatches(ps, cats, next, categoryId))
    ensures forall k :: 0 <= k < |r| ==>
      r[k].id in ps && InCategory(ps[r[k].id], categoryId) && r[k] == RowOf(ps, cats, r[k].id)
    ensures IdsBelow(ps, next) ==>
      forall id :: id in ps && InCategory(ps[id], categoryId) ==> exists k :: 0 <= k < |r| && r[k].id == id
  {
    var u := CategoryMatches(ps, cats, next, categoryId);
    var r := SortBy(u, ProductName);
    forall k | 0 <= k < |r|
      ensures r[k].id in ps && InCategory(ps[r[k].id], categoryId) && r[k] == RowOf(ps, cats, r[k].id)
    {
      SameElements(r, u, k);
    }
    assert IdsBelow(ps, next) ==>
      forall id :: id in ps && InCategory(ps[id], categoryId) ==> exists k :: 0 <= k < |r| && r[k].id == id by {
      if IdsBelow(ps, next) {
        forall id | id in ps && InCategory(ps[id], categoryId) ensures exists k :: 0 <= k < |r| && r[k].id == id {
          var j :| 0 <= j < |u| && u[j].id == id;
          SameElements(u, r, j);
        }
      }
    }
    r
  }

  /** The rows of the category listing before `ORDER BY Nombre`. */
  function CategoryRows(cats: map<int, Category>, next: int): (r: seq<CategoryRow>)
    ensures forall k :: 0 <= k < |r| ==>
      r[k].id in cats && cats[r[k].id].active && r[k].category == cats[r[k].id]
    ensures IdsBelow(cats, next) ==>
      forall id :: id in cats && cats[id].active ==> exists k :: 0 <= k < |r| && r[k].id == id
    ensures forall j, k :: 0 <= j < k < |r| ==> r[j].id > r[k].id
  {
    var keep := (c: Category) => c.active;
    var sel := SelectIds(cats, IdsDescending(next), keep);
    SelectIdsDescending(cats, IdsDescending(next), keep);
    var r := seq(|sel|, k requires 0 <= k < |sel| => CategoryRow(sel[k], cats[sel[k]]));
    assert IdsBelow(cats, next) ==>
      forall id :: id in cats && cats[id].active ==> exists k :: 0 <= k < |r| && r[k].id == id by {
      if IdsBelow(cats, next) {
        forall id | id in cats && cats[id].active ensures exists k :: 0 <= k < |r| && r[k].id == id {
          SelectIdsComplete(cats, next, keep, id);
          var k :| 0 <= k < |sel| && sel[k] == id;
          assert r[k].id == id;
        }
      }
    }
    r
  }

  /** GET /api/categorias: the active categories, ordered by name. */
  function ActiveCategories(cats: map<int, Category>, next: int): (r: seq<CategoryRow>)
    ensures SortedBy(r, CategoryRowName)
    ensures multiset(r) == multiset(CategoryRows(cats, next))
    ensures forall k :: 0 <= k < |r| ==>
      r[k].id in cats && cats[r[k].id].active && r[k].category == cats[r[k].id]
    ensures IdsBelow(cats, next) ==>
      forall id :: id in cats && cats[id].active ==> exists k :: 0 <= k < |r| && r[k].id == id
  {
    var u := CategoryRows(cats, next);
    var r := SortBy(u, CategoryRowName);
    forall k | 0 <= k < |r|
      ensures r[k].id in cats && cats[r[k].id].active && r[k].category == cats[r[k].id]
    {
      SameElements(r, u, k);
    }
    assert IdsBelow(cats, next) ==>
      forall id :: id in cats && cats[id].active ==> exists k :: 0 <= k < |r| && r[k].id == id by {
      if IdsBelow(cats, next) {
        forall id | id in cats && cats[id].active ensures exists k :: 0 <= k < |r| && r[k].id == id {
          var j :| 0 <= j < |u| && u[j].id == id;
          SameElements(u, r, j);
        }
      }
    }
    r
  }

  /** The by-id lookup and the active listing agree: a product is found by
      id exactly when the listing shows it, and then with the same row. */
  lemma LookupAgreesWithListing(ps: map<int, Product>, cats: map<int, Category>, next: int, id: int)
    requires IdsBelow(ps, next)
    ensures ProductById(ps, cats, id).Some? <==>
      exists k :: 0 <= k < |ActiveProducts(ps, cats, next)| && ActiveProducts(ps, cats, next)[k].id == id
    ensures forall k :: 0 <= k < |ActiveProducts(ps, cats, next)| && ActiveProducts(ps, cats, next)[k].id == id ==>
      ProductById(ps, cats, id) == Some(ActiveProducts(ps, cats, next)[k])
  {
    var r := ActiveProducts(ps, cats, next);
    if exists k :: 0 <= k < |r| && r[k].id == id {
      var k :| 0 <= k < |r| && r[k].id == id;
      assert id in ps && ps[id].active;
    }
  }

  /** DELETE /api/productos/:id: `UPDATE productos SET Activo = FALSE`. */
  function Deactivated(ps: map<int, Product>, id: int): (r: map<int, Product>)
    ensures r.Keys == ps.Keys
    ensures forall other :: other in ps ==> r[other].fields == ps[other].fields
    ensures forall other :: other in ps && other != id ==> r[other] == ps[other]
    ensures id in ps ==> !r[id].active
  {
    if id in ps then ps[id := ps[id].(active := false)] else ps
  }

  /** After a soft delete the row is still there, but neither the listing nor
      the lookup by id shows it; every other product reads as before. */
  lemma SoftDeleteHides(ps: map<int, Product>, cats: map<int, Category>, next: int, id: int)
    ensures ProductById(Deactivated(ps, id), cats, id) == None
    ensures forall k :: 0 <= k < |ActiveProducts(Deactivated(ps, id), cats, next)| ==>
      ActiveProducts(Deactivated(ps, id), cats, next)[k].id != id
    ensures forall other :: other != id ==>
      ProductById(Deactivated(ps, id), cats, other) == ProductById(ps, cats, other)
  {
  }
}
