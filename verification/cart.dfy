/**
 The shopping cart of the storefront page (script.js:254-302): an ordered list
 of line items, a derived item count and the count badge in the header.

 Items are kept in the order their product was first added; adding a product
 already in the cart bumps its quantity instead of appending. The price is a
 type parameter: the cart stores it and never looks at it.
 */
module Cart {
  import opened Options

  datatype Item<P> = Item(id: string, name: string, price: P, quantity: int)

  /** One "add to cart" request: product identity, label and price. */
  datatype Product<P> = Product(id: string, name: string, price: P)

  /** Every identifier occurs at most once in the cart. */
  predicate UniqueIds<P>(c: seq<Item<P>>) {
    forall i, j :: 0 <= i < j < |c| ==> c[i].id != c[j].id
  }

  /** The identifiers present in the cart. */
  function Ids<P>(c: seq<Item<P>>): set<string> {
    set i | 0 <= i < |c| :: c[i].id
  }

  /** Position of the first item carrying `id`, as the script's `find` returns it. */
  function Find<P>(c: seq<Item<P>>, id: string): (r: Option<nat>)
    ensures r.Some? ==> r.value < |c| && c[r.value].id == id
    ensures r.Some? ==> forall j :: 0 <= j < r.value ==> c[j].id != id
    ensures r.None? <==> id !in Ids(c)
  {
    if c == [] then None
    else if c[0].id == id then Some(0)
    else match Find(c[1..], id)
      case None => assert Ids(c) == {c[0].id} + Ids(c[1..]); None
      case Some(k) => Some(k + 1)
  }

  /** Total number of units in the cart: the sum of all quantities. */
  function Count<P>(c: seq<Item<P>>): int {
    if c == [] then 0 else c[0].quantity + Count(c[1..])
  }

  lemma {:induction false} CountAppend<P>(a: seq<Item<P>>, b: seq<Item<P>>)
    ensures Count(a + b) == Count(a) + Count(b)
    decreases |a|
  {
    if a != [] {
      assert (a + b)[1..] == a[1..] + b;
      CountAppend(a[1..], b);
    } else {
      assert a + b == b;
    }
  }

  /** Raising one item's quantity by `d` raises the count by `d`. */
  lemma {:induction false} CountBump<P>(c: seq<Item<P>>, k: nat, d: int)
    requires k < |c|
    ensures Count(c[k := c[k].(quantity := c[k].quantity + d)]) == Count(c) + d
    decreases k
  {
    var c' := c[k := c[k].(quantity := c[k].quantity + d)];
    if k > 0 {
      assert c'[1..] == c[1..][k - 1 := c[k].(quantity := c[k].quantity + d)];
      CountBump(c[1..], k - 1, d);
    } else {
      assert c'[1..] == c[1..];
    }
  }

  /** Every item has a positive quantity. */
  predicate PositiveQuantities<P>(c: seq<Item<P>>) {
    forall i :: 0 <= i < |c| ==> c[i].quantity >= 1
  }

  lemma {:induction false} CountPositive<P>(c: seq<Item<P>>)
    requires PositiveQuantities(c)
    ensures Count(c) >= |c|
    decreases |c|
  {
    if c != [] {
      CountPositive(c[1..]);
    }
  }

  /** The script's reduce: a left-to-right running total of the quantities. */
  method UpdateCartCount<P>(c: seq<Item<P>>) returns (total: int)
    ensures total == Count(c)
    ensures PositiveQuantities(c) ==> total >= |c|
  {
    total := 0;
    var i := 0;
    while i < |c|
      invariant 0 <= i <= |c|
      invariant total == Count(c[..i])
    {
      assert c[..i + 1] == c[..i] + [c[i]];
      CountAppend(c[..i], [c[i]]);
      assert Count([c[i]]) == c[i].quantity + Count([c[i]][1..]);
      total := total + c[i].quantity;
      i := i + 1;
    }
    assert c[..i] == c;
    if PositiveQuantities(c) {
      CountPositive(c);
    }
  }

  /** Adds one unit of a product: bump its quantity if present, else append it. */
  function AddToCart<P>(c: seq<Item<P>>, id: string, name: string, price: P): (r: seq<Item<P>>)
    ensures Ids(r) == Ids(c) + {id}
    ensures id in Ids(c) ==> |r| == |c|
    ensures id in Ids(c) ==> forall i :: 0 <= i < |c| && c[i].id != id ==> r[i] == c[i]
    ensures id in Ids(c) ==> forall i :: 0 <= i < |c| && c[i].id == id ==>
              && r[i].id == c[i].id && r[i].name == c[i].name && r[i].price == c[i].price
    ensures id in Ids(c) && UniqueIds(c) ==> forall i :: 0 <= i < |c| && c[i].id == id ==>
              r[i].quantity == c[i].quantity + 1
    ensures id !in Ids(c) ==> r == c + [Item(id, name, price, 1)]
  {
    match Find(c, id)
    case Some(k) =>
      var r := c[k := c[k].(quantity := c[k].quantity + 1)];
      assert forall i :: 0 <= i < |r| ==> r[i].id == c[i].id;
      assert Ids(r) == Ids(c);
      r
    case None =>
      var r := c + [Item(id, name, price, 1)];
      assert Ids(r) == Ids(c) + {id} by {
        assert r[|c|].id == id;
        forall x | x in Ids(c) ensures x in Ids(r) {
          var i :| 0 <= i < |c| && c[i].id == x;
          assert r[i].id == x;
        }
      }
      r
  }

  /** Sum of the quantities of the items carrying `id`. */
  function QuantityOf<P>(c: seq<Item<P>>, id: string): int {
    if c == [] then 0
    else (if c[0].id == id then c[0].quantity else 0) + QuantityOf(c[1..], id)
  }

  lemma {:induction false} QuantityOfAppend<P>(a: seq<Item<P>>, b: seq<Item<P>>, id: string)
    ensures QuantityOf(a + b, id) == QuantityOf(a, id) + QuantityOf(b, id)
    decreases |a|
  {
    if a != [] {
      assert (a + b)[1..] == a[1..] + b;
      QuantityOfAppend(a[1..], b, id);
    } else {
      assert a + b == b;
    }
  }

  lemma {:induction false} QuantityOfBump<P>(c: seq<Item<P>>, k: nat, id: string)
    requires k < |c|
    ensures QuantityOf(c[k := c[k].(quantity := c[k].quantity + 1)], id)
         == QuantityOf(c, id) + (if c[k].id == id then 1 else 0)
    decreases k
  {
    var c' := c[k := c[k].(quantity := c[k].quantity + 1)];
    if k > 0 {
      assert c'[1..] == c[1..][k - 1 := c[k].(quantity := c[k].quantity + 1)];
      QuantityOfBump(c[1..], k - 1, id);
    } else {
      assert c'[1..] == c[1..];
    }
  }

  /** Adding a product raises the count by exactly one, all of it on that product. */
  lemma AddToCartCounts<P>(c: seq<Item<P>>, id: string, name: string, price: P, other: string)
    ensures Count(AddToCart(c, id, name, price)) == Count(c) + 1
    ensures QuantityOf(AddToCart(c, id, name, price), other)
         == QuantityOf(c, other) + (if other == id then 1 else 0)
  {
    var singleton := [Item(id, name, price, 1)];
    assert Count(singleton) == 1 + Count(singleton[1..]);
    assert QuantityOf(singleton, other) == (if other == id then 1 else 0) + QuantityOf(singleton[1..], other);
    match Find(c, id)
    case Some(k) =>
      CountBump(c, k, 1);
      QuantityOfBump(c, k, other);
    case None =>
      CountAppend(c, singleton);
      QuantityOfAppend(c, singleton, other);
  }

  /** Adding a product keeps identifiers unique and quantities positive. */
  lemma AddToCartKeepsInvariant<P>(c: seq<Item<P>>, id: string, name: string, price: P)
    requires UniqueIds(c) && PositiveQuantities(c)
    ensures UniqueIds(AddToCart(c, id, name, price))
    ensures PositiveQuantities(AddToCart(c, id, name, price))
  {
    if id !in Ids(c) {
      forall i | 0 <= i < |c| ensures c[i].id != id {
        assert c[i].id in Ids(c);
      }
    }
  }

  /** What the header badge shows: the count, and whether it is displayed at all. */
  datatype Badge = Badge(text: int, visible: bool)

  function CartBadge<P>(c: seq<Item<P>>): (b: Badge)
    ensures b.text == Count(c)
    ensures b.visible <==> Count(c) > 0
  {
    var count := Count(c);
    Badge(count, count > 0)
  }

  /** After any add on a cart whose quantities are positive, the badge is shown. */
  lemma BadgeShownAfterAdd<P>(c: seq<Item<P>>, id: string, name: string, price: P)
    requires PositiveQuantities(c)
    ensures CartBadge(AddToCart(c, id, name, price)).visible
  {
    AddToCartCounts(c, id, name, price, id);
    CountPositive(c);
  }

  /** The cart after handling a sequence of add requests in order. */
  function AddAll<P>(c: seq<Item<P>>, products: seq<Product<P>>): seq<Item<P>>
    decreases |products|
  {
    if products == [] then c
    else AddAll(AddToCart(c, products[0].id, products[0].name, products[0].price), products[1..])
  }

  /** How many requests in `products` name `id`. */
  function Requests<P>(products: seq<Product<P>>, id: string): nat {
    if products == [] then 0
    else (if products[0].id == id then 1 else 0) + Requests(products[1..], id)
  }

  /** The identifiers named by a sequence of requests. */
  function RequestedIds<P>(products: seq<Product<P>>): set<string> {
    set i | 0 <= i < |products| :: products[i].id
  }

  lemma RequestedIdsCons<P>(products: seq<Product<P>>)
    requires products != []
    ensures RequestedIds(products) == {products[0].id} + RequestedIds(products[1..])
  {
    forall x | x in RequestedIds(products[1..]) ensures x in RequestedIds(products) {
      var i :| 0 <= i < |products[1..]| && products[1..][i].id == x;
      assert products[i + 1].id == x;
    }
  }

  /** A sequence of adds keeps identifiers unique and quantities positive. */
  lemma {:induction false} AddAllKeepsInvariant<P>(c: seq<Item<P>>, products: seq<Product<P>>)
    requires UniqueIds(c) && PositiveQuantities(c)
    ensures UniqueIds(AddAll(c, products)) && PositiveQuantities(AddAll(c, products))
    decreases |products|
  {
    if products != [] {
      var p := products[0];
      AddToCartKeepsInvariant(c, p.id, p.name, p.price);
      AddAllKeepsInvariant(AddToCart(c, p.id, p.name, p.price), products[1..]);
    }
  }

  /**
   A sequence of adds raises the count by the number of requests and each
   product's quantity by the number of requests naming it.
   */
  lemma {:induction false} AddAllCounts<P>(c: seq<Item<P>>, products: seq<Product<P>>, id: string)
    ensures Count(AddAll(c, products)) == Count(c) + |products|
    ensures QuantityOf(AddAll(c, products), id) == QuantityOf(c, id) + Requests(products, id)
    decreases |products|
  {
    if products != [] {
      var p := products[0];
      AddToCartCounts(c, p.id, p.name, p.price, id);
      AddAllCounts(AddToCart(c, p.id, p.name, p.price), products[1..], id);
    }
  }

  /** A sequence of adds introduces exactly the requested identifiers. */
  lemma {:induction false} AddAllIds<P>(c: seq<Item<P>>, products: seq<Product<P>>)
    ensures Ids(AddAll(c, products)) == Ids(c) + RequestedIds(products)
    decreases |products|
  {
    if products != [] {
      var p := products[0];
      RequestedIdsCons(products);
      AddAllIds(AddToCart(c, p.id, p.name, p.price), products[1..]);
    }
  }

  /** In a cart with unique identifiers, the item count equals the number of identifiers. */
  lemma {:induction false} UniqueIdsCardinality<P>(c: seq<Item<P>>)
    requires UniqueIds(c)
    ensures |Ids(c)| == |c|
    decreases |c|
  {
    if c != [] {
      var last := |c| - 1;
      var init := c[..last];
      assert UniqueIds(init);
      UniqueIdsCardinality(init);
      assert Ids(c) == Ids(init) + {c[last].id} by {
        forall x | x in Ids(c) ensures x in Ids(init) + {c[last].id} {
          var i :| 0 <= i < |c| && c[i].id == x;
          if i < last { assert init[i].id == x; }
        }
      }
      assert c[last].id !in Ids(init) by {
        forall i | 0 <= i < |init| ensures init[i].id != c[last].id {
          assert init[i] == c[i];
        }
      }
    }
  }

  /**
   From an empty cart, any sequence of adds yields one line per distinct
   requested identifier, each with the number of times it was requested, and
   a count equal to the number of requests.
   */
  lemma SessionFromEmpty<P>(products: seq<Product<P>>, id: string)
    ensures Count(AddAll([], products)) == |products|
    ensures |AddAll([], products)| == |RequestedIds(products)|
    ensures QuantityOf(AddAll([], products), id) == Requests(products, id)
    ensures CartBadge(AddAll([], products)).visible <==> |products| > 0
  {
    var empty: seq<Item<P>> := [];
    assert Ids(empty) == {};
    AddAllKeepsInvariant(empty, products);
    AddAllCounts(empty, products, id);
    AddAllIds(empty, products);
    UniqueIdsCardinality(AddAll(empty, products));
  }

  /** Adding the same product twice to an empty cart yields one line of quantity 2. */
  lemma SameProductTwice<P>(price: P)
    ensures var c := AddToCart(AddToCart([], "p1", "Teddy Bear", price), "p1", "Teddy Bear", price);
            c == [Item("p1", "Teddy Bear", price, 2)] && Count(c) == 2
  {
    var c1 := AddToCart([], "p1", "Teddy Bear", price);
    assert c1 == [Item("p1", "Teddy Bear", price, 1)];
    assert Find(c1, "p1") == Some(0);
  }

}
