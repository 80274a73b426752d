/** The cart's data: products as served by the backend, stock records, and
    the ordered list of cart entries keyed by product id, together with the
    list operations the cart hook performs on it (`find`, `filter` and the
    assignment to one entry's amount). */
module Entries {
  import opened Wrappers

  /** A product as served by `GET /products/{id}`. */
  datatype Product = Product(id: int, title: string, price: real, image: string)

  /** A stock record as served by `GET stock/{id}`. */
  datatype Stock = Stock(id: int, amount: int)

  /** A cart entry: the fetched product spread together with the selected amount. */
  datatype Entry = Entry(product: Product, amount: int) {
    function Id(): int { product.id }
  }

  /** The cart, in insertion order. */
  type Cart = seq<Entry>

  predicate Contains(cart: Cart, id: int) {
    exists i :: 0 <= i < |cart| && cart[i].Id() == id
  }

  /** No two entries share a product id. */
  predicate UniqueIds(cart: Cart) {
    forall i, j :: 0 <= i < j < |cart| ==> cart[i].Id() != cart[j].Id()
  }

  /** Every entry holds at least one unit. */
  predicate AllPositive(cart: Cart) {
    forall i :: 0 <= i < |cart| ==> cart[i].amount >= 1
  }

  /** `b` has the same length as `a` and the same id at every position. */
  predicate SameIds(a: Cart, b: Cart) {
    |a| == |b| && forall i :: 0 <= i < |a| ==> a[i].Id() == b[i].Id()
  }

  /** Position `i` holds the first entry of the cart whose id is `id`. */
  predicate IsFirst(cart: Cart, i: int, id: int) {
    && 0 <= i < |cart|
    && cart[i].Id() == id
    && forall j :: 0 <= j < i ==> cart[j].Id() != id
  }

  /** `cart.find(p => p.id === id)`, as the index of the entry it returns. */
  function Find(cart: Cart, id: int): (r: Option<nat>)
    ensures r.None? <==> !Contains(cart, id)
    ensures r.Some? ==> IsFirst(cart, r.value, id)
    decreases |cart|
  {
    if |cart| == 0 then None
    else if cart[0].Id() == id then Some(0)
    else match Find(cart[1..], id)
      case None =>
        assert forall i :: 1 <= i < |cart| ==> cart[i] == cart[1..][i - 1];
        None
      case Some(k) => Some(k + 1)
  }

  /** The amount of the entry `find` returns. */
  function AmountOf(cart: Cart, id: int): (a: int)
    requires Contains(cart, id)
    ensures exists i :: IsFirst(cart, i, id) && cart[i].amount == a
  {
    cart[Find(cart, id).value].amount
  }

  /** `cart.filter(e => e.id !== id)`. */
  function Without(cart: Cart, id: int): (r: Cart)
    ensures forall e :: e in r <==> e in cart && e.Id() != id
    ensures !Contains(r, id)
    ensures !Contains(cart, id) ==> r == cart
    ensures Contains(cart, id) ==> |r| < |cart|
    decreases |cart|
  {
    if |cart| == 0 then []
    else if cart[0].Id() == id then Without(cart[1..], id)
    else
      assert Contains(cart, id) ==> Contains(cart[1..], id) by {
        if Contains(cart, id) {
          var i :| 0 <= i < |cart| && cart[i].Id() == id;
          assert cart[1..][i - 1] == cart[i];
        }
      }
      assert !Contains(cart, id) ==> !Contains(cart[1..], id) by {
        if Contains(cart[1..], id) {
          var i :| 0 <= i < |cart[1..]| && cart[1..][i].Id() == id;
          assert cart[i + 1] == cart[1..][i];
        }
      }
      [cart[0]] + Without(cart[1..], id)
  }

  /** The cart after the entry `find` returns has its amount set to
      `amount`; a functional rendering of the in-place assignment. */
  function SetAmount(cart: Cart, id: int, amount: int): (r: Cart)
    ensures SameIds(cart, r)
    ensures forall i :: 0 <= i < |cart| ==> r[i].product == cart[i].product
    ensures forall i :: 0 <= i < |cart| ==>
      r[i].amount == (if IsFirst(cart, i, id) then amount else cart[i].amount)
    ensures !Contains(cart, id) ==> r == cart
  {
    match Find(cart, id)
    case None => cart
    case Some(k) => cart[k := cart[k].(amount := amount)]
  }
}
