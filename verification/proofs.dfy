/** Properties of the cart provider's mutations: the invariants they keep,
    idempotence of the update, the add/update and add/remove relations, and
    the positional meaning of `filter` and of the amount assignment. */
module CartProofs {
  import opened Wrappers
  import opened Entries
  import opened CartStore

  /** `find` looks only at ids: carts with the same ids find the same index. */
  lemma {:induction false} FindSameIds(a: Cart, b: Cart, id: int)
    requires SameIds(a, b)
    ensures Find(a, id) == Find(b, id)
    decreases |a|
  {
    if |a| > 0 && a[0].Id() != id {
      FindSameIds(a[1..], b[1..], id);
    }
  }

  /** Setting the same amount twice is setting it once. */
  lemma SetAmountIdempotent(cart: Cart, id: int, amount: int)
    ensures SetAmount(SetAmount(cart, id, amount), id, amount) == SetAmount(cart, id, amount)
  {
    var once := SetAmount(cart, id, amount);
    FindSameIds(cart, once, id);
  }

  /** With unique ids the assignment changes exactly the entry with that id,
      and only its amount. */
  lemma SetAmountChangesOneEntry(cart: Cart, id: int, amount: int)
    requires UniqueIds(cart)
    ensures |SetAmount(cart, id, amount)| == |cart|
    ensures forall i :: 0 <= i < |cart| ==>
      SetAmount(cart, id, amount)[i] == (if cart[i].Id() == id then cart[i].(amount := amount) else cart[i])
  {
    var r := SetAmount(cart, id, amount);
    forall i | 0 <= i < |cart|
      ensures r[i] == (if cart[i].Id() == id then cart[i].(amount := amount) else cart[i])
    {
      assert cart[i].Id() == id ==> IsFirst(cart, i, id);
    }
  }

  /** `filter` distributes over concatenation, so it keeps the relative
      order of the entries it keeps. */
  lemma {:induction false} WithoutConcat(a: Cart, b: Cart, id: int)
    ensures Without(a + b, id) == Without(a, id) + Without(b, id)
    decreases |a|
  {
    if |a| > 0 {
      assert (a + b)[1..] == a[1..] + b;
      WithoutConcat(a[1..], b, id);
    } else {
      assert a + b == b;
    }
  }

  /** A slice in which no entry carries `id` does not contain it. */
  lemma NoIdInSlice(cart: Cart, id: int, lo: int, hi: int)
    requires 0 <= lo <= hi <= |cart|
    requires forall j :: lo <= j < hi ==> cart[j].Id() != id
    ensures !Contains(cart[lo..hi], id)
  {
    assert forall j :: 0 <= j < hi - lo ==> cart[lo..hi][j] == cart[lo + j];
  }

  /** Removing an id held only at position `k` drops that one entry. */
  lemma WithoutOnlyAt(cart: Cart, id: int, k: int)
    requires 0 <= k < |cart| && cart[k].Id() == id
    requires !Contains(cart[..k], id) && !Contains(cart[k + 1..], id)
    ensures Without(cart, id) == cart[..k] + cart[k + 1..]
  {
    var pre, post := cart[..k], cart[k + 1..];
    assert cart == pre + ([cart[k]] + post);
    WithoutConcat(pre, [cart[k]] + post, id);
    WithoutConcat([cart[k]], post, id);
    assert Without([cart[k]], id) == [] by {
      assert [cart[k]][1..] == [];
    }
  }

  /** With unique ids, removing a present id drops exactly the entry `find`
      locates and keeps every other entry in place. */
  lemma WithoutPresent(cart: Cart, id: int, k: int)
    requires UniqueIds(cart)
    requires IsFirst(cart, k, id)
    ensures Without(cart, id) == cart[..k] + cart[k + 1..]
  {
    NoIdInSlice(cart, id, 0, k);
    NoIdInSlice(cart, id, k + 1, |cart|);
    WithoutOnlyAt(cart, id, k);
  }

  /** Dropping one position keeps ids unique and amounts positive. */
  lemma DropKeepsInvariant(cart: Cart, k: int)
    requires 0 <= k < |cart|
    requires UniqueIds(cart) && AllPositive(cart)
    ensures UniqueIds(cart[..k] + cart[k + 1..]) && AllPositive(cart[..k] + cart[k + 1..])
  {
    var r := cart[..k] + cart[k + 1..];
    assert forall i :: 0 <= i < |r| ==> r[i] == (if i < k then cart[i] else cart[i + 1]);
  }

  /** `filter` keeps ids unique and amounts positive. */
  lemma WithoutKeepsInvariant(cart: Cart, id: int)
    requires UniqueIds(cart) && AllPositive(cart)
    ensures UniqueIds(Without(cart, id)) && AllPositive(Without(cart, id))
  {
    match Find(cart, id)
    case None =>
    case Some(k) =>
      WithoutPresent(cart, id, k);
      DropKeepsInvariant(cart, k);
  }

  /** The update keeps ids unique and amounts positive, and leaves storage
      mirroring the cart. */
  lemma UpdatePreservesInvariants(s: State, id: int, amount: int, stock: Response<Stock>)
    requires Valid(s) && Mirrors(s)
    ensures Valid(UpdateProductAmount(s, id, amount, stock).state)
    ensures Mirrors(UpdateProductAmount(s, id, amount, stock).state)
  {
    var r := UpdateProductAmount(s, id, amount, stock);
    if r.outcome.Ok? && Contains(s.cart, id) {
      SetAmountChangesOneEntry(s.cart, id, amount);
    }
  }

  /** Updating twice with the same id, amount and stock response yields the
      same state and outcome as updating once. */
  lemma UpdateIdempotent(s: State, id: int, amount: int, stock: Response<Stock>)
    ensures UpdateProductAmount(UpdateProductAmount(s, id, amount, stock).state, id, amount, stock)
         == UpdateProductAmount(s, id, amount, stock)
  {
    var once := UpdateProductAmount(s, id, amount, stock);
    if once.outcome.Ok? && Contains(s.cart, id) {
      SetAmountIdempotent(s.cart, id, amount);
      FindSameIds(s.cart, once.state.cart, id);
    }
  }

  /** Adding a product already in the cart is the update to its amount plus one. */
  lemma AddExistingIsUpdate(s: State, id: int, product: Response<Product>, stock: Response<Stock>)
    requires Contains(s.cart, id)
    ensures AddProduct(s, id, product, stock)
         == UpdateProductAmount(s, id, AmountOf(s.cart, id) + 1, stock)
  {
  }

  /** In a valid cart, adding a present product either raises that one
      entry's amount by exactly one and writes storage, or, when the stock
      cannot cover the increment, changes nothing and raises the stock toast. */
  lemma AddExistingIncrements(s: State, id: int, product: Response<Product>, stock: Response<Stock>)
    requires Valid(s)
    requires Contains(s.cart, id)
    ensures var r := AddProduct(s, id, product, stock);
      && (r.outcome.Ok? <==> stock.Data? && AmountOf(s.cart, id) < stock.value.amount)
      && (r.outcome.Err? ==> r.state == s && r.outcome == Err(StockError))
      && (r.outcome.Ok? ==>
            && |r.state.cart| == |s.cart|
            && r.state.storage == Some(r.state.cart)
            && forall i :: 0 <= i < |s.cart| ==>
                 r.state.cart[i] == (if s.cart[i].Id() == id then s.cart[i].(amount := s.cart[i].amount + 1) else s.cart[i]))
  {
    var r := AddProduct(s, id, product, stock);
    var k := Find(s.cart, id).value;
    assert s.cart[k].amount >= 1;
    SetAmountChangesOneEntry(s.cart, id, AmountOf(s.cart, id) + 1);
  }

  /** Adding a product the cart lacks never consults the stock response;
      adding one it holds never consults the product response. */
  lemma AddConsultsOneFetch(s: State, id: int, product: Response<Product>, product': Response<Product>,
                            stock: Response<Stock>, stock': Response<Stock>)
    ensures !Contains(s.cart, id) ==> AddProduct(s, id, product, stock) == AddProduct(s, id, product, stock')
    ensures Contains(s.cart, id) ==> AddProduct(s, id, product, stock) == AddProduct(s, id, product', stock)
  {
  }

  /** Adding keeps ids unique and amounts positive, provided the product
      served for an id carries that id, and leaves storage mirroring the cart. */
  lemma AddPreservesInvariants(s: State, id: int, product: Response<Product>, stock: Response<Stock>)
    requires Valid(s) && Mirrors(s)
    requires product.Data? ==> product.value.id == id
    ensures Valid(AddProduct(s, id, product, stock).state)
    ensures Mirrors(AddProduct(s, id, product, stock).state)
  {
    if Contains(s.cart, id) {
      UpdatePreservesInvariants(s, id, AmountOf(s.cart, id) + 1, stock);
    } else if product.Data? {
      var c := AddProduct(s, id, product, stock).state.cart;
      assert c == s.cart + [Entry(product.value, 1)];
      forall i | 0 <= i < |s.cart|
        ensures c[i].Id() != c[|s.cart|].Id()
      {
        assert c[i] == s.cart[i];
      }
    }
  }

  /** Without the backend's promise that the product served for an id
      carries that id, adding can give two entries the same id. */
  lemma AddForeignIdDuplicates()
    ensures var p := Product(1, "shoe", 10.0, "shoe.png");
      var s := Commit([Entry(p, 1)]);
      !UniqueIds(AddProduct(s, 2, Data(p), Empty).state.cart)
  {
    var p := Product(1, "shoe", 10.0, "shoe.png");
    var s := Commit([Entry(p, 1)]);
    assert !Contains(s.cart, 2) by {
      assert s.cart[0].Id() == 1;
    }
    var c := AddProduct(s, 2, Data(p), Empty).state.cart;
    assert c[0].Id() == c[1].Id();
  }

  /** Removing keeps ids unique and amounts positive, and leaves storage
      mirroring the cart. */
  lemma RemovePreservesInvariants(s: State, id: int, product: Response<Product>)
    requires Valid(s) && Mirrors(s)
    ensures Valid(RemoveProduct(s, id, product).state)
    ensures Mirrors(RemoveProduct(s, id, product).state)
  {
    WithoutKeepsInvariant(s.cart, id);
  }

  /** In a valid cart, a successful removal of a present id drops exactly
      that one entry; every other entry keeps its place in order. */
  lemma RemovePresentDropsOne(s: State, id: int, product: Response<Product>)
    requires UniqueIds(s.cart)
    requires Contains(s.cart, id)
    requires RemoveProduct(s, id, product).outcome.Ok?
    ensures var k := Find(s.cart, id).value;
      RemoveProduct(s, id, product).state.cart == s.cart[..k] + s.cart[k + 1..]
  {
    WithoutPresent(s.cart, id, Find(s.cart, id).value);
  }

  /** Removing a product just added to the cart restores the cart. */
  lemma RemoveUndoesAdd(s: State, p: Product, stock: Response<Stock>)
    requires !Contains(s.cart, p.id)
    ensures var added := AddProduct(s, p.id, Data(p), stock).state;
      var r := RemoveProduct(added, p.id, Data(p));
      r.outcome == Ok && r.state == Commit(s.cart)
  {
    var added := AddProduct(s, p.id, Data(p), stock).state;
    assert added.cart == s.cart + [Entry(p, 1)];
    WithoutConcat(s.cart, [Entry(p, 1)], p.id);
    assert Without([Entry(p, 1)], p.id) == [] by {
      assert [Entry(p, 1)][1..] == [];
    }    assert Without(added.cart, p.id) == s.cart;
  }

  /** Every operation that changes the cart writes the new cart to storage,
      and every failed operation leaves cart and storage as they were. */
  lemma ChangesAreWritten(s: State, id: int, amount: int, product: Response<Product>, stock: Response<Stock>)
    ensures forall r :: r in [UpdateProductAmount(s, id, amount, stock), AddProduct(s, id, product, stock), RemoveProduct(s, id, product)] ==>
      && (r.state.cart != s.cart ==> r.state.storage == Some(r.state.cart))
      && (r.outcome.Err? ==> r.state == s)
  {
  }

  /** A present product with stock to spare goes up by one. */
  lemma AddIncrementExample()
    ensures var p := Product(1, "sneaker", 179.9, "sneaker.jpg");
      var r := AddProduct(Commit([Entry(p, 2)]), 1, Empty, Data(Stock(1, 5)));
      r == Step(Commit([Entry(p, 3)]), Ok)
  {
    var p := Product(1, "sneaker", 179.9, "sneaker.jpg");
    var c := [Entry(p, 2)];
    assert Find(c, 1) == Some(0);
    assert c[0 := c[0].(amount := 3)] == [Entry(p, 3)];
    assert UpdateProductAmount(Commit(c), 1, 3, Data(Stock(1, 5))) == Step(Commit(c[0 := c[0].(amount := 3)]), Ok);
    assert AddProduct(Commit(c), 1, Empty, Data(Stock(1, 5))) == UpdateProductAmount(Commit(c), 1, 3, Data(Stock(1, 5)));
  }

  /** A new product is appended even when its stock is zero: the add path
      for a new id never fetches the stock. */
  lemma AddNewIgnoresZeroStock()
    ensures var p := Product(7, "boot", 99.0, "boot.jpg");
      var r := AddProduct(Load(None), 7, Data(p), Data(Stock(7, 0)));
      r == Step(Commit([Entry(p, 1)]), Ok)
  {
  }

  /** An update above the stock changes nothing and raises the stock toast. */
  lemma UpdateAboveStockExample()
    ensures var c := [Entry(Product(5, "sandal", 59.0, "sandal.jpg"), 4)];
      UpdateProductAmount(Commit(c), 5, 4, Data(Stock(5, 3))) == Step(Commit(c), Err(StockError))
  {
  }

  /** Removing the only entry empties the cart and the storage slot's copy. */
  lemma RemoveOnlyExample()
    ensures var p := Product(3, "slipper", 19.0, "slipper.jpg");
      RemoveProduct(Commit([Entry(p, 1)]), 3, Data(p)) == Step(Commit([]), Ok)
  {
    var p := Product(3, "slipper", 19.0, "slipper.jpg");
    assert [Entry(p, 1)][1..] == [];
  }

  /** Removing an id the cart lacks is no error: it rewrites the same cart. */
  lemma RemoveAbsentExample()
    ensures var c := [Entry(Product(3, "slipper", 19.0, "slipper.jpg"), 1)];
      RemoveProduct(State(c, None), 4, Empty) == Step(Commit(c), Ok)
  {
    var c := [Entry(Product(3, "slipper", 19.0, "slipper.jpg"), 1)];
    assert c[0].Id() == 3;
  }
}
