/** The cart provider: its state (the in-memory cart and the storage slot
    that mirrors it) and the three mutations it exposes. Each remote fetch an
    operation awaits is a `Response` parameter; an operation ignores the
    parameters of the fetches its path does not perform. Each operation
    returns the next state together with the toast it raises, if any. */
module CartStore {
  import opened Wrappers
  import opened Entries

  /** The provider's state: the cart held as React state, and the
      `@RocketShoes:cart` storage slot (`None` while it was never written). */
  datatype State = State(cart: Cart, storage: Option<Cart>)

  /** The toast a failure path raises. */
  datatype Notice =
    | AddError      // adding a new product failed
    | RemoveError   // removing failed
    | StockError    // no stock for the amount; raised by every update failure

  /** `Ok` is a run that raised no toast, whether or not it changed the cart. */
  datatype Outcome = Ok | Err(notice: Notice)

  datatype Step = Step(state: State, outcome: Outcome)

  /** The storage slot holds exactly the in-memory cart (or was never
      written and the cart is still the empty initial one). */
  predicate Mirrors(s: State) {
    s.storage == Some(s.cart) || (s.storage == None && s.cart == [])
  }

  /** The cart's own invariant: ids are unique and amounts at least one. */
  predicate Valid(s: State) {
    UniqueIds(s.cart) && AllPositive(s.cart)
  }

  /** Write `cart` to the storage slot and set it as state. */
  function Commit(cart: Cart): (s: State)
    ensures s.cart == cart && s.storage == Some(cart)
    ensures Mirrors(s)
  {
    State(cart, Some(cart))
  }

  /** The initial state: the stored cart if the slot holds one, else empty. */
  function Load(slot: Option<Cart>): (s: State)
    ensures Mirrors(s)
    ensures s.storage == slot
  {
    match slot
    case None => State([], None)
    case Some(c) => State(c, Some(c))
  }

  /** `updateProductAmount({productId: id, amount})`, with `stock` the
      response of `GET stock/{id}`. */
  function UpdateProductAmount(s: State, id: int, amount: int, stock: Response<Stock>): (r: Step)
    ensures r.outcome == Ok || r.outcome == Err(StockError)
    ensures r.outcome.Err? <==> amount <= 0 || !stock.Data? || amount > stock.value.amount
    ensures r.outcome.Err? ==> r.state == s
    ensures r.outcome.Ok? && !Contains(s.cart, id) ==> r.state == s
    ensures r.outcome.Ok? && Contains(s.cart, id) ==>
      && r.state.cart == SetAmount(s.cart, id, amount)
      && r.state.storage == Some(r.state.cart)
  {
    if amount <= 0 then Step(s, Err(StockError))
    else match stock
      case Data(onStock) =>
        if amount > onStock.amount then Step(s, Err(StockError))
        else (match Find(s.cart, id)
          case None => Step(s, Ok)
          case Some(k) => Step(Commit(s.cart[k := s.cart[k].(amount := amount)]), Ok))
      case _ => Step(s, Err(StockError))
  }

  /** `addProduct(id)`, with `product` the response of `GET /products/{id}`
      and `stock` that of `GET stock/{id}`. A product already in the cart is
      delegated to the update with its amount plus one; a new one is
      appended with amount one, without consulting the stock. */
  function AddProduct(s: State, id: int, product: Response<Product>, stock: Response<Stock>): (r: Step)
    ensures Contains(s.cart, id) ==>
      && (r.outcome.Ok? <==> AmountOf(s.cart, id) + 1 > 0 && stock.Data? && AmountOf(s.cart, id) + 1 <= stock.value.amount)
      && (r.outcome.Ok? ==> r.state == Commit(SetAmount(s.cart, id, AmountOf(s.cart, id) + 1)))
      && (r.outcome.Err? ==> r == Step(s, Err(StockError)))
    ensures !Contains(s.cart, id) && product.Thrown? ==> r == Step(s, Err(AddError))
    ensures !Contains(s.cart, id) && product.Empty? ==> r == Step(s, Ok)
    ensures !Contains(s.cart, id) && product.Data? ==>
      && r.outcome == Ok
      && |r.state.cart| == |s.cart| + 1
      && r.state.cart[..|s.cart|] == s.cart
      && r.state.cart[|s.cart|] == Entry(product.value, 1)
      && r.state.storage == Some(r.state.cart)
  {
    match Find(s.cart, id)
    case Some(k) => UpdateProductAmount(s, id, s.cart[k].amount + 1, stock)
    case None =>
      match product
      case Thrown => Step(s, Err(AddError))
      case Empty => Step(s, Ok)
      case Data(p) => Step(Commit(s.cart + [Entry(p, 1)]), Ok)
  }

  /** `removeProduct(id)`, with `product` the response of `GET /products/{id}`.
      The removal goes ahead unless the request throws or the product served
      carries another id; an id absent from the cart is not an error. */
  function RemoveProduct(s: State, id: int, product: Response<Product>): (r: Step)
    ensures r.outcome.Err? <==> product.Thrown? || (product.Data? && product.value.id != id)
    ensures r.outcome.Err? ==> r == Step(s, Err(RemoveError))
    ensures r.outcome.Ok? ==> r.state.cart == Without(s.cart, id)
    ensures r.outcome.Ok? ==>
      && !Contains(r.state.cart, id)
      && (forall e :: e in r.state.cart <==> e in s.cart && e.Id() != id)
      && r.state.storage == Some(r.state.cart)
    ensures r.outcome.Ok? && !Contains(s.cart, id) ==> r.state.cart == s.cart
  {
    match product
    case Thrown => Step(s, Err(RemoveError))
    case Data(p) =>
      if id != p.id then Step(s, Err(RemoveError))
      else Step(Commit(Without(s.cart, id)), Ok)
    case Empty => Step(Commit(Without(s.cart, id)), Ok)
  }
}
