# Shopping-cart provider: a Dafny model

This project models the cart mutations of the storefront's `CartProvider`
(`src/hooks/useCart.tsx`): the ordered list of cart entries keyed by product
id, the storage slot `@RocketShoes:cart` that mirrors it, and the three
operations the provider exposes — `addProduct`, `removeProduct` and
`updateProductAmount`.

Each operation is a pure function from the provider's `State` (the cart plus
the storage slot) to a `Step`: the next state and an `Outcome`, which is `Ok`
or the toast (`Notice`) the failure path raises. Every remote request the
operation awaits is a parameter of type `Response<T>`:

- `Thrown` stands for a request that threw;
- `Empty` stands for one that resolved with a falsy body;
- `Data(v)` stands for one that resolved with `v`.

The code treats a thrown request and an empty body differently in `addProduct`
and `removeProduct`, so the model keeps the two apart.

Files:

- `wrappers.dfy`: module `Wrappers`, with `Option` and `Response`.
- `entries.dfy`: module `Entries`. It holds `Product`, `Stock`, `Entry` and
  `Cart`, plus the list operations the hook uses: `find`, `filter`, and the
  assignment to one entry's amount.
- `store.dfy`: module `CartStore`. It holds the state, the initial load and
  the three operations.
- `proofs.dfy`: module `CartProofs`. It holds the invariants, idempotence,
  the add/update and add/remove relations, and the positional meaning of
  removal. It also holds worked examples.

The model follows the code as written, including these behaviours a reader
might not expect:

- Adding a product not yet in the cart does no stock check. It appends the
  fetched product with amount 1 even when its stock is zero
  (`AddNewIgnoresZeroStock`).
- Removing an id that is not in the cart is not an error. It rewrites the
  same cart to storage (`RemoveAbsentExample`).
- With storage writes taken as never failing, removal fails only when the
  product request throws, or when the product it serves carries a different
  id.
- Once the amount and stock checks pass, updating an id that is not in the
  cart is a silent no-op. Storage is not written. An absent id with an
  amount ≤ 0 or a failing stock check still raises the stock toast.
- Every update failure raises the same toast, whatever its cause: an amount
  ≤ 0, a failed or empty stock request, or an amount above the stock.
  `addProduct` on a present id hands over to the update, so its failures
  raise that toast too.
- The appended entry carries the id of the product the backend served, not
  the requested id. So uniqueness of ids holds only if the backend serves,
  for each id, a product with that id. `AddPreservesInvariants` assumes
  this, and `AddForeignIdDuplicates` shows the duplicate it otherwise allows.

## Model

| member | source | states |
|---|---|---|
| Entries.Find | src/hooks/useCart.tsx:50 | `find` yields nothing exactly when no entry has the id; otherwise it yields the first position holding the id |
| Entries.Without | src/hooks/useCart.tsx:78 | `filter` keeps exactly the entries whose id differs; the result holds no entry for the id; an absent id leaves the list identical; a present one shortens it |
| Entries.SetAmount | src/hooks/useCart.tsx:103-106 | assigning the amount keeps length, ids and products; only the first entry with the id gets the new amount; an absent id leaves the list identical |
| Entries.AmountOf | src/hooks/useCart.tsx:50-54 | the amount handed to the update is that of the first entry carrying the id, the one `find` returns |
| CartStore.Commit | src/hooks/useCart.tsx:63-64 | a successful mutation sets the new cart as state and writes that same cart to the storage slot, so the slot mirrors the cart (also at lines 79-80 and 108-109) |
| CartStore.Load | src/hooks/useCart.tsx:27-35 | the initial state mirrors the storage slot: the stored cart if there is one, else the empty cart with the slot untouched |
| CartStore.UpdateProductAmount | src/hooks/useCart.tsx:87-115 | fails with the stock toast exactly when amount ≤ 0, the stock request yields no record, or amount exceeds the stock; failure changes nothing; an absent id changes nothing; otherwise that entry's amount is set and the new cart is written to storage |
| CartStore.AddProduct | src/hooks/useCart.tsx:48-70 | a present id succeeds exactly when its amount plus one is positive and within the stock, and then becomes the assignment of that amount, written to storage; on failure nothing changes and the stock toast is raised; for a new id, a thrown request raises the add toast with no change, and an empty body changes nothing; fetched data is appended once, with amount 1, at the end, the prefix kept, and written to storage |
| CartStore.RemoveProduct | src/hooks/useCart.tsx:72-85 | fails with the remove toast exactly when the product request throws or serves another id, and then changes nothing; on success the cart is the `filter` of the old one (no entry with the id remains, every other entry is kept, in order), storage holds the new cart, and an absent id leaves the cart equal |
| CartProofs.FindSameIds | src/hooks/useCart.tsx:103 | `find` depends only on the ids, so it locates the same entry after an amount changes |
| CartProofs.SetAmountIdempotent | src/hooks/useCart.tsx:103-106 | assigning the same amount twice gives the same list as assigning it once |
| CartProofs.SetAmountChangesOneEntry | src/hooks/useCart.tsx:103-106 | with unique ids, exactly the entry with the id changes, and only its amount |
| CartProofs.WithoutConcat | src/hooks/useCart.tsx:78 | `filter` distributes over concatenation, so kept entries keep their relative order |
| CartProofs.WithoutPresent | src/hooks/useCart.tsx:78 | with unique ids, removing a present id is exactly the list without that one position |
| CartProofs.WithoutKeepsInvariant | src/hooks/useCart.tsx:78 | `filter` keeps ids unique and amounts ≥ 1 |
| CartProofs.UpdatePreservesInvariants | src/hooks/useCart.tsx:92-111 | the update keeps ids unique, amounts ≥ 1 and storage mirroring the cart |
| CartProofs.UpdateIdempotent | src/hooks/useCart.tsx:103-109 | updating twice with the same id, amount and stock gives the same state and outcome as updating once |
| CartProofs.AddExistingIsUpdate | src/hooks/useCart.tsx:50-55 | adding a present id is exactly the update to its current amount plus one |
| CartProofs.AddExistingIncrements | src/hooks/useCart.tsx:50-55 | in a valid cart, adding a present id either raises that entry's amount by exactly one, leaves every other entry as it was and writes storage (when the current amount is below the stock), or changes nothing and raises the stock toast |
| CartProofs.AddConsultsOneFetch | src/hooks/useCart.tsx:48-66 | adding a new id ignores the stock response; adding a present id ignores the product response |
| CartProofs.AddPreservesInvariants | src/hooks/useCart.tsx:57-64 | if the backend serves the requested id, adding keeps ids unique, amounts ≥ 1 and storage mirroring the cart |
| CartProofs.AddForeignIdDuplicates | src/hooks/useCart.tsx:57-62 | if the backend serves a product carrying another id, adding can give two entries the same id |
| CartProofs.RemovePreservesInvariants | src/hooks/useCart.tsx:72-81 | removal keeps ids unique, amounts ≥ 1 and storage mirroring the cart |
| CartProofs.RemovePresentDropsOne | src/hooks/useCart.tsx:78-80 | with unique ids, a successful removal of a present id drops exactly that entry and keeps the others in order |
| CartProofs.RemoveUndoesAdd | src/hooks/useCart.tsx:57-80 | removing a product just added as new restores the cart, and storage holds it |
| CartProofs.ChangesAreWritten | src/hooks/useCart.tsx:48-115 | every operation that changes the cart writes the new cart to storage; every failed operation leaves cart and storage as they were |
| CartProofs.AddIncrementExample | src/hooks/useCart.tsx:50-55 | cart [{id 1, amount 2}] with stock 5: adding id 1 gives amount 3 |
| CartProofs.AddNewIgnoresZeroStock | src/hooks/useCart.tsx:57-64 | adding id 7 to an empty cart appends it with amount 1, even with stock 0 |
| CartProofs.UpdateAboveStockExample | src/hooks/useCart.tsx:100-101 | cart [{id 5, amount 4}] with stock 3: updating to 4 changes nothing and raises the stock toast |
| CartProofs.RemoveOnlyExample | src/hooks/useCart.tsx:78-80 | removing the only entry empties the cart and its stored copy |
| CartProofs.RemoveAbsentExample | src/hooks/useCart.tsx:74-80 | removing an absent id succeeds and writes the unchanged cart to storage |

## Left out

- React wiring is not modelled: the context, the provider's JSX and the
  `useCart` hook (`src/hooks/useCart.tsx:22-24`, `117-130`).
- The axios requests to `/products/{id}` and `stock/{id}` are not modelled.
  Their results are `Response` parameters. The api service is not part of
  this model.
- JSON serialisation and parsing of the storage slot are not modelled. The
  slot holds the cart value itself. An unparsable stored value is not
  handled by the code either.
- Toast wording is not modelled. Only which toast is raised (`Notice`) is
  kept.
- Asynchrony is not modelled. `addProduct` does not await the update it
  hands over to, and concurrent calls can read stale state. Each operation
  is modelled as one atomic step.
- The in-place assignment `productOnCart.amount = amount` is modelled as a
  functional replacement of the entry. That assignment also mutates the
  previous state's object.
- Storage writes are modelled as never failing. In the code a throwing
  `setItem` would raise the toast after `removeProduct` has already set the
  filtered cart (`src/hooks/useCart.tsx:79-80`), and after the update has
  already assigned the amount in place (`:106-108`), leaving the slot stale.
  So "a failure changes nothing" and the storage mirror hold only for
  writes that succeed.
- JavaScript numbers are modelled as `int`. Fractional or `NaN` amounts are
  not modelled.
- Fields of the product type other than id, title, price and image are not
  modelled. The types file is not part of this model.
- The stock record's own id is carried but never compared with the
  requested id, as in the code.
