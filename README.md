# Order creation (`CreateOrderService.execute`) in Dafny

This project models the order-placement workflow of the commerce backend: given a
customer id and a list of `{ id, quantity }` product requests, `execute` checks that the
customer exists, fetches the requested products in one batch, rejects the request when the
batch has a different number of records than the request has entries, builds one line item
per entry (copying the id and quantity and snapshotting the catalog price, and failing on the
first entry whose product has too little stock), stores the order and finally passes the
original request to the catalog's quantity update.

The three repositories are replaced by the state they hold: a set of customer ids, a
catalog `map<Id, Product>` and a sequence of stored orders, fields of the class
`CreateOrder.CreateOrderService`. The thrown `AppError`s become a `Result` with an `Error`
kind per message (`CustomerNotFound`, `ProductNotFound`, `InsufficientQuantity(name)`).

Files:

- `outcomes.dfy` — `Option` and `Result`.
- `sequences.dfy` — distinctness of a sequence and the size of the set it enumerates.
- `catalog.dfy` — product records and request entries; `Find` (the service's
  `Array.prototype.find`); the batch lookup `findAllById` and the stock update
  `updateQuantity`, both under stated assumptions (below); what the count check at line 43
  means.
- `create_order.dfy` — line construction, the pure verdict `Validate`, and the class whose
  `Execute` performs the workflow with its two effects.

Assumptions about code this model does not contain (the repositories' implementations
are not part of this model):

- `findAllById` answers like a query `WHERE id IN (...)`: each existing requested product
  once, in some order. The predicate `Catalog.Admissible` states this for any order, and
  `Catalog.FindAllById` is one such answer. The lemmas about the count check hold for every
  admissible answer.
- `updateQuantity(products)` subtracts each entry's quantity from that product's stock,
  entry by entry, and ignores ids the catalog lacks (`Catalog.Decremented`).
- `ordersRepository.create` assigns the next id, the number of orders stored before it.

What the count check implies: with such a `findAllById`, the batch has one record per
request entry exactly when every requested product exists AND no product is requested
twice (`Catalog.LengthCheckMeaning`). A request naming a product twice is therefore always
rejected with `ProductNotFound`, even when each entry alone would fit the stock. A policy that
compared the record count against the number of distinct ids and checked duplicate entries
one line at a time would accept `P1 × 3, P1 × 3` against a stock of 5; the code rejects
that request. `CreateOrder.DuplicateEntriesRejected` shows that this rejection is what keeps
stock from going negative: any request whose entries each fit the stock but together ask
for more of one product than it holds passes the per-line checks, would leave that product's
stock below zero, and is rejected by the count check.

A consequence of the count check is that the `find` at line 48 never misses afterwards, so
the `TypeError` that destructuring `undefined` at line 52 would raise cannot occur. The model
keeps that case as the error kind `UndefinedProduct` and proves `Validate` never returns it.

## Model

| member | source | states |
|---|---|---|
| `Catalog.Find` | src/modules/orders/services/CreateOrderService.ts:48-50 | the result is the first record in the list with the searched id; nothing is found only when no record in the list has that id |
| `Catalog.FindAllById` | src/modules/orders/services/CreateOrderService.ts:41 | the assumed batch lookup returns an admissible answer: catalog records of requested ids, none twice, every existing requested id present |
| `Catalog.LengthCheckMeaning` | src/modules/orders/services/CreateOrderService.ts:41-45 | for any admissible answer, record count equals entry count if and only if every requested product exists and no id is requested twice |
| `Catalog.FindResolves` | src/modules/orders/services/CreateOrderService.ts:47-52 | for any admissible batch, searching it for a requested id the catalog holds yields the catalog's record for that id |
| `Catalog.Decremented` | src/modules/orders/services/CreateOrderService.ts:72 | the assumed quantity update keeps the set of catalog products |
| `Catalog.DecrementedQuantity` | src/modules/orders/services/CreateOrderService.ts:72 | after the update each product keeps id, name and price, and its stock is lower by exactly the total quantity the request asks for it |
| `CreateOrder.BuildLines` | src/modules/orders/services/CreateOrderService.ts:47-65 | succeeds if and only if every entry's product is found with stock not below the quantity asked (equal stock passes); on success one line per entry in request order, with the entry's id and quantity and the found record's price |
| `CreateOrder.BuildLinesFailsAtFirstBadLine` | src/modules/orders/services/CreateOrderService.ts:47-58 | a failing line construction reports the error of the first failing entry in request order, naming that entry's product |
| `CreateOrder.ResolvedLines` | src/modules/orders/services/CreateOrderService.ts:43-58 | after a passed count check every entry finds the catalog record for its id, so any failure of the line construction is a shortage, never a missing record |
| `CreateOrder.Validate` | src/modules/orders/services/CreateOrderService.ts:34-65 | unknown customer gives the customer error whatever the products; known customer with a missing or repeated product gives the product error; otherwise success exactly when every entry is within stock; success lines match the request entry by entry with the catalog price; never the undefined-record error |
| `CreateOrder.ValidateReportsFirstShortage` | src/modules/orders/services/CreateOrderService.ts:47-58 | when the customer and products check out, the error names the product of the first entry, in request order, that asks for more than its stock |
| `CreateOrder.SuccessDecrementsExactly` | src/modules/orders/services/CreateOrderService.ts:67-72 | after a successful validation the update lowers each requested product by exactly its entry's quantity, leaves other products unchanged, and leaves no stock negative |
| `CreateOrder.DuplicateEntriesRejected` | src/modules/orders/services/CreateOrderService.ts:43-58 | for every request whose entries each fit their stock but which together ask for more of one product than it holds: it names that product twice, the per-line checks accept it, the update would make that stock negative, and validation fails with the product error |
| `CreateOrder.CreateOrderService.constructor` | src/modules/orders/services/CreateOrderService.ts:23-32 | the service starts over the given customers and catalog with no orders, in a valid state |
| `CreateOrder.CreateOrderService.CreateOrder` | src/modules/orders/services/CreateOrderService.ts:67-70 | the order store appends exactly one order for the customer and lines, with the next id, and returns it; for a known customer and catalog products the store stays valid |
| `CreateOrder.CreateOrderService.UpdateQuantity` | src/modules/orders/services/CreateOrderService.ts:72 | the catalog becomes the old catalog decremented by the given entries; when no stock goes below zero the store stays valid |
| `Catalog.DecrementedKeyedById` | src/modules/orders/services/CreateOrderService.ts:72 | the assumed quantity update keeps every product record under its own id |
| `CreateOrder.CreateOrderService.Execute` | src/modules/orders/services/CreateOrderService.ts:34-75 | on any validation error returns it with orders and catalog unchanged; on success appends exactly one order for the customer with the validated lines, decrements the catalog by the original request, returns that order, and keeps the store valid (stock non-negative, orders reference known customers and catalog products) |

## Left out

- Dependency injection (`tsyringe`'s `@injectable`, `@inject`): the repositories become fields.
- `async`/`await`: the workflow is a sequential method.
- Concurrent executions and overselling races between them: the source takes no lock and
  opens no transaction; only one execution at a time is modelled.
- The repositories' implementations (`findById`, `findAllById`, `create`,
  `updateQuantity`): replaced by the assumptions stated above; failures of the storage
  layer (connectivity, constraint violations) are not modelled.
- The order in which `findAllById` returns records: left open by `Catalog.Admissible`;
  `Catalog.FindAllById` fixes one order only to be executable.
- TypeORM entity fields other than id, name, price and quantity; the customer record is
  reduced to its id; the exact text of the error messages.
- Decimal or floating-point semantics of `price` (only copied) and of quantities: both are
  integers here. The service does not check that requested quantities are positive, and
  neither does the model; a negative entry passes the stock check.
- `CreateOrder.CreateOrderService.Execute`: the order of the two effects (order stored
  before stock updated) is visible only in its body, since a failure between them is not
  modelled.
