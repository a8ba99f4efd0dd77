# Sales core: a Dafny model

This project models the sales core of the Ambev developer-evaluation backend.
It covers the following parts:

- the `SaleItem` entity. It validates quantity and price, derives the tiered discount and rounds prices and totals to cents half-to-even.
- the `Sale` aggregate. It is an ordered item list with a derived total and a one-way cancelled flag. Every item mutator recomputes the total. `Cancel` does not, so a cancelled sale keeps the total it had while active.
- the modify-sale reconciliation in `ModifySaleHandler.Handle`. It diffs a requested `(product, quantity)` list against the sale's items. It then cancels, re-quantifies or adds items, implicitly cancels every omitted item, and cancels a sale left with no active item. It records the integration events in order.
- the create-sale and cancel-sale handlers.
- the FluentValidation validators of the create, modify and cancel commands, including the web layer's weaker modify-request validator.
- `GlobalExceptionHandler`. It maps an exception to an HTTP status and an `ApiResponse` body.

Everything is pure:

- The sale store and the product, customer and branch gateways are maps, and a missing key is the gateway's `null`.
- Saving becomes a count in the handler's result.
- Publishing becomes the returned sequence of events.
- An exception becomes the `Err` case of a `Result`. There is one `Error` variant per exception type.

Money follows C# `decimal`, which is exact in base 10:

- An input price is `Decimal(mantissa, scale)`.
- Unit prices and totals are whole cents.
- A line's net amount is computed exactly in hundredths of a cent and rounded half-to-even by 100.

`Money.IsRoundedHalfEven` defines the rounding on its own terms: nearest integer, with a tie going to the even neighbour. Every rounding function is proved against it. Guids are natural numbers, and `0` is `Guid.Empty`.

Modules, in dependency order:

| file | module | what it holds |
|---|---|---|
| common.dfy | `Common` | `Result`, `Error`, validation `Failure`s, .NET white space and `Trim`, Guid text |
| money.dfy | `Money` | decimals, half-to-even rounding, rounding to cents |
| sale_item.dfy | `SaleItems` | the line item |
| sale.dfy | `Sales` | the aggregate and its invariant `WellFormed` |
| linq.dfy | `Linq` | `ToDictionary`, `Distinct`, `Select` |
| events.dfy | `Events` | the four integration events and their names |
| ports.dfy | `Ports` | catalogs, store, what an item built from the catalog looks like |
| commands.dfy | `Commands` | the command records |
| validators.dfy | `Validators` | the five validators |
| modify_sale.dfy | `ModifySale` | the reconciliation and the modify handler |
| modify_sale_spec.dfy | `ModifySaleSpec` | a loop-free reference outcome of the reconciliation and the proof that the handler meets it |
| cancel_sale.dfy | `CancelSale` | the cancel handler |
| create_sale.dfy | `CreateSale` | the create handler |
| exception_handler.dfy | `ExceptionHandler` | `MapException`, `TryHandleAsync`, and how the core's errors reach the client |

The central theorem is `ModifySaleSpec.ReconcileSpec`. It states the reconciliation's outcome without reference to its loops:

- each original item at its own position in its expected final form;
- then one catalog-built item per addition line, in request order;
- the total;
- when the sale ends up cancelled;
- the exact event sequence.

Three behaviours of the code are easy to misread, and the model keeps each as written:

- **A duplicate product id.** The handler builds its dictionaries with `ToDictionary` (`ModifySaleHandler.cs:49-50`), which raises on a repeated key, so the model returns `DuplicateKey`. A sale holding two items for one product therefore can never be modified.
- **Event names.** The names are the constants in `EventsConsts.cs:11-14`: `sales.sale.created`, `sales.sale.modified`, `sales.sale.cancelled` and `sales.item.cancelled`.
- **A product missing from the catalog.** It is an `ApplicationException` in the modify handler and a `DomainException` in the create handler. The model keeps the two apart.

## Model

Source paths are relative to the repository root. `ModifySaleHandler.cs` is `backend/src/Ambev.DeveloperEvaluation.Application/Sales/ModifySale/ModifySaleHandler.cs`, and the other files follow the same pattern.

| member | source | states |
|---|---|---|
| Common.TrimSpec | backend/src/Ambev.DeveloperEvaluation.Domain/Entities/SaleItem.cs:28 | `Trim` cuts exactly the leading and trailing .NET white space. The result is a contiguous slice of the input, everything cut off is white space, and the result's own first and last characters are not. |
| Common.TrimIdempotent | backend/src/Ambev.DeveloperEvaluation.Domain/Entities/Sale.cs:36-41 | Trimming an already-trimmed name or number changes nothing. |
| Common.TrimEmptyIffWhiteSpace | backend/src/Ambev.DeveloperEvaluation.Domain/Entities/Sale.cs:33-36 | A string trims to empty exactly when it is all white space. So a number that passes the blank check keeps a non-empty trimmed value. |
| Common.GuidText | backend/src/Ambev.DeveloperEvaluation.Application/Sales/ModifySale/ModifySaleHandler.cs:73 | A product id is rendered as the 36 characters interpolated into "Product {id} not found.": hyphens at positions 8, 13, 18 and 23, and a lower-case hex digit everywhere else. |
| Common.HexDigitsRoundTrip | backend/src/Ambev.DeveloperEvaluation.Application/Sales/ModifySale/ModifySaleHandler.cs:73 | Reading the hex digits back gives the number they were written from, for any number that fits in that many digits. |
| Common.HexNumberBound | backend/src/Ambev.DeveloperEvaluation.Application/Sales/ModifySale/ModifySaleHandler.cs:73 | Any n hex digits spell a number below 16^n, so every 32-digit text denotes a 128-bit id. |
| Common.GuidTextRoundTrip | backend/src/Ambev.DeveloperEvaluation.Application/Sales/ModifySale/ModifySaleHandler.cs:73 | Dropping the hyphens from a 128-bit id's text gives its 32 digits, and reading those back gives the id. |
| Common.GuidTextInjective | backend/src/Ambev.DeveloperEvaluation.Application/Sales/ModifySale/ModifySaleHandler.cs:73 | Two 128-bit ids with the same text are the same id, so the message names the product unambiguously. |
| Money.RoundHalfEven | backend/src/Ambev.DeveloperEvaluation.Domain/Entities/SaleItem.cs:50 | The result is the integer nearest to n/d, with a tie going to the even neighbour (`MidpointRounding.ToEven`), for negative numerators too. |
| Money.RoundNonNegative | backend/src/Ambev.DeveloperEvaluation.Domain/Entities/SaleItem.cs:50 | On non-negative inputs, the rounding meets the same half-to-even definition. |
| Money.RoundingUnique | backend/src/Ambev.DeveloperEvaluation.Domain/Entities/SaleItem.cs:46-50 | Half-to-even rounding has exactly one answer. Any two results satisfying the definition are equal. |
| Money.RoundingNegates | backend/src/Ambev.DeveloperEvaluation.Domain/Entities/SaleItem.cs:46 | Rounding is symmetric: negating the input negates the rounded result. |
| Money.RoundExact | backend/src/Ambev.DeveloperEvaluation.Domain/Entities/Sale.cs:90 | An exact multiple rounds to its own quotient. |
| Money.RoundBounds | backend/src/Ambev.DeveloperEvaluation.Domain/Entities/SaleItem.cs:48-50 | Rounding n/d with 0 <= n <= k*d lands in [0, k]. |
| Money.RoundingScales | backend/src/Ambev.DeveloperEvaluation.Domain/Entities/SaleItem.cs:46 | Scaling numerator and denominator by the same positive factor keeps the rounded value. |
| Money.RoundToCents | backend/src/Ambev.DeveloperEvaluation.Domain/Entities/SaleItem.cs:46 | `Math.Round(price, 2, ToEven)`: the cents are the decimal's value times 100, rounded half-to-even, at any input scale. A non-negative price gives non-negative cents. |
| Money.RoundToCentsOfCents | backend/src/Ambev.DeveloperEvaluation.Domain/Entities/Sale.cs:90 | Rounding an amount already in whole cents to two places is the identity. This is why the sale total's rounding never changes the sum. |
| SaleItems.DiscountRulesForQuantity | backend/src/Ambev.DeveloperEvaluation.Domain/Entities/SaleItem.cs:53-59 | The rules succeed exactly for quantities up to 20 and raise "Qty above 20 is not allowed." above. For 1-3 the discount is 0%, for 4-9 it is 10%, and for 10-20 it is 20%. |
| SaleItems.DiscountMonotone | backend/src/Ambev.DeveloperEvaluation.Domain/Entities/SaleItem.cs:53-57 | Buying more never lowers the discount. |
| SaleItems.LineTotal | backend/src/Ambev.DeveloperEvaluation.Domain/Entities/SaleItem.cs:48-50 | The total is qty × unit price × (100 − pct)% rounded half-to-even to cents, and lies between 0 and qty × unit price. |
| SaleItems.Apply | backend/src/Ambev.DeveloperEvaluation.Domain/Entities/SaleItem.cs:39-51 | A call fails exactly when quantity < 1, quantity > 20 or the price is negative. The first rule that fails names the error, in that order. On success the item has the new quantity and the price rounded to cents, its discount follows the tiers, and its total is the rounded net within [0, qty × price]. Id, product, name and cancelled flag are kept. |
| SaleItems.DiscountFallbackUnreachable | backend/src/Ambev.DeveloperEvaluation.Domain/Entities/SaleItem.cs:42-58 | The discount rules' "Qty above 20" raise can never escape `Apply`, because larger quantities are rejected first. |
| SaleItems.Create | backend/src/Ambev.DeveloperEvaluation.Domain/Entities/SaleItem.cs:22-33 | A new item fails exactly when `Apply` would, always with a domain error. The checks run in order: "Quantity must be at least 1.", then "Cannot sell more than 20 identical items.", then "Unit price cannot be negative.". Otherwise it carries the given id and product, the trimmed name, the quantity and the price rounded to cents, is priced by the tiers, and is not cancelled. |
| SaleItems.Update | backend/src/Ambev.DeveloperEvaluation.Domain/Entities/SaleItem.cs:35 | Re-pricing fails on the same inputs as `Apply`, with the same three messages in the same order. Otherwise it sets quantity and rounded price and keeps id, product, name and cancelled flag. |
| SaleItems.Cancel | backend/src/Ambev.DeveloperEvaluation.Domain/Entities/SaleItem.cs:37 | Cancelling sets the flag and changes no other field. |
| SaleItems.CancelIdempotent | backend/src/Ambev.DeveloperEvaluation.Domain/Entities/SaleItem.cs:37 | Cancelling twice is cancelling once. |
| SaleItems.CancelKeepsPriced | backend/src/Ambev.DeveloperEvaluation.Domain/Entities/SaleItem.cs:37 | A cancelled item keeps its valid quantity, discount and total. |
| SaleItems.UpdateAtSamePrice | backend/src/Ambev.DeveloperEvaluation.Application/Sales/ModifySale/ModifySaleHandler.cs:66 | Re-quantifying an item at its own unit price always succeeds for quantities 1-20 and leaves the unit price as it was. |
| Sales.Create | backend/src/Ambev.DeveloperEvaluation.Domain/Entities/Sale.cs:27-45 | It fails, with "Sale number is required.", exactly when the number is null or white space. Otherwise the sale has the trimmed, non-empty number, the trimmed customer and branch names, the given ids and date, no items, total 0, and is not cancelled. The new sale satisfies the aggregate invariant. |
| Sales.EnsureNotCancelled | backend/src/Ambev.DeveloperEvaluation.Domain/Entities/Sale.cs:93-96 | It raises "Sale is cancelled." exactly when the sale is cancelled. |
| Sales.RecalculateTotal | backend/src/Ambev.DeveloperEvaluation.Domain/Entities/Sale.cs:87-91 | The total becomes the sum of the active items' totals, and nothing else changes. |
| Sales.UniqueIdLookup | backend/src/Ambev.DeveloperEvaluation.Domain/Entities/Sale.cs:58 | With unique item ids, `SingleOrDefault` finds each item exactly once, at its own position. |
| Sales.NewItemId | backend/src/Ambev.DeveloperEvaluation.Domain/Entities/Sale.cs:50 | The id given to a new item is not empty and is carried by no existing item. |
| Sales.AddItem | backend/src/Ambev.DeveloperEvaluation.Domain/Entities/Sale.cs:47-53 | On a cancelled sale it raises "Sale is cancelled.". Otherwise it fails exactly when the item's creation fails, with that error. On success exactly one new item is appended after the unchanged existing items, the header is unchanged, and the total grows by the new item's total. |
| Sales.UpdateItem | backend/src/Ambev.DeveloperEvaluation.Domain/Entities/Sale.cs:55-61 | A cancelled sale raises "Sale is cancelled.". Otherwise no match raises "Item not found." and more than one match raises `SingleOrDefault`'s error. A single match succeeds exactly when the item's update does, and otherwise raises the item update's own error. On success only that item changes, and the total moves by the difference of its contributions. |
| Sales.CancelItem | backend/src/Ambev.DeveloperEvaluation.Domain/Entities/Sale.cs:63-69 | The errors are those of `UpdateItem`. With exactly one match it succeeds, cancels only that item and drops its contribution from the total. |
| Sales.RemoveItem | backend/src/Ambev.DeveloperEvaluation.Domain/Entities/Sale.cs:71-76 | A cancelled sale raises "Sale is cancelled.". Otherwise it always succeeds. An item remains exactly when it was there and has another id, the count drops by the number of matches, and an unknown id changes nothing. The remaining items are exactly `Without(items, id)`, in their original order. The total is recomputed over what remains. |
| Sales.KeptPositions | backend/src/Ambev.DeveloperEvaluation.Domain/Entities/Sale.cs:71-76 | The positions of the items whose id differs, strictly increasing, each pointing at such an item. |
| Sales.KeptPositionsComplete | backend/src/Ambev.DeveloperEvaluation.Domain/Entities/Sale.cs:71-76 | Every position holding an item with a different id is among the kept positions. |
| Sales.WithoutInOrder | backend/src/Ambev.DeveloperEvaluation.Domain/Entities/Sale.cs:71-76 | The list left after removal is the original list read at the kept positions, one for one: the survivors keep their relative order. |
| Sales.MutatorsRestoreTotal | backend/src/Ambev.DeveloperEvaluation.Domain/Entities/Sale.cs:47-76 | After any successful add, update, cancel-item or remove, the total equals the sum over active items, whatever total the sale had before. |
| Sales.AddItemWellFormed | backend/src/Ambev.DeveloperEvaluation.Domain/Entities/Sale.cs:47-53 | Adding an item under a fresh id keeps the aggregate invariant: unique ids, every item priced, and the total consistent while active. |
| Sales.UpdateItemWellFormed | backend/src/Ambev.DeveloperEvaluation.Domain/Entities/Sale.cs:55-61 | Updating an item keeps the aggregate invariant. |
| Sales.CancelItemWellFormed | backend/src/Ambev.DeveloperEvaluation.Domain/Entities/Sale.cs:63-69 | Cancelling an item keeps the aggregate invariant. |
| Sales.RemoveItemWellFormed | backend/src/Ambev.DeveloperEvaluation.Domain/Entities/Sale.cs:71-76 | Removing items keeps the aggregate invariant. |
| Sales.CancelAll | backend/src/Ambev.DeveloperEvaluation.Domain/Entities/Sale.cs:83-84 | Every item is cancelled in place, with the list's length and order kept. |
| Sales.Cancel | backend/src/Ambev.DeveloperEvaluation.Domain/Entities/Sale.cs:78-85 | An already-cancelled sale is returned unchanged. Otherwise the sale becomes cancelled with every item cancelled and no active item left. The total is frozen at its old value, and the header is kept. |
| Sales.CancelWellFormed | backend/src/Ambev.DeveloperEvaluation.Domain/Entities/Sale.cs:78-85 | Cancelling keeps the aggregate invariant: a cancelled sale has no active item. |
| Sales.CancelIdempotent | backend/src/Ambev.DeveloperEvaluation.Domain/Entities/Sale.cs:80 | Cancelling twice is cancelling once. |
| Sales.CancelFreezesTotal | backend/src/Ambev.DeveloperEvaluation.Domain/Entities/Sale.cs:78-85 | A cancelled sale's total is still the sum its items had while active, although its items now contribute nothing. |
| Linq.ToDictionary | backend/src/Ambev.DeveloperEvaluation.Application/Sales/ModifySale/ModifySaleHandler.cs:49-50 | It succeeds exactly when the keys are pairwise distinct, and then maps each element's key to that element. Otherwise it raises a duplicate-key error naming a key that two elements share. |
| Linq.Distinct | backend/src/Ambev.DeveloperEvaluation.Application/Sales/ModifySale/ModifySaleValidator.cs:18 | The result has the same members as the input, with no repeats. |
| Linq.DistinctCountIff | backend/src/Ambev.DeveloperEvaluation.Application/Sales/ModifySale/ModifySaleValidator.cs:17-19 | `Distinct().Count() == Count()` holds exactly when no id repeats. |
| Linq.Select | backend/src/Ambev.DeveloperEvaluation.WebApi/Handlers/GlobalExceptionHandler.cs:44-48 | The projection keeps length and order and maps each element. |
| Events.Name | backend/src/Ambev.DeveloperEvaluation.Application/Messaging/EventsConsts.cs:11-14 | Every event name lies in the `sales.` namespace. |
| Events.NamesIdentifyKinds | backend/src/Ambev.DeveloperEvaluation.Application/Messaging/EventsConsts.cs:11-14 | Two events share a name exactly when they are of the same kind. |
| Validators.DistinctProducts | backend/src/Ambev.DeveloperEvaluation.Application/Sales/ModifySale/ModifySaleValidator.cs:17-19 | The duplicate rule passes exactly when the product ids have no repeats. |
| Validators.DistinctProductsKeys | backend/src/Ambev.DeveloperEvaluation.Application/Sales/ModifySale/ModifySaleValidator.cs:17-19 | The duplicate rule passes exactly when the handler's product dictionary can be built from the request. |
| Validators.ModifyItemRules | backend/src/Ambev.DeveloperEvaluation.Application/Sales/ModifySale/ModifySaleValidator.cs:21-25 | A line fails exactly when its product id is empty or its quantity is outside [0, 20]. Each failure names the rule and the line's index. |
| Validators.ModifyCommandRules | backend/src/Ambev.DeveloperEvaluation.Application/Sales/ModifySale/ModifySaleValidator.cs:14-19 | The command-level rules fail exactly on an empty sale id, an empty item list or a repeated product, with one failure for each. |
| Validators.ValidateModifySale | backend/src/Ambev.DeveloperEvaluation.Application/Sales/ModifySale/ModifySaleValidator.cs:12-26 | Each per-line failure is reported exactly for the lines that break that rule, and nothing but the six rules' failures is reported. Failures come in rule-declaration order, the command rules first and then line by line, and none is reported twice. |
| Validators.ModifySaleCommandFailures | backend/src/Ambev.DeveloperEvaluation.Application/Sales/ModifySale/ModifySaleValidator.cs:14-19 | The full validator reports an empty sale id, an empty list and a repeated product exactly when they occur. |
| Validators.ModifySaleValidatorAccepts | backend/src/Ambev.DeveloperEvaluation.Application/Sales/ModifySale/ModifySaleValidator.cs:12-26 | A command is accepted exactly when all of the following hold: its sale id is not empty, it has items, no product repeats, and every line has a non-empty product and a quantity in [0, 20]. |
| Validators.ValidateModifySaleRequest | backend/src/Ambev.DeveloperEvaluation.WebApi/Features/Sales/ModifySale/ModifySaleRequestValidator.cs:9-18 | The web-layer request is accepted exactly when it has items, no product repeats and no product id is empty. Each failure is reported exactly when it occurs, and there is no sale-id or quantity rule. Failures come in declaration order and none is reported twice. |
| Validators.RequestFailuresAreCommandFailures | backend/src/Ambev.DeveloperEvaluation.WebApi/Features/Sales/ModifySale/ModifySaleRequestValidator.cs:9-18 | Everything the web layer rejects, the command validator rejects for the same reason. |
| Validators.RequestValidatorIsWeaker | backend/src/Ambev.DeveloperEvaluation.WebApi/Features/Sales/ModifySale/ModifySaleRequestValidator.cs:9-18 | The converse fails. A request with an empty sale id and a quantity of 21 passes the web layer, and the command validator rejects it with exactly those two failures. |
| Validators.ValidateCreateSaleItem | backend/src/Ambev.DeveloperEvaluation.Application/Sales/CreateSale/CreateSaleItemValidator.cs:15-23 | An item is accepted exactly for quantities 1-20. Quantities of 0 or below fail the lower bound and quantities above 20 fail the upper bound. The product-id rule can never fail. |
| Validators.CreateItemFailures | backend/src/Ambev.DeveloperEvaluation.Application/Sales/CreateSale/CreateSaleValidator.cs:31 | Every item is validated, and each failure names the index of the item that broke it. |
| Validators.CreateCommandRules | backend/src/Ambev.DeveloperEvaluation.Application/Sales/CreateSale/CreateSaleValidator.cs:15-29 | The four command-level rules fail exactly on a blank number, an empty customer id, an empty branch id and an empty item list. |
| Validators.ValidateCreateSale | backend/src/Ambev.DeveloperEvaluation.Application/Sales/CreateSale/CreateSaleValidator.cs:13-32 | Each failure is reported exactly when its rule is broken, at the index of each offending item, and nothing else is reported. Failures come in declaration order, the command rules first and then item by item, and none is reported twice. |
| Validators.OrderedNoRepeats | backend/src/Ambev.DeveloperEvaluation.Application/Sales/ModifySale/ModifySaleValidator.cs:12-26 | A failure list in declaration order has no repeated failure. |
| Validators.CreateSaleValidatorAccepts | backend/src/Ambev.DeveloperEvaluation.Application/Sales/CreateSale/CreateSaleValidator.cs:13-32 | A command is accepted exactly when all of the following hold: its number is not blank, both ids are set, it has items, and every quantity is in 1-20. One bad item rejects the command. |
| Validators.ValidQuantityCreatesItem | backend/src/Ambev.DeveloperEvaluation.Application/Sales/CreateSale/CreateSaleItemValidator.cs:19-23 | For an item of an accepted command, `SaleItem.Create` fails only on a negative price, never on the quantity. |
| Validators.RejectedQuantityFailsItem | backend/src/Ambev.DeveloperEvaluation.Application/Sales/CreateSale/CreateSaleItemValidator.cs:19-23 | A quantity the validator rejects would also be rejected by `SaleItem.Create`, so the two ranges coincide. |
| Validators.ValidateCancelSale | backend/src/Ambev.DeveloperEvaluation.Application/Sales/CancelSale/CancelSaleValidator.cs:14-16 | A cancel command fails exactly when its id is empty, with the single message "Sale ID cannot be empty.". |
| ModifySale.ApplyToExisting | backend/src/Ambev.DeveloperEvaluation.Application/Sales/ModifySale/ModifySaleHandler.cs:56-67 | A line for a product on the sale never adds an item. Quantity 0 records exactly one item-cancelled event, and any other quantity records none. |
| ModifySale.AddFromCatalog | backend/src/Ambev.DeveloperEvaluation.Application/Sales/ModifySale/ModifySaleHandler.cs:70-76 | A product missing from the catalog raises "Product {id} not found." as an application error. For a product in the catalog, the checks run in order. A cancelled sale raises "Sale is cancelled.". A quantity below 1 or above 20 raises the item's quantity error. A valid quantity succeeds exactly when the catalog price is not negative, and otherwise raises "Unit price cannot be negative.". On success exactly one catalog-built item is appended and no event is recorded. |
| ModifySale.ApplyEntry | backend/src/Ambev.DeveloperEvaluation.Application/Sales/ModifySale/ModifySaleHandler.cs:56-76 | A line adds at most one item and records only item cancellations. An absent product with quantity 0 or less is a no-op. An absent product with a positive quantity that the catalog lacks raises. |
| ModifySale.ApplyEntries | backend/src/Ambev.DeveloperEvaluation.Application/Sales/ModifySale/ModifySaleHandler.cs:54-77 | The first pass keeps the header, adds at most one item per line, and records only item cancellations. |
| ModifySale.CancelOmitted | backend/src/Ambev.DeveloperEvaluation.Application/Sales/ModifySale/ModifySaleHandler.cs:79-88 | The sweep over omitted items keeps the header and the item count and records only item cancellations. |
| ModifySale.Conclude | backend/src/Ambev.DeveloperEvaluation.Application/Sales/ModifySale/ModifySaleHandler.cs:90-101 | The sale ends up cancelled exactly when no item is active. Exactly one terminal event follows the earlier ones: sale-cancelled when the sale was cancelled, sale-modified otherwise. |
| ModifySale.Reconcile | backend/src/Ambev.DeveloperEvaluation.Application/Sales/ModifySale/ModifySaleHandler.cs:46-101 | A cancelled sale raises "Sale is cancelled.", and a sale with two items for one product raises a duplicate-key error. On success the sale keeps its id, no item is removed, and the events are item cancellations followed by exactly one terminal event matching the final state. |
| ModifySale.HandleModify | backend/src/Ambev.DeveloperEvaluation.Application/Sales/ModifySale/ModifySaleHandler.cs:33-105 | The handler stops before touching anything in three cases: an invalid command raises the validator's failures, an unknown sale raises "Sale not found.", and a cancelled sale raises "Sale is cancelled.". After those checks, a failed reconciliation becomes the handler's error unchanged: "Product {id} not found." for a missing product, an item or price error, or the duplicate-key error. Nothing after a successful reconciliation can fail, so the handler succeeds exactly when validation, the lookup and the reconciliation do. On success the reconciled sale replaces the stored one, it is saved once, and the reconciliation's events are published together. |
| ModifySaleSpec.ConcludeKeepsItems | backend/src/Ambev.DeveloperEvaluation.Application/Sales/ModifySale/ModifySaleHandler.cs:90-101 | The final cancellation changes no item, because it only happens when no item is active. The terminal event follows the swept events. |
| ModifySaleSpec.ReconcileSpec | backend/src/Ambev.DeveloperEvaluation.Application/Sales/ModifySale/ModifySaleHandler.cs:49-101 | For an active, well-formed sale, a validated request and additions that can all be sold, the reconciliation succeeds with the outcome listed after this table. |
| ModifySaleSpec.ReconcileStopsAtUnsellable | backend/src/Ambev.DeveloperEvaluation.Application/Sales/ModifySale/ModifySaleHandler.cs:70-76 | The first addition line, in request order, whose product is missing or negatively priced makes the whole reconciliation raise that product's error. |
| ModifySaleSpec.ValidatedRequestLines | backend/src/Ambev.DeveloperEvaluation.Application/Sales/ModifySale/ModifySaleHandler.cs:35-50 | A request the validator accepts never makes the incoming dictionary raise, and its quantities lie in [0, 20]. |
| ModifySaleSpec.HandleModifySucceeds | backend/src/Ambev.DeveloperEvaluation.Application/Sales/ModifySale/ModifySaleHandler.cs:33-105 | It applies to a validated command for a stored, active, well-formed sale with one item per product whose additions can all be sold. Such a command is handled, and the stored sale keeps the aggregate invariant. |
| CancelSale.HandleCancel | backend/src/Ambev.DeveloperEvaluation.Application/Sales/CancelSale/CancelSaleHandler.cs:21-44 | An empty id raises "Sale ID cannot be empty." and an unknown id raises "Sale not found.". The command succeeds exactly otherwise, reports success, and touches no other sale. An active sale is cancelled with its total frozen, saved once, and announced by one sale-cancelled event with its id. An already-cancelled sale causes no save and no event. |
| CancelSale.HandleCancelIdempotent | backend/src/Ambev.DeveloperEvaluation.Application/Sales/CancelSale/CancelSaleHandler.cs:34-43 | A second run on the store the first left changes nothing and publishes nothing. The two runs save at most once between them. |
| CancelSale.HandleCancelWellFormed | backend/src/Ambev.DeveloperEvaluation.Application/Sales/CancelSale/CancelSaleHandler.cs:34-37 | The cancelled sale keeps the aggregate invariant. |
| CancelSale.HandleCancelFreezesTotal | backend/src/Ambev.DeveloperEvaluation.Application/Sales/CancelSale/CancelSaleHandler.cs:34-37 | After cancelling, the stored total is the sum the items had while active, and the items contribute nothing. |
| CreateSale.AddLine | backend/src/Ambev.DeveloperEvaluation.Application/Sales/CreateSale/CreateSaleHandler.cs:58-60 | A product missing from the catalog raises "Product {id} not found." as a domain error. A negatively priced product with a valid quantity raises the item's price error. A sellable line always succeeds and appends exactly one item after the unchanged existing ones. |
| CreateSale.AddLineBuilds | backend/src/Ambev.DeveloperEvaluation.Application/Sales/CreateSale/CreateSaleHandler.cs:58-60 | The appended item carries the catalog's product id, the trimmed catalog name, the line's quantity and the catalog price rounded to cents, and is not cancelled. |
| CreateSale.AddLines | backend/src/Ambev.DeveloperEvaluation.Application/Sales/CreateSale/CreateSaleHandler.cs:56-61 | The item loop keeps the header and appends exactly one item per line after the existing items. |
| CreateSale.AddLinesItems | backend/src/Ambev.DeveloperEvaluation.Application/Sales/CreateSale/CreateSaleHandler.cs:56-61 | The j-th appended item is built from the catalog entry of the j-th line: items come in command order. |
| CreateSale.AddLinesWellFormed | backend/src/Ambev.DeveloperEvaluation.Application/Sales/CreateSale/CreateSaleHandler.cs:56-61 | The loop keeps the aggregate invariant. |
| CreateSale.AddLinesSucceeds | backend/src/Ambev.DeveloperEvaluation.Application/Sales/CreateSale/CreateSaleHandler.cs:56-61 | When every line is sellable, the loop succeeds. |
| CreateSale.AddLinesStopsAtUnsellable | backend/src/Ambev.DeveloperEvaluation.Application/Sales/CreateSale/CreateSaleHandler.cs:56-61 | The first line whose product is missing or negatively priced, after sellable lines only, makes the loop raise that line's error: not-found for a missing product, the price error otherwise. |
| CreateSale.HandleCreate | backend/src/Ambev.DeveloperEvaluation.Application/Sales/CreateSale/CreateSaleHandler.cs:41-68 | The checks run in order: an invalid command raises the validator's failures, then a missing customer raises "Customer not found.", then a missing branch raises "Branch not found.". On success the sale carries the given id and clock time, the trimmed number, and the resolved customer's and branch's ids and trimmed names. It has one catalog-built item per line in command order, keeps the aggregate invariant, is stored once, and is announced by exactly one sale-created event. |
| CreateSale.HandleCreateSucceeds | backend/src/Ambev.DeveloperEvaluation.Application/Sales/CreateSale/CreateSaleHandler.cs:41-68 | A validated command whose customer, branch and products all exist and are non-negatively priced is handled. In particular the validator's number rule is enough for `Sale.Create`. |
| CreateSale.HandleCreateStopsAtUnsellable | backend/src/Ambev.DeveloperEvaluation.Application/Sales/CreateSale/CreateSaleHandler.cs:56-61 | For a validated command with known customer and branch, the first line in command order whose product is missing or negatively priced decides the handler's error: "Product {id} not found." for a missing product, and the item's negative-price domain error for a product in the catalog. |
| ExceptionHandler.OrFallback | backend/src/Ambev.DeveloperEvaluation.WebApi/Handlers/GlobalExceptionHandler.cs:55 | A blank message is replaced by the fallback, and any other message is kept. |
| ExceptionHandler.MapException | backend/src/Ambev.DeveloperEvaluation.WebApi/Handlers/GlobalExceptionHandler.cs:35-79 | Validation and application exceptions map to 400, unauthorized access to 401, a missing key to 404, and anything else to 500. Success is always false. A validation failure answers "Validation Failed" with one error entry per failure, carrying its message and code in order. The other handled kinds answer their own message, or their fallback when it is blank. The rest answer "Internal server error: " followed by the message. |
| ExceptionHandler.MessageNeverBlank | backend/src/Ambev.DeveloperEvaluation.WebApi/Handlers/GlobalExceptionHandler.cs:39-77 | Whatever was raised, the client never receives a blank message. |
| ExceptionHandler.TryHandle | backend/src/Ambev.DeveloperEvaluation.WebApi/Handlers/GlobalExceptionHandler.cs:18-33 | The handler declines exactly when the response has started. Otherwise it writes JSON with one of 400/401/404/500 and an unsuccessful body. The status and body are exactly those `MapException` chooses for the exception, and the log is at error level exactly for the 500 case. |
| ExceptionHandler.ErrorStatus | backend/src/Ambev.DeveloperEvaluation.WebApi/Handlers/GlobalExceptionHandler.cs:35-79 | The core's own errors reach the client as follows. Validation and application errors are 400s, a missing sale is a 404, and `ToDictionary`'s and `SingleOrDefault`'s runtime errors are 500s. No core error is a 401. A validation error lists one entry per failed rule. |
| ExceptionHandler.HandlerMessagesReachClient | backend/src/Ambev.DeveloperEvaluation.WebApi/Handlers/GlobalExceptionHandler.cs:58-70 | "Sale not found." reaches the client verbatim as a 404. "Sale is cancelled." and "Product {id} not found." from the modify handler reach it verbatim as 400s. |

`ModifySaleSpec.ReconcileSpec` states this outcome for a successful reconciliation:

- The sale keeps its identity and header, and its total is the sum over active items.
- Every original item, at its own position, is in its expected final form:
  - an unrequested item or a quantity-0 line cancels it;
  - any other quantity re-quantifies it at its own unit price and keeps its cancelled flag.
- Then follows one catalog-built item per addition line, in request order.
- The sale is cancelled exactly when no item is active.
- The events are, in order:
  - the explicit cancellations in request order;
  - the implicit cancellations of still-active omitted items in item order;
  - one sale-cancelled or sale-modified event.

## Left out

- I/O, async and cancellation tokens: the model is sequential and pure. Saving is a count, and publishing is the returned event list.
- Timestamps on integration messages are not modelled. The sale's creation time is a parameter (`now`), and so is the new sale's id.
- Item ids: `Guid.NewGuid` is replaced by `Sales.NewItemId`, which picks an id no item on the sale carries. `Sales.AddItem` takes the id as a parameter, with the precondition that it is fresh. In the source, `SaleItem.Create` takes no id and the entity base class assigns one. That base class is not part of this model.
- `AddDomainEvent()` in `SaleItem.Create` refers to a method not part of this model and is left out.
- DomainException's HTTP status: its base class is not part of this model, so `ExceptionHandler.Raised` returns `None` for it and `ExceptionHandler.ErrorStatus` excludes it.
- FluentValidation's default messages and error codes are not modelled. Failures are rule variants, and `Validators.CustomMessage` gives the messages the validators set explicitly. `ExceptionHandler.Raised` takes the message-and-code rendering as a parameter.
- `ApiResponse`'s default `Errors` value is modelled as `None`, because its class is not part of this model.
- The logger's message text is not modelled; only the level is.
- The repository's `SaveChangesAsync`/`CreateAsync` and the message bus are outputs only. Their own failures are not modelled.
- The GetSale and GetAllSales handlers and their validators are pass-through queries and are not modelled.
- CreateSaleRequestValidator is not modelled. It runs asynchronous gateway checks and otherwise repeats the command validator.
- The mapping profiles and DTOs are not modelled; the web request is the command.
- Null references: only the create command's `Number` can be null (`Option`). Null item lists, names and DTO fields are not modelled.
- Common.Trim: .NET white space is an explicit list of the Unicode white-space characters that `char.IsWhiteSpace` accepts. There is no other Unicode handling.
- ModifySaleSpec.ReconcileSpec: it is stated under `Admissible` and `StockedUpTo`. These require an active, well-formed sale with one item per product, a validated request, and a catalog that returns each product under its own id. Each addition must also be sellable. The error paths outside these conditions are stated by `ModifySale.Reconcile` and `ModifySaleSpec.ReconcileStopsAtUnsellable`.
- ModifySaleSpec.HandleModifySucceeds: it states only that the command is handled and that the stored sale is well-formed. What is stored, saved and published comes from `ModifySale.HandleModify`'s contract, and the item-level outcome from `ModifySaleSpec.ReconcileSpec`.
- Decimal range: `decimal` overflow beyond 28 significant digits cannot happen in the model, because integers are unbounded.
- Common.GuidText: an id is a natural number, and its text is the lowest 128 bits written as 32 hex digits. The round trip and injectivity are stated for ids below 2^128, which are the only ids a .NET `Guid` can hold. The byte order that `Guid.ToByteArray` uses is not modelled, because only the text form is observable here.
