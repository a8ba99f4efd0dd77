/**
 * The modify-sale handler: it reconciles a sale's items with the requested
 * list of (product, quantity) pairs and collects the integration events to
 * publish.
 *
 * The reconciliation runs in three passes over the live sale:
 *   1. each requested line, in request order: a product already on the sale
 *      is cancelled (quantity 0) or re-quantified at its own unit price; an
 *      absent product with a positive quantity is added from the catalog;
 *   2. each item, in item order, whose product was not requested and that is
 *      still active is cancelled;
 *   3. a sale left without an active item is cancelled; otherwise it is
 *      reported as modified.
 * A raised exception aborts the whole command: nothing is saved and nothing
 * is published.
 */
module ModifySale {
  import opened Common
  import opened Money
  import opened Linq
  import SaleItems
  import opened Sales
  import opened Events
  import opened Ports
  import opened Commands
  import Validators

  function ItemProduct(it: SaleItem): Guid {
    it.productId
  }

  /** The sale as the loop has left it, and the events recorded so far. */
  datatype Progress = Progress(sale: Sale, events: seq<Event>)

  /** `events` is `prefix` followed by item cancellations only. */
  predicate AppendsItemCancels(prefix: seq<Event>, events: seq<Event>) {
    && |prefix| <= |events|
    && events[..|prefix|] == prefix
    && forall i :: |prefix| <= i < |events| ==> events[i].SaleItemCancelled?
  }

  lemma AppendsItemCancelsTrans(a: seq<Event>, b: seq<Event>, c: seq<Event>)
    requires AppendsItemCancels(a, b) && AppendsItemCancels(b, c)
    ensures AppendsItemCancels(a, c)
  {
    assert c[..|a|] == c[..|b|][..|a|];
  }

  /** Appending item cancellations, or nothing, extends the prefix. */
  lemma AppendsItemCancelsExtend(prefix: seq<Event>, more: seq<Event>)
    requires forall i :: 0 <= i < |more| ==> more[i].SaleItemCancelled?
    ensures AppendsItemCancels(prefix, prefix + more)
  {
    assert (prefix + more)[..|prefix|] == prefix;
  }

  /** The sale keeps its identity and header; only items and total move. */
  predicate SameHeader(a: Sale, b: Sale) {
    b.(items := a.items, total := a.total) == a
  }

  /** A requested line whose product is on the sale: quantity 0 cancels the
      item and records the cancellation; any other quantity re-prices the item
      at its own current unit price. */
  function ApplyToExisting(p: Progress, current: SaleItem, qty: int): (r: Result<Progress>)
    ensures r.Ok? ==> SameHeader(p.sale, r.value.sale) && |r.value.sale.items| == |p.sale.items|
    ensures r.Ok? ==> r.value.events == p.events + (if qty == 0 then [SaleItemCancelled(current.id)] else [])
    ensures r.Ok? ==> AppendsItemCancels(p.events, r.value.events)
  {
    if qty == 0 then
      var s :- CancelItem(p.sale, current.id);
      AppendsItemCancelsExtend(p.events, [SaleItemCancelled(current.id)]);
      Ok(Progress(s, p.events + [SaleItemCancelled(current.id)]))
    else
      var s :- UpdateItem(p.sale, current.id, qty, Cents(current.unitPrice));
      AppendsItemCancelsExtend(p.events, []);
      assert p.events + [] == p.events;
      Ok(Progress(s, p.events))
  }

  /** A requested line whose product is not on the sale and whose quantity is
      positive: the product is looked up and appended with the catalog's name
      and price. A missing product is the handler's own error; past the lookup
      the sale's and the item's checks raise theirs, in that order. */
  function AddFromCatalog(p: Progress, productId: Guid, qty: int, catalog: ProductCatalog): (r: Result<Progress>)
    ensures productId !in catalog ==> r == Err(ApplicationError(ProductNotFoundMessage(productId)))
    ensures productId in catalog && p.sale.isCancelled ==> r == Err(DomainError(SaleIsCancelled))
    ensures productId in catalog && !p.sale.isCancelled && qty < 1 ==>
              r == Err(DomainError(SaleItems.QuantityBelowOne))
    ensures productId in catalog && !p.sale.isCancelled && qty > 20 ==>
              r == Err(DomainError(SaleItems.QuantityAboveTwenty))
    ensures productId in catalog && !p.sale.isCancelled && 1 <= qty <= 20 ==>
              (catalog[productId].price.mantissa < 0 <==> r == Err(DomainError(SaleItems.NegativeUnitPrice)))
    ensures productId in catalog && !p.sale.isCancelled && 1 <= qty <= 20 ==>
              (catalog[productId].price.mantissa >= 0 <==> r.Ok?)
    ensures r.Ok? ==> SameHeader(p.sale, r.value.sale) && |r.value.sale.items| == |p.sale.items| + 1
    ensures r.Ok? ==> FromCatalog(r.value.sale.items[|p.sale.items|], productId, qty, catalog)
    ensures r.Ok? ==> r.value.events == p.events && AppendsItemCancels(p.events, r.value.events)
  {
    if productId !in catalog then
      Err(ApplicationError(ProductNotFoundMessage(productId)))
    else
      var product := catalog[productId];
      var s :- AddItem(p.sale, NewItemId(p.sale), product.id, product.name, qty, product.price);
      AppendsItemCancelsExtend(p.events, []);
      assert p.events + [] == p.events;
      Ok(Progress(s, p.events))
  }

  /** One requested line. `existing` is the product-to-item dictionary built
      before the loop, so items added by earlier lines are not in it. */
  function ApplyEntry(p: Progress, existing: map<Guid, SaleItem>, e: ModifySaleItem,
                      catalog: ProductCatalog): (r: Result<Progress>)
    ensures r.Ok? ==> SameHeader(p.sale, r.value.sale)
    ensures r.Ok? ==> |p.sale.items| <= |r.value.sale.items| <= |p.sale.items| + 1
    ensures r.Ok? ==> AppendsItemCancels(p.events, r.value.events)
    ensures e.productId !in existing && e.quantity > 0 && e.productId !in catalog ==>
              r == Err(ApplicationError(ProductNotFoundMessage(e.productId)))
    ensures e.productId !in existing && e.quantity <= 0 ==> r == Ok(p)
  {
    if e.productId in existing then ApplyToExisting(p, existing[e.productId], e.quantity)
    else if e.quantity > 0 then AddFromCatalog(p, e.productId, e.quantity, catalog)
    else
      AppendsItemCancelsExtend(p.events, []);
      assert p.events + [] == p.events;
      Ok(p)
  }

  /** The first pass: every requested line in order; the first raise wins. */
  function ApplyEntries(p: Progress, existing: map<Guid, SaleItem>, entries: seq<ModifySaleItem>,
                        catalog: ProductCatalog): (r: Result<Progress>)
    ensures r.Ok? ==> SameHeader(p.sale, r.value.sale)
    ensures r.Ok? ==> |p.sale.items| <= |r.value.sale.items| <= |p.sale.items| + |entries|
    ensures r.Ok? ==> AppendsItemCancels(p.events, r.value.events)
    decreases |entries|
  {
    if |entries| == 0 then Ok(p)
    else
      var q :- ApplyEntry(p, existing, entries[0], catalog);
      var r := ApplyEntries(q, existing, entries[1..], catalog);
      if r.Ok? then AppendsItemCancelsTrans(p.events, q.events, r.value.events); r
      else r
  }

  /** The second pass, from item `i` on: every still-active item whose
      product was not requested is cancelled, with one event each. */
  function CancelOmitted(p: Progress, requested: set<Guid>, i: nat): (r: Result<Progress>)
    ensures r.Ok? ==> SameHeader(p.sale, r.value.sale) && |r.value.sale.items| == |p.sale.items|
    ensures r.Ok? ==> AppendsItemCancels(p.events, r.value.events)
    decreases |p.sale.items| - i
  {
    if i >= |p.sale.items| then Ok(p)
    else
      var item := p.sale.items[i];
      if item.productId !in requested && !item.isCancelled then
        var s :- CancelItem(p.sale, item.id);
        var q := Progress(s, p.events + [SaleItemCancelled(item.id)]);
        var r := CancelOmitted(q, requested, i + 1);
        if r.Ok? then AppendsItemCancelsTrans(p.events, q.events, r.value.events); r
        else r
      else
        CancelOmitted(p, requested, i + 1)
  }

  /** `events` is item cancellations followed by the one terminal event for
      the final sale `s`: `SaleCancelled` with the sale's id when it ended up
      cancelled, `SaleModified` carrying `s` otherwise. */
  predicate Terminated(s: Sale, events: seq<Event>) {
    && |events| > 0
    && AppendsItemCancels([], events[..|events| - 1])
    && events[|events| - 1] == (if s.isCancelled then SaleCancelled(s.id) else SaleModified(s))
  }

  /** The third pass: a sale left without an active item is cancelled and
      `SaleCancelled` is recorded; a sale still active after that is reported
      with `SaleModified`. Exactly one of the two is recorded. */
  function Conclude(p: Progress): (r: (Sale, seq<Event>))
    ensures |r.0.items| == |p.sale.items|
    ensures r.0.id == p.sale.id
    ensures !p.sale.isCancelled ==> (r.0.isCancelled <==> !HasActiveItem(p.sale.items))
    ensures !p.sale.isCancelled ==> |r.1| == |p.events| + 1 && r.1[..|p.events|] == p.events
    ensures !p.sale.isCancelled && AppendsItemCancels([], p.events) ==> Terminated(r.0, r.1)
  {
    var (s, events) :=
      if !HasActiveItem(p.sale.items) then (Cancel(p.sale), p.events + [SaleCancelled(p.sale.id)])
      else (p.sale, p.events);
    var r := if !s.isCancelled then (s, events + [SaleModified(s)]) else (s, events);
    assert !p.sale.isCancelled ==> r.1[..|p.events|] == p.events;
    r
  }

  /** The reconciliation proper, for a sale the store returned. On success,
      the events are item cancellations followed by exactly one terminal
      event: `SaleCancelled` when the sale ended up cancelled, `SaleModified`
      with the final sale otherwise. */
  function Reconcile(sale: Sale, items: seq<ModifySaleItem>, catalog: ProductCatalog)
    : (r: Result<(Sale, seq<Event>)>)
    ensures sale.isCancelled ==> r == Err(ApplicationError(SaleIsCancelled))
    ensures !sale.isCancelled && !DistinctKeys(sale.items, ItemProduct) ==> r.Err? && r.error.DuplicateKey?
    ensures r.Ok? ==> r.value.0.id == sale.id && |r.value.0.items| >= |sale.items|
    ensures r.Ok? ==> Terminated(r.value.0, r.value.1)
  {
    if sale.isCancelled then Err(ApplicationError(SaleIsCancelled))
    else
      var existing :- ToDictionary(sale.items, ItemProduct);
      var incoming :- ToDictionary(items, EntryProduct);
      var looped :- ApplyEntries(Progress(sale, []), existing, items, catalog);
      var swept :- CancelOmitted(looped, incoming.Keys, 0);
      AppendsItemCancelsTrans([], looped.events, swept.events);
      Ok(Conclude(swept))
  }

  /** What a successful command leaves behind: the updated store, how many
      times it was saved, the events published, and the sale returned. */
  datatype Handled = Handled(store: SaleStore, saves: nat, published: seq<Event>, sale: Sale)

  /** `ModifySaleHandler.Handle`. Validation, the store lookup and the
      cancelled check run before anything is touched; on success the sale is
      saved once and the events are published together afterwards. */
  function HandleModify(cmd: ModifySaleCommand, store: SaleStore, catalog: ProductCatalog)
    : (r: Result<Handled>)
    ensures Validators.ValidateModifySale(cmd) != [] ==>
              r == Err(ValidationError(Validators.ValidateModifySale(cmd)))
    ensures Validators.ValidateModifySale(cmd) == [] && cmd.saleId !in store ==>
              r == Err(NotFound(SaleNotFound))
    ensures Validators.ValidateModifySale(cmd) == [] && cmd.saleId in store && store[cmd.saleId].isCancelled ==>
              r == Err(ApplicationError(SaleIsCancelled))
    ensures (&& Validators.ValidateModifySale(cmd) == [] && cmd.saleId in store
             && Reconcile(store[cmd.saleId], cmd.items, catalog).Err?) ==>
              r == Err(Reconcile(store[cmd.saleId], cmd.items, catalog).error)
    ensures (&& Validators.ValidateModifySale(cmd) == [] && cmd.saleId in store
             && Reconcile(store[cmd.saleId], cmd.items, catalog).Ok?) ==>
              r.Ok?
    ensures r.Ok? ==> (&& cmd.saleId in store
                       && Reconcile(store[cmd.saleId], cmd.items, catalog).Ok?
                       && var (s, events) := Reconcile(store[cmd.saleId], cmd.items, catalog).value;
                       && r.value.store == store[cmd.saleId := s]
                       && r.value.saves == 1
                       && r.value.published == events
                       && r.value.sale == s)
  {
    var failures := Validators.ValidateModifySale(cmd);
    if failures != [] then Err(ValidationError(failures))
    else if cmd.saleId !in store then Err(NotFound(SaleNotFound))
    else
      var (s, events) :- Reconcile(store[cmd.saleId], cmd.items, catalog);
      Ok(Handled(store[cmd.saleId := s], 1, events, s))
  }
}
