/**
 * What the modify-sale reconciliation computes, stated item by item and
 * event by event without reference to the loop that computes it, and the
 * proof that `ModifySale.Reconcile` meets it.
 *
 * The statement assumes what the handler's own checks and the data it reads
 * guarantee: an active, well-formed sale whose items name distinct products;
 * a validated request (distinct products, quantities in [0, 20]); a catalog
 * that returns each product under its own id, with a non-negative price for
 * every product that has to be added.
 */
module ModifySaleSpec {
  import opened Common
  import opened Money
  import opened Linq
  import SaleItems
  import opened Sales
  import opened Events
  import opened Ports
  import opened Commands
  import Validators
  import opened ModifySale

  // ---------------------------------------------------------------------
  // The reference outcome

  ghost predicate ValidQuantities(lines: seq<ModifySaleItem>) {
    forall i :: 0 <= i < |lines| ==> 0 <= lines[i].quantity <= 20
  }

  /** The request line naming `productId`, if any. */
  function LineFor(lines: seq<ModifySaleItem>, productId: Guid): (r: Option<ModifySaleItem>)
    ensures r.None? <==> forall i :: 0 <= i < |lines| ==> lines[i].productId != productId
    ensures r.Some? ==> r.value.productId == productId && exists i :: 0 <= i < |lines| && lines[i] == r.value
  {
    if |lines| == 0 then None
    else
      var n := |lines| - 1;
      assert forall i :: 0 <= i < n ==> lines[..n][i] == lines[i];
      if lines[n].productId == productId then Some(lines[n]) else LineFor(lines[..n], productId)
  }

  /** The products already on the sale. */
  function SaleProducts(sale: Sale): set<Guid> {
    KeySet(sale.items, ItemProduct)
  }

  /** The products the request names. */
  function Requested(lines: seq<ModifySaleItem>): set<Guid> {
    KeySet(lines, EntryProduct)
  }

  /** The product-to-item dictionary the handler builds from the sale. */
  ghost function Existing(sale: Sale): map<Guid, SaleItem>
    requires DistinctKeys(sale.items, ItemProduct)
  {
    ToDictionary(sale.items, ItemProduct).value
  }

  /** The item carrying `productId`, as the dictionary returns it. */
  ghost function ItemFor(sale: Sale, productId: Guid): (it: SaleItem)
    requires DistinctKeys(sale.items, ItemProduct) && productId in SaleProducts(sale)
    ensures it in sale.items && it.productId == productId
  {
    var i :| 0 <= i < |sale.items| && sale.items[i].productId == productId;
    Existing(sale)[productId]
  }

  /** An item re-quantified at its own unit price. */
  ghost function Requantified(it: SaleItem, qty: int): SaleItems.SaleItem
    requires it.unitPrice >= 0 && 1 <= qty <= 20
  {
    SaleItems.Update(it, qty, Cents(it.unitPrice)).value
  }

  /** What the request does to an item that was on the sale: an unrequested
      product's item ends up cancelled; quantity 0 cancels it; any other
      quantity re-quantifies it at its own unit price and leaves its
      cancelled flag alone. */
  ghost function Expected(it: SaleItem, lines: seq<ModifySaleItem>): SaleItem
    requires it.unitPrice >= 0 && ValidQuantities(lines)
  {
    match LineFor(lines, it.productId)
    case None => SaleItems.Cancel(it)
    case Some(e) => if e.quantity == 0 then SaleItems.Cancel(it) else Requantified(it, e.quantity)
  }

  /** The lines that add a new item: a product not on the sale, with a
      positive quantity, in request order. */
  function Additions(products: set<Guid>, lines: seq<ModifySaleItem>): (r: seq<ModifySaleItem>)
    ensures |r| <= |lines|
    ensures forall j :: 0 <= j < |r| ==> r[j] in lines && r[j].productId !in products && r[j].quantity > 0
  {
    if |lines| == 0 then []
    else
      var n := |lines| - 1;
      var e := lines[n];
      Additions(products, lines[..n]) + (if e.productId !in products && e.quantity > 0 then [e] else [])
  }

  /** The item appended for an addition line: what `SaleItem.Create` makes of
      the catalog entry, under some fresh id. */
  ghost predicate IsAddition(it: SaleItem, e: ModifySaleItem, catalog: ProductCatalog) {
    FromCatalog(it, e.productId, e.quantity, catalog)
  }

  /** One `SaleItemCancelled` per line with quantity 0 naming a product on the
      sale, in request order, carrying that product's item id. */
  ghost function ExplicitCancels(sale: Sale, lines: seq<ModifySaleItem>): seq<Event>
    requires DistinctKeys(sale.items, ItemProduct)
  {
    if |lines| == 0 then []
    else
      var n := |lines| - 1;
      var e := lines[n];
      ExplicitCancels(sale, lines[..n])
        + (if e.productId in SaleProducts(sale) && e.quantity == 0 then [SaleItemCancelled(ItemFor(sale, e.productId).id)] else [])
  }

  /** One `SaleItemCancelled` per still-active item whose product is not
      requested, in item order. */
  function ImplicitCancels(items: seq<SaleItem>, requested: set<Guid>): seq<Event> {
    if |items| == 0 then []
    else
      var n := |items| - 1;
      var it := items[n];
      ImplicitCancels(items[..n], requested)
        + (if it.productId !in requested && !it.isCancelled then [SaleItemCancelled(it.id)] else [])
  }

  /** What the handler's checks and the validator establish before the loop:
      an active well-formed sale with one item per product, a request with
      one line per product and quantities in [0, 20], and a catalog that
      returns each product under its own id. */
  ghost predicate Admissible(sale: Sale, lines: seq<ModifySaleItem>, catalog: ProductCatalog) {
    && WellFormed(sale) && !sale.isCancelled
    && DistinctKeys(sale.items, ItemProduct)
    && DistinctKeys(lines, EntryProduct)
    && ValidQuantities(lines)
    && CoherentCatalog(catalog)
  }

  /** Line `i` adds a product that is not on the sale. */
  predicate IsAdditionLine(sale: Sale, lines: seq<ModifySaleItem>, i: nat)
    requires i < |lines|
  {
    lines[i].productId !in SaleProducts(sale) && lines[i].quantity > 0
  }

  /** Every addition line before `k` names a catalog product with a
      non-negative price. */
  ghost predicate StockedUpTo(sale: Sale, lines: seq<ModifySaleItem>, catalog: ProductCatalog, k: nat)
    requires k <= |lines|
  {
    forall i :: 0 <= i < k && IsAdditionLine(sale, lines, i) ==>
      lines[i].productId in catalog && catalog[lines[i].productId].price.mantissa >= 0
  }

  // ---------------------------------------------------------------------
  // First pass

  /** An item after the first pass over `done`: unrequested items are left
      alone; the second pass cancels them. */
  ghost function Revised(it: SaleItem, done: seq<ModifySaleItem>): SaleItem
    requires it.unitPrice >= 0 && ValidQuantities(done)
  {
    match LineFor(done, it.productId)
    case None => it
    case Some(e) => if e.quantity == 0 then SaleItems.Cancel(it) else Requantified(it, e.quantity)
  }

  /** The sale's own items, at their own positions, as the lines in `done`
      left them. */
  ghost predicate Revisions(sale: Sale, done: seq<ModifySaleItem>, items: seq<SaleItem>)
    requires WellFormed(sale) && ValidQuantities(done)
  {
    && |sale.items| <= |items|
    && forall i :: 0 <= i < |sale.items| ==> items[i] == Revised(sale.items[i], done)
  }

  /** After the sale's own items, one new item per addition line in `done`,
      in line order. */
  ghost predicate Appended(sale: Sale, done: seq<ModifySaleItem>, catalog: ProductCatalog, items: seq<SaleItem>) {
    var adds := Additions(SaleProducts(sale), done);
    && |items| == |sale.items| + |adds|
    && forall j :: 0 <= j < |adds| ==> IsAddition(items[|sale.items| + j], adds[j], catalog)
  }

  /** What the sale and the events look like after the first `k` lines. */
  ghost predicate AfterLines(sale: Sale, lines: seq<ModifySaleItem>, k: nat, catalog: ProductCatalog, p: Progress)
    requires Admissible(sale, lines, catalog) && k <= |lines|
  {
    && SameHeader(sale, p.sale)
    && WellFormed(p.sale)
    && Revisions(sale, lines[..k], p.sale.items)
    && Appended(sale, lines[..k], catalog, p.sale.items)
    && p.events == ExplicitCancels(sale, lines[..k])
  }

  /** The processed prefix grows by line `k`. */
  lemma PrefixValid(lines: seq<ModifySaleItem>, k: nat)
    requires ValidQuantities(lines) && k < |lines|
    ensures lines[..k + 1] == lines[..k] + [lines[k]]
    ensures ValidQuantities(lines[..k]) && ValidQuantities(lines[..k + 1])
  {
    assert forall j :: 0 <= j <= k ==> lines[..k + 1][j] == lines[j];
  }

  /** An item line `k` does not name keeps its revision. */
  lemma RevisedUntouched(it: SaleItem, lines: seq<ModifySaleItem>, k: nat)
    requires it.unitPrice >= 0 && ValidQuantities(lines) && k < |lines|
    requires it.productId != lines[k].productId
    ensures ValidQuantities(lines[..k]) && ValidQuantities(lines[..k + 1])
    ensures Revised(it, lines[..k + 1]) == Revised(it, lines[..k])
  {
    PrefixValid(lines, k);
    assert lines[..k + 1][..k] == lines[..k];
  }

  /** The item line `k` names takes what that line asks for. */
  lemma RevisedTouched(it: SaleItem, lines: seq<ModifySaleItem>, k: nat)
    requires it.unitPrice >= 0 && ValidQuantities(lines) && k < |lines|
    requires it.productId == lines[k].productId
    ensures ValidQuantities(lines[..k + 1])
    ensures Revised(it, lines[..k + 1]) ==
              if lines[k].quantity == 0 then SaleItems.Cancel(it) else Requantified(it, lines[k].quantity)
  {
    PrefixValid(lines, k);
  }

  lemma PrefixAdditions(sale: Sale, lines: seq<ModifySaleItem>, k: nat)
    requires k < |lines|
    ensures Additions(SaleProducts(sale), lines[..k + 1]) ==
              Additions(SaleProducts(sale), lines[..k]) + (if IsAdditionLine(sale, lines, k) then [lines[k]] else [])
  {
    assert lines[..k + 1][..k] == lines[..k];
  }

  lemma PrefixExplicitCancels(sale: Sale, lines: seq<ModifySaleItem>, k: nat)
    requires DistinctKeys(sale.items, ItemProduct) && k < |lines|
    ensures ExplicitCancels(sale, lines[..k + 1]) ==
              ExplicitCancels(sale, lines[..k])
                + (if lines[k].productId in SaleProducts(sale) && lines[k].quantity == 0
                   then [SaleItemCancelled(ItemFor(sale, lines[k].productId).id)] else [])
  {
    assert lines[..k + 1][..k] == lines[..k];
  }

  /** The line's own item moves to what the line asks for; every other item
      of the sale keeps its revision. */
  lemma RevisionsSet(sale: Sale, lines: seq<ModifySaleItem>, k: nat, items: seq<SaleItem>, i: nat)
    requires WellFormed(sale) && DistinctKeys(sale.items, ItemProduct) && ValidQuantities(lines) && k < |lines|
    requires ValidQuantities(lines[..k]) && Revisions(sale, lines[..k], items)
    requires i < |sale.items| && sale.items[i].productId == lines[k].productId
    ensures ValidQuantities(lines[..k + 1])
    ensures Revisions(sale, lines[..k + 1], items[i := Revised(sale.items[i], lines[..k + 1])])
  {
    PrefixValid(lines, k);
    forall i' | 0 <= i' < |sale.items| && i' != i
      ensures Revised(sale.items[i'], lines[..k + 1]) == Revised(sale.items[i'], lines[..k])
    {
      assert sale.items[i'].productId != sale.items[i].productId;
      RevisedUntouched(sale.items[i'], lines, k);
    }
  }

  /** A line for a product not on the sale leaves every revision alone. */
  lemma RevisionsKeep(sale: Sale, lines: seq<ModifySaleItem>, k: nat, items: seq<SaleItem>, extra: seq<SaleItem>)
    requires WellFormed(sale) && ValidQuantities(lines) && k < |lines|
    requires ValidQuantities(lines[..k]) && Revisions(sale, lines[..k], items)
    requires lines[k].productId !in SaleProducts(sale)
    ensures ValidQuantities(lines[..k + 1])
    ensures Revisions(sale, lines[..k + 1], items + extra)
  {
    PrefixValid(lines, k);
    forall i' | 0 <= i' < |sale.items|
      ensures Revised(sale.items[i'], lines[..k + 1]) == Revised(sale.items[i'], lines[..k])
    {
      assert sale.items[i'].productId != lines[k].productId;
      RevisedUntouched(sale.items[i'], lines, k);
    }
  }

  /** A line that adds nothing leaves the appended items alone, whatever it
      does to the sale's own items. */
  lemma AppendedSet(sale: Sale, lines: seq<ModifySaleItem>, k: nat, catalog: ProductCatalog,
                    items: seq<SaleItem>, i: nat, x: SaleItem)
    requires k < |lines| && Appended(sale, lines[..k], catalog, items)
    requires !IsAdditionLine(sale, lines, k) && i < |sale.items|
    ensures Appended(sale, lines[..k + 1], catalog, items[i := x])
  {
    PrefixAdditions(sale, lines, k);
    var adds := Additions(SaleProducts(sale), lines[..k]);
    assert Additions(SaleProducts(sale), lines[..k + 1]) == adds + [];
    assert adds + [] == adds;
  }

  /** A line that adds nothing and touches nothing leaves the appended
      items as they are. */
  lemma AppendedKeep(sale: Sale, lines: seq<ModifySaleItem>, k: nat, catalog: ProductCatalog, items: seq<SaleItem>)
    requires k < |lines| && Appended(sale, lines[..k], catalog, items)
    requires !IsAdditionLine(sale, lines, k)
    ensures Appended(sale, lines[..k + 1], catalog, items)
  {
    PrefixAdditions(sale, lines, k);
    var adds := Additions(SaleProducts(sale), lines[..k]);
    assert Additions(SaleProducts(sale), lines[..k + 1]) == adds + [];
    assert adds + [] == adds;
  }

  /** An addition line appends the item built for it. */
  lemma AppendedAdd(sale: Sale, lines: seq<ModifySaleItem>, k: nat, catalog: ProductCatalog,
                    items: seq<SaleItem>, x: SaleItem)
    requires k < |lines| && Appended(sale, lines[..k], catalog, items)
    requires IsAdditionLine(sale, lines, k) && IsAddition(x, lines[k], catalog)
    ensures Appended(sale, lines[..k + 1], catalog, items + [x])
  {
    PrefixAdditions(sale, lines, k);
    MatchedSnoc(|sale.items|, Additions(SaleProducts(sale), lines[..k]), items, x, lines[k], catalog);
  }

  /** Items matching their addition lines after position `n` keep matching
      when one more pair is appended. */
  lemma MatchedSnoc(n: nat, adds: seq<ModifySaleItem>, items: seq<SaleItem>, x: SaleItem,
                      e: ModifySaleItem, catalog: ProductCatalog)
    requires |items| == n + |adds|
    requires forall j :: 0 <= j < |adds| ==> IsAddition(items[n + j], adds[j], catalog)
    requires IsAddition(x, e, catalog)
    ensures forall j :: 0 <= j < |adds| + 1 ==> IsAddition((items + [x])[n + j], (adds + [e])[j], catalog)
  {
    forall j | 0 <= j < |adds| + 1
      ensures IsAddition((items + [x])[n + j], (adds + [e])[j], catalog)
    {
      if j < |adds| {
        assert (items + [x])[n + j] == items[n + j];
      }
    }
  }

  /** A line naming a product on the sale finds the item as it was before
      the loop: no earlier line named the same product. */
  lemma FirstTouch(sale: Sale, lines: seq<ModifySaleItem>, k: nat, catalog: ProductCatalog, p: Progress, i: nat)
    requires Admissible(sale, lines, catalog) && k < |lines| && AfterLines(sale, lines, k, catalog, p)
    requires i < |sale.items| && sale.items[i].productId == lines[k].productId
    ensures LineFor(lines[..k], lines[k].productId) == None
    ensures p.sale.items[i] == sale.items[i] == Existing(sale)[lines[k].productId]
    ensures MatchCount(p.sale.items, sale.items[i].id) == 1 && IndexOf(p.sale.items, sale.items[i].id) == i
  {
    var done := lines[..k];
    forall j | 0 <= j < k ensures done[j].productId != lines[k].productId {
      assert done[j] == lines[j];
    }
    UniqueIdLookup(p.sale.items, i);
  }

  /** What the loop body does with a line of quantity 0 for item `i`. */
  lemma ApplyCancelLine(p: Progress, existing: map<Guid, SaleItem>, e: ModifySaleItem, catalog: ProductCatalog, i: nat)
    requires WellFormed(p.sale) && !p.sale.isCancelled && i < |p.sale.items|
    requires e.productId in existing && existing[e.productId] == p.sale.items[i] && e.quantity == 0
    ensures ApplyEntry(p, existing, e, catalog).Ok?
    ensures var q := ApplyEntry(p, existing, e, catalog).value;
            && SameHeader(p.sale, q.sale) && WellFormed(q.sale)
            && q.sale.items == p.sale.items[i := SaleItems.Cancel(p.sale.items[i])]
            && q.events == p.events + [SaleItemCancelled(p.sale.items[i].id)]
  {
    UniqueIdLookup(p.sale.items, i);
    CancelItemWellFormed(p.sale, p.sale.items[i].id);
  }

  /** What the loop body does with a line of positive quantity for item `i`. */
  lemma ApplyUpdateLine(p: Progress, existing: map<Guid, SaleItem>, e: ModifySaleItem, catalog: ProductCatalog, i: nat)
    requires WellFormed(p.sale) && !p.sale.isCancelled && i < |p.sale.items|
    requires e.productId in existing && existing[e.productId] == p.sale.items[i] && 1 <= e.quantity <= 20
    ensures p.sale.items[i].unitPrice >= 0
    ensures ApplyEntry(p, existing, e, catalog).Ok?
    ensures var q := ApplyEntry(p, existing, e, catalog).value;
            && SameHeader(p.sale, q.sale) && WellFormed(q.sale)
            && q.sale.items == p.sale.items[i := Requantified(p.sale.items[i], e.quantity)]
            && q.events == p.events
  {
    var current := p.sale.items[i];
    assert SaleItems.Priced(current);
    UniqueIdLookup(p.sale.items, i);
    SaleItems.UpdateAtSamePrice(current, e.quantity);
    UpdateItemWellFormed(p.sale, current.id, e.quantity, Cents(current.unitPrice));
  }

  /** A line with quantity 0 for a product on the sale cancels its item and
      records the cancellation. */
  lemma CancelLineStep(sale: Sale, lines: seq<ModifySaleItem>, k: nat, catalog: ProductCatalog, p: Progress)
    requires Admissible(sale, lines, catalog) && k < |lines| && AfterLines(sale, lines, k, catalog, p)
    requires lines[k].productId in SaleProducts(sale) && lines[k].quantity == 0
    ensures ApplyEntry(p, Existing(sale), lines[k], catalog).Ok?
    ensures AfterLines(sale, lines, k + 1, catalog, ApplyEntry(p, Existing(sale), lines[k], catalog).value)
  {
    var e := lines[k];
    var i :| 0 <= i < |sale.items| && sale.items[i].productId == e.productId;
    FirstTouch(sale, lines, k, catalog, p, i);
    var current := sale.items[i];
    ApplyCancelLine(p, Existing(sale), e, catalog, i);
    RevisedTouched(current, lines, k);
    RevisionsSet(sale, lines, k, p.sale.items, i);
    AppendedSet(sale, lines, k, catalog, p.sale.items, i, SaleItems.Cancel(current));
    PrefixExplicitCancels(sale, lines, k);
  }

  /** A line with a positive quantity for a product on the sale re-prices its
      item at the item's own unit price. */
  lemma UpdateLineStep(sale: Sale, lines: seq<ModifySaleItem>, k: nat, catalog: ProductCatalog, p: Progress)
    requires Admissible(sale, lines, catalog) && k < |lines| && AfterLines(sale, lines, k, catalog, p)
    requires lines[k].productId in SaleProducts(sale) && lines[k].quantity != 0
    ensures ApplyEntry(p, Existing(sale), lines[k], catalog).Ok?
    ensures AfterLines(sale, lines, k + 1, catalog, ApplyEntry(p, Existing(sale), lines[k], catalog).value)
  {
    var e := lines[k];
    var i :| 0 <= i < |sale.items| && sale.items[i].productId == e.productId;
    FirstTouch(sale, lines, k, catalog, p, i);
    var current := sale.items[i];
    ApplyUpdateLine(p, Existing(sale), e, catalog, i);
    RevisedTouched(current, lines, k);
    RevisionsSet(sale, lines, k, p.sale.items, i);
    AppendedSet(sale, lines, k, catalog, p.sale.items, i, Requantified(current, e.quantity));
    PrefixExplicitCancels(sale, lines, k);
    assert ExplicitCancels(sale, lines[..k + 1]) == ExplicitCancels(sale, lines[..k]) + [];
  }

  /** A line with a positive quantity for a product not on the sale appends
      a new item built from the catalog entry. */
  lemma AddLineStep(sale: Sale, lines: seq<ModifySaleItem>, k: nat, catalog: ProductCatalog, p: Progress)
    requires Admissible(sale, lines, catalog) && k < |lines| && AfterLines(sale, lines, k, catalog, p)
    requires IsAdditionLine(sale, lines, k)
    requires lines[k].productId in catalog && catalog[lines[k].productId].price.mantissa >= 0
    ensures ApplyEntry(p, Existing(sale), lines[k], catalog).Ok?
    ensures AfterLines(sale, lines, k + 1, catalog, ApplyEntry(p, Existing(sale), lines[k], catalog).value)
  {
    var e := lines[k];
    var product := catalog[e.productId];
    var id := NewItemId(p.sale);
    AddItemWellFormed(p.sale, id, product.id, product.name, e.quantity, product.price);
    var q := ApplyEntry(p, Existing(sale), e, catalog).value;
    var it := SaleItems.Create(id, product.id, product.name, e.quantity, product.price).value;
    assert q.sale.items == p.sale.items + [it];
    assert IsAddition(it, e, catalog);
    RevisionsKeep(sale, lines, k, p.sale.items, [it]);
    AppendedAdd(sale, lines, k, catalog, p.sale.items, it);
    PrefixExplicitCancels(sale, lines, k);
    assert ExplicitCancels(sale, lines[..k + 1]) == ExplicitCancels(sale, lines[..k]) + [];
  }

  /** A line with quantity 0 for a product not on the sale does nothing. */
  lemma SkipLineStep(sale: Sale, lines: seq<ModifySaleItem>, k: nat, catalog: ProductCatalog, p: Progress)
    requires Admissible(sale, lines, catalog) && k < |lines| && AfterLines(sale, lines, k, catalog, p)
    requires lines[k].productId !in SaleProducts(sale) && lines[k].quantity == 0
    ensures ApplyEntry(p, Existing(sale), lines[k], catalog) == Ok(p)
    ensures AfterLines(sale, lines, k + 1, catalog, p)
  {
    RevisionsKeep(sale, lines, k, p.sale.items, []);
    assert p.sale.items + [] == p.sale.items;
    AppendedKeep(sale, lines, k, catalog, p.sale.items);
    PrefixExplicitCancels(sale, lines, k);
    assert ExplicitCancels(sale, lines[..k + 1]) == ExplicitCancels(sale, lines[..k]) + [];
  }

  /** Line `k` takes the sale from its state after `k` lines to its state
      after `k + 1`, provided an addition line's product can be sold. */
  lemma LineStep(sale: Sale, lines: seq<ModifySaleItem>, k: nat, catalog: ProductCatalog, p: Progress)
    requires Admissible(sale, lines, catalog) && k < |lines| && AfterLines(sale, lines, k, catalog, p)
    requires IsAdditionLine(sale, lines, k) ==>
               lines[k].productId in catalog && catalog[lines[k].productId].price.mantissa >= 0
    ensures ApplyEntry(p, Existing(sale), lines[k], catalog).Ok?
    ensures AfterLines(sale, lines, k + 1, catalog, ApplyEntry(p, Existing(sale), lines[k], catalog).value)
  {
    if lines[k].productId in SaleProducts(sale) {
      if lines[k].quantity == 0 {
        CancelLineStep(sale, lines, k, catalog, p);
      } else {
        UpdateLineStep(sale, lines, k, catalog, p);
      }
    } else if lines[k].quantity > 0 {
      AddLineStep(sale, lines, k, catalog, p);
    } else {
      SkipLineStep(sale, lines, k, catalog, p);
    }
  }

  /** The first pass, from line `k` on, succeeds and leaves the state the
      whole request describes. */
  lemma {:induction false} FirstPass(sale: Sale, lines: seq<ModifySaleItem>, k: nat, catalog: ProductCatalog, p: Progress)
    requires Admissible(sale, lines, catalog) && StockedUpTo(sale, lines, catalog, |lines|)
    requires k <= |lines| && AfterLines(sale, lines, k, catalog, p)
    ensures ApplyEntries(p, Existing(sale), lines[k..], catalog).Ok?
    ensures AfterLines(sale, lines, |lines|, catalog, ApplyEntries(p, Existing(sale), lines[k..], catalog).value)
    decreases |lines| - k
  {
    if k == |lines| {
      assert lines[k..] == [];
    } else {
      assert lines[k..][0] == lines[k] && lines[k..][1..] == lines[k + 1..];
      LineStep(sale, lines, k, catalog, p);
      FirstPass(sale, lines, k + 1, catalog, ApplyEntry(p, Existing(sale), lines[k], catalog).value);
    }
  }

  /** The error an addition line raises when its product cannot be sold:
      not found in the catalog, or listed at a negative price. */
  function UnsellableError(productId: Guid, catalog: ProductCatalog): Error {
    if productId !in catalog then ApplicationError(ProductNotFoundMessage(productId))
    else DomainError(SaleItems.NegativeUnitPrice)
  }

  /** The first addition line, in request order, whose product cannot be
      sold aborts the first pass with that product's error. */
  lemma {:induction false} FirstPassStops(sale: Sale, lines: seq<ModifySaleItem>, k: nat, catalog: ProductCatalog,
                                          p: Progress, m: nat)
    requires Admissible(sale, lines, catalog) && k <= m < |lines| && AfterLines(sale, lines, k, catalog, p)
    requires StockedUpTo(sale, lines, catalog, m) && IsAdditionLine(sale, lines, m)
    requires !(lines[m].productId in catalog && catalog[lines[m].productId].price.mantissa >= 0)
    ensures ApplyEntries(p, Existing(sale), lines[k..], catalog) == Err(UnsellableError(lines[m].productId, catalog))
    decreases m - k
  {
    assert lines[k..][0] == lines[k] && lines[k..][1..] == lines[k + 1..];
    if k == m {
      assert lines[m].productId !in Existing(sale);
    } else {
      LineStep(sale, lines, k, catalog, p);
      FirstPassStops(sale, lines, k + 1, catalog, ApplyEntry(p, Existing(sale), lines[k], catalog).value, m);
    }
  }

  // ---------------------------------------------------------------------
  // Second pass

  /** What the second pass does to one item. */
  function Swept(it: SaleItem, requested: set<Guid>): SaleItem {
    if it.productId !in requested && !it.isCancelled then SaleItems.Cancel(it) else it
  }

  /** After the second pass has looked at the first `i` items of `q`. */
  ghost predicate AfterItems(q: Progress, requested: set<Guid>, i: nat, p: Progress) {
    && i <= |q.sale.items|
    && SameHeader(q.sale, p.sale)
    && WellFormed(p.sale)
    && SweptUpTo(q.sale.items, requested, i, p.sale.items)
    && p.events == q.events + ImplicitCancels(q.sale.items[..i], requested)
  }

  /** `out` is `items` with the first `i` swept. */
  ghost predicate SweptUpTo(items: seq<SaleItem>, requested: set<Guid>, i: nat, out: seq<SaleItem>) {
    && |out| == |items|
    && (forall j :: 0 <= j < i && j < |items| ==> out[j] == Swept(items[j], requested))
    && (forall j :: i <= j < |items| ==> out[j] == items[j])
  }

  /** The state after item `i`: the sale with that item swept, and its
      cancellation recorded when it had one. */
  ghost function SweepOne(p: Progress, requested: set<Guid>, i: nat): Progress
    requires i < |p.sale.items|
  {
    var it := p.sale.items[i];
    if it.productId !in requested && !it.isCancelled then
      Progress(p.sale.(items := p.sale.items[i := SaleItems.Cancel(it)], total := p.sale.total - Contribution(it)),
               p.events + [SaleItemCancelled(it.id)])
    else p
  }

  /** The second pass at item `i` moves to the state `SweepOne` describes:
      the item swept, its cancellation recorded when it had one. */
  lemma SweepOneUnfolds(p: Progress, requested: set<Guid>, i: nat)
    requires WellFormed(p.sale) && !p.sale.isCancelled && i < |p.sale.items|
    ensures CancelOmitted(p, requested, i) == CancelOmitted(SweepOne(p, requested, i), requested, i + 1)
    ensures var r := SweepOne(p, requested, i);
            && WellFormed(r.sale) && SameHeader(p.sale, r.sale)
            && r.sale.items == p.sale.items[i := Swept(p.sale.items[i], requested)]
            && r.events == p.events + ImplicitCancels([p.sale.items[i]], requested)
  {
    var it := p.sale.items[i];
    assert ImplicitCancels([it], requested) == ImplicitCancels([], requested) + ImplicitCancels([it], requested);
    if it.productId !in requested && !it.isCancelled {
      UniqueIdLookup(p.sale.items, i);
      CancelItemWellFormed(p.sale, it.id);
    } else {
      assert p.sale.items[i := it] == p.sale.items;
      assert p.events + [] == p.events;
    }
  }

  /** Sweeping item `i` extends the swept prefix by one. */
  lemma SweptUpToStep(items: seq<SaleItem>, requested: set<Guid>, i: nat, out: seq<SaleItem>)
    requires SweptUpTo(items, requested, i, out) && i < |items|
    ensures SweptUpTo(items, requested, i + 1, out[i := Swept(out[i], requested)])
  {
  }

  lemma ImplicitCancelsSnoc(items: seq<SaleItem>, i: nat, requested: set<Guid>)
    requires i < |items|
    ensures ImplicitCancels(items[..i + 1], requested) ==
              ImplicitCancels(items[..i], requested) + ImplicitCancels([items[i]], requested)
  {
    assert items[..i + 1][..i] == items[..i];
    assert ImplicitCancels([items[i]], requested) == ImplicitCancels([], requested) + ImplicitCancels([items[i]], requested);
  }

  /** Item `i` takes the second pass from `i` to `i + 1`. */
  lemma SweepStep(q: Progress, requested: set<Guid>, i: nat, p: Progress)
    requires !q.sale.isCancelled && AfterItems(q, requested, i, p) && i < |q.sale.items|
    ensures CancelOmitted(p, requested, i) == CancelOmitted(SweepOne(p, requested, i), requested, i + 1)
    ensures AfterItems(q, requested, i + 1, SweepOne(p, requested, i))
  {
    var items := q.sale.items;
    SweepOneUnfolds(p, requested, i);
    SweptUpToStep(items, requested, i, p.sale.items);
    ImplicitCancelsSnoc(items, i, requested);
    var r := SweepOne(p, requested, i);
    assert r.events == q.events + ImplicitCancels(items[..i + 1], requested);
  }

  lemma {:induction false} SecondPass(q: Progress, requested: set<Guid>, i: nat, p: Progress)
    requires !q.sale.isCancelled && AfterItems(q, requested, i, p)
    ensures CancelOmitted(p, requested, i).Ok?
    ensures AfterItems(q, requested, |q.sale.items|, CancelOmitted(p, requested, i).value)
    decreases |q.sale.items| - i
  {
    if i < |q.sale.items| {
      SweepStep(q, requested, i, p);
      SecondPass(q, requested, i + 1, SweepOne(p, requested, i));
    } else {
      assert q.sale.items[..i] == q.sale.items;
    }
  }

  /** Items of requested products never produce an implicit cancellation. */
  lemma {:induction false} ImplicitCancelsRequestedTail(items: seq<SaleItem>, m: nat, requested: set<Guid>)
    requires m <= |items|
    requires forall j :: m <= j < |items| ==> items[j].productId in requested
    ensures ImplicitCancels(items, requested) == ImplicitCancels(items[..m], requested)
    decreases |items|
  {
    if |items| > m {
      var n := |items| - 1;
      assert items[..n][..m] == items[..m];
      ImplicitCancelsRequestedTail(items[..n], m, requested);
    } else {
      assert items[..m] == items;
    }
  }

  /** Two item lists that agree on products, and agree outright on every
      unrequested item, produce the same implicit cancellations. */
  lemma {:induction false} ImplicitCancelsAgree(a: seq<SaleItem>, b: seq<SaleItem>, requested: set<Guid>)
    requires |a| == |b|
    requires forall j :: 0 <= j < |a| ==> a[j].productId == b[j].productId
    requires forall j :: 0 <= j < |a| && a[j].productId !in requested ==> a[j] == b[j]
    ensures ImplicitCancels(a, requested) == ImplicitCancels(b, requested)
    decreases |a|
  {
    if |a| > 0 {
      ImplicitCancelsAgree(a[..|a| - 1], b[..|b| - 1], requested);
    }
  }

  /** The second pass turns a revised item into its expected final form. */
  lemma SweptRevised(it: SaleItem, lines: seq<ModifySaleItem>)
    requires it.unitPrice >= 0 && ValidQuantities(lines)
    ensures Revised(it, lines).productId == it.productId
    ensures it.productId !in Requested(lines) ==> Revised(it, lines) == it
    ensures Swept(Revised(it, lines), Requested(lines)) == Expected(it, lines)
  {
    if LineFor(lines, it.productId).Some? {
      var e := LineFor(lines, it.productId).value;
      assert e.productId in Requested(lines);
    }
  }

  // ---------------------------------------------------------------------
  // Third pass and the whole reconciliation

  /** The third pass never changes an item: a sale it cancels has no active
      item left to cancel. */
  lemma ConcludeKeepsItems(p: Progress)
    requires WellFormed(p.sale) && !p.sale.isCancelled
    ensures var (s, events) := Conclude(p);
            && s.items == p.sale.items
            && s.(isCancelled := false) == p.sale
            && WellFormed(s)
            && events == p.events + [if s.isCancelled then SaleCancelled(p.sale.id) else SaleModified(s)]
  {
    if !HasActiveItem(p.sale.items) {
      CancelWellFormed(p.sale);
      ActiveTotalNoActive(p.sale.items);
      assert CancelAll(p.sale.items) == p.sale.items;
    }
  }

  /** Before the first line, nothing has changed. */
  lemma FirstPassStart(sale: Sale, lines: seq<ModifySaleItem>, catalog: ProductCatalog)
    requires Admissible(sale, lines, catalog)
    ensures AfterLines(sale, lines, 0, catalog, Progress(sale, []))
  {
    assert lines[..0] == [];
  }

  /** The sale after both passes over the request, when the first pass
      succeeds. */
  ghost function BothPasses(sale: Sale, lines: seq<ModifySaleItem>, catalog: ProductCatalog): (r: Result<Progress>)
    requires DistinctKeys(sale.items, ItemProduct)
  {
    var looped :- ApplyEntries(Progress(sale, []), Existing(sale), lines, catalog);
    CancelOmitted(looped, Requested(lines), 0)
  }

  /** `Reconcile` on an admissible request is the two passes followed by the
      third. */
  lemma ReconcileUnfolds(sale: Sale, lines: seq<ModifySaleItem>, catalog: ProductCatalog)
    requires Admissible(sale, lines, catalog)
    ensures BothPasses(sale, lines, catalog).Err? ==>
              Reconcile(sale, lines, catalog) == Err(BothPasses(sale, lines, catalog).error)
    ensures BothPasses(sale, lines, catalog).Ok? ==>
              Reconcile(sale, lines, catalog) == Ok(Conclude(BothPasses(sale, lines, catalog).value))
  {
    assert ToDictionary(lines, EntryProduct).value.Keys == Requested(lines);
  }

  /** Every item the first pass appended is for a requested product. */
  lemma AppendedRequested(sale: Sale, lines: seq<ModifySaleItem>, catalog: ProductCatalog, items: seq<SaleItem>)
    requires CoherentCatalog(catalog) && Appended(sale, lines, catalog, items)
    ensures forall j :: |sale.items| <= j < |items| ==> items[j].productId in Requested(lines)
  {
    var adds := Additions(SaleProducts(sale), lines);
    var n := |sale.items|;
    forall j | n <= j < |items| ensures items[j].productId in Requested(lines) {
      assert IsAddition(items[n + (j - n)], adds[j - n], catalog);
      assert adds[j - n] in lines;
    }
  }

  /** The sale's own items, at their own positions, in their expected final
      form. */
  ghost predicate ExpectedOwn(sale: Sale, lines: seq<ModifySaleItem>, items: seq<SaleItem>)
    requires WellFormed(sale) && ValidQuantities(lines)
  {
    && |sale.items| <= |items|
    && forall i :: 0 <= i < |sale.items| ==> items[i] == Expected(sale.items[i], lines)
  }

  /** After the second pass, each of the sale's own items is in its expected
      form. */
  lemma SweptOwnItems(sale: Sale, lines: seq<ModifySaleItem>, catalog: ProductCatalog, q: Progress, p: Progress)
    requires Admissible(sale, lines, catalog) && AfterLines(sale, lines, |lines|, catalog, q)
    requires AfterItems(q, Requested(lines), |q.sale.items|, p)
    ensures ExpectedOwn(sale, lines, p.sale.items)
  {
    assert lines[..|lines|] == lines;
    forall i | 0 <= i < |sale.items| ensures p.sale.items[i] == Expected(sale.items[i], lines) {
      assert q.sale.items[i] == Revised(sale.items[i], lines);
      SweptRevised(sale.items[i], lines);
    }
  }

  /** After the second pass, the additions are still the items the first
      pass appended. */
  lemma SweptAdditions(sale: Sale, lines: seq<ModifySaleItem>, catalog: ProductCatalog,
                       items: seq<SaleItem>, out: seq<SaleItem>)
    requires CoherentCatalog(catalog) && Appended(sale, lines, catalog, items)
    requires SweptUpTo(items, Requested(lines), |items|, out)
    ensures Appended(sale, lines, catalog, out)
  {
    AppendedRequested(sale, lines, catalog, items);
    var adds := Additions(SaleProducts(sale), lines);
    var n := |sale.items|;
    forall j | n <= j < |items| ensures out[j] == items[j] {
      assert items[j].productId in Requested(lines);
    }
  }

  /** The events after the second pass: the explicit cancellations of the
      first pass, then the implicit ones, in the sale's item order. */
  lemma SweptEvents(sale: Sale, lines: seq<ModifySaleItem>, catalog: ProductCatalog, q: Progress, p: Progress)
    requires Admissible(sale, lines, catalog) && AfterLines(sale, lines, |lines|, catalog, q)
    requires AfterItems(q, Requested(lines), |q.sale.items|, p)
    ensures p.events == ExplicitCancels(sale, lines) + ImplicitCancels(sale.items, Requested(lines))
  {
    assert lines[..|lines|] == lines;
    var requested := Requested(lines);
    var items := q.sale.items;
    var n := |sale.items|;
    assert items[..|items|] == items;
    AppendedRequested(sale, lines, catalog, items);
    ImplicitCancelsRequestedTail(items, n, requested);
    forall i | 0 <= i < n ensures items[..n][i].productId == sale.items[i].productId
      && (sale.items[i].productId !in requested ==> items[..n][i] == sale.items[i])
    {
      SweptRevised(sale.items[i], lines);
    }
    ImplicitCancelsAgree(items[..n], sale.items, requested);
  }

  /** The first pass over the whole request. */
  lemma FirstPassAll(sale: Sale, lines: seq<ModifySaleItem>, catalog: ProductCatalog)
    requires Admissible(sale, lines, catalog) && StockedUpTo(sale, lines, catalog, |lines|)
    ensures ApplyEntries(Progress(sale, []), Existing(sale), lines, catalog).Ok?
    ensures AfterLines(sale, lines, |lines|, catalog, ApplyEntries(Progress(sale, []), Existing(sale), lines, catalog).value)
  {
    FirstPassStart(sale, lines, catalog);
    assert lines[0..] == lines;
    FirstPass(sale, lines, 0, catalog, Progress(sale, []));
  }

  /** The second pass over everything the first pass left. */
  lemma SecondPassAll(q: Progress, requested: set<Guid>)
    requires !q.sale.isCancelled && WellFormed(q.sale)
    ensures CancelOmitted(q, requested, 0).Ok?
    ensures AfterItems(q, requested, |q.sale.items|, CancelOmitted(q, requested, 0).value)
  {
    assert q.sale.items[..0] == [] && q.events + [] == q.events;
    SecondPass(q, requested, 0, q);
  }

  /** The outcome of both passes, item by item and event by event. */
  lemma BothPassesSpec(sale: Sale, lines: seq<ModifySaleItem>, catalog: ProductCatalog)
    requires Admissible(sale, lines, catalog) && StockedUpTo(sale, lines, catalog, |lines|)
    ensures BothPasses(sale, lines, catalog).Ok?
    ensures var p := BothPasses(sale, lines, catalog).value;
            && SameHeader(sale, p.sale)
            && WellFormed(p.sale)
            && ExpectedOwn(sale, lines, p.sale.items)
            && Appended(sale, lines, catalog, p.sale.items)
            && p.events == ExplicitCancels(sale, lines) + ImplicitCancels(sale.items, Requested(lines))
  {
    var requested := Requested(lines);
    FirstPassAll(sale, lines, catalog);
    var q := ApplyEntries(Progress(sale, []), Existing(sale), lines, catalog).value;
    SecondPassAll(q, requested);
    var p := CancelOmitted(q, requested, 0).value;
    SweptOwnItems(sale, lines, catalog, q, p);
    assert lines[..|lines|] == lines;
    SweptAdditions(sale, lines, catalog, q.sale.items, p.sale.items);
    SweptEvents(sale, lines, catalog, q, p);
  }

  // ---------------------------------------------------------------------
  // The theorems

  /** On an admissible request whose additions can all be sold, the
      reconciliation succeeds; the sale keeps its identity and header; every
      item it had is in its expected final form at its own position; one
      item per addition line follows, in request order, built from the
      catalog; the total is the sum over active items; the sale ends up
      cancelled exactly when no item is active; and the events are the
      explicit cancellations in request order, the implicit ones in item
      order, and one terminal event. */
  lemma ReconcileSpec(sale: Sale, lines: seq<ModifySaleItem>, catalog: ProductCatalog)
    requires Admissible(sale, lines, catalog) && StockedUpTo(sale, lines, catalog, |lines|)
    ensures Reconcile(sale, lines, catalog).Ok?
    ensures var (s, events) := Reconcile(sale, lines, catalog).value;
            && WellFormed(s) && s.total == ActiveTotal(s.items)
            && s.(isCancelled := false, items := sale.items, total := sale.total) == sale
            && ExpectedOwn(sale, lines, s.items)
            && Appended(sale, lines, catalog, s.items)
            && (s.isCancelled <==> !HasActiveItem(s.items))
            && events == ExplicitCancels(sale, lines) + ImplicitCancels(sale.items, Requested(lines))
                         + [if s.isCancelled then SaleCancelled(sale.id) else SaleModified(s)]
  {
    ReconcileUnfolds(sale, lines, catalog);
    BothPassesSpec(sale, lines, catalog);
    var p := BothPasses(sale, lines, catalog).value;
    ConcludeKeepsItems(p);
    if !HasActiveItem(p.sale.items) {
      ActiveTotalNoActive(p.sale.items);
    }
  }

  /** The first addition line, in request order, whose product cannot be
      sold makes the whole reconciliation raise that product's error. */
  lemma ReconcileStopsAtUnsellable(sale: Sale, lines: seq<ModifySaleItem>, catalog: ProductCatalog, m: nat)
    requires Admissible(sale, lines, catalog) && m < |lines|
    requires StockedUpTo(sale, lines, catalog, m) && IsAdditionLine(sale, lines, m)
    requires !(lines[m].productId in catalog && catalog[lines[m].productId].price.mantissa >= 0)
    ensures Reconcile(sale, lines, catalog) == Err(UnsellableError(lines[m].productId, catalog))
  {
    ReconcileUnfolds(sale, lines, catalog);
    FirstPassStart(sale, lines, catalog);
    assert lines[0..] == lines;
    FirstPassStops(sale, lines, 0, catalog, Progress(sale, []), m);
  }

  /** A request the validator accepts has one line per product and
      quantities in [0, 20]. */
  lemma ValidatedRequestLines(c: ModifySaleCommand)
    requires Validators.ValidateModifySale(c) == []
    ensures DistinctKeys(c.items, EntryProduct) && ValidQuantities(c.items)
  {
    Validators.ModifySaleValidatorAccepts(c);
    Validators.DistinctProductsKeys(c.items);
  }

  /** A command the validator accepts, for a stored active sale with one item
      per product and additions that can all be sold, is handled, and the
      sale it stores keeps the aggregate invariant. What is stored, saved and
      published is then `HandleModify`'s own contract. */
  lemma HandleModifySucceeds(cmd: ModifySaleCommand, store: SaleStore, catalog: ProductCatalog)
    requires Validators.ValidateModifySale(cmd) == [] && cmd.saleId in store
    requires var sale := store[cmd.saleId];
             && WellFormed(sale) && !sale.isCancelled && DistinctKeys(sale.items, ItemProduct)
             && CoherentCatalog(catalog) && StockedUpTo(sale, cmd.items, catalog, |cmd.items|)
    ensures HandleModify(cmd, store, catalog).Ok?
    ensures WellFormed(HandleModify(cmd, store, catalog).value.sale)
  {
    ValidatedRequestLines(cmd);
    var sale := store[cmd.saleId];
    ReconcileWellFormed(sale, cmd.items, catalog);
    var (s, events) := Reconcile(sale, cmd.items, catalog).value;
    assert HandleModify(cmd, store, catalog) == Ok(Handled(store[cmd.saleId := s], 1, events, s));
  }

  /** The part of `ReconcileSpec` the handler-level statement needs. */
  lemma ReconcileWellFormed(sale: Sale, lines: seq<ModifySaleItem>, catalog: ProductCatalog)
    requires Admissible(sale, lines, catalog) && StockedUpTo(sale, lines, catalog, |lines|)
    ensures Reconcile(sale, lines, catalog).Ok? && WellFormed(Reconcile(sale, lines, catalog).value.0)
  {
    ReconcileSpec(sale, lines, catalog);
  }
}
