/**
 * The create-sale handler: validate the command, resolve customer and
 * branch, build the sale, add one item per command line from the product
 * catalog in command order, store the sale once and publish one
 * `SaleCreated` event.
 */
module CreateSale {
  import opened Common
  import opened Money
  import SaleItems
  import opened Sales
  import opened Events
  import opened Ports
  import opened Commands
  import Validators

  const CustomerNotFound := "Customer not found."
  const BranchNotFound := "Branch not found."

  /** A line the handler can turn into an item: its product is in the
      catalog at a non-negative price and its quantity is one the item
      accepts. */
  ghost predicate Sellable(line: CreateSaleItem, catalog: ProductCatalog) {
    && line.productId in catalog
    && catalog[line.productId].price.mantissa >= 0
    && 1 <= line.quantity <= 20
  }

  /** The error a line with an accepted quantity raises when it cannot be
      sold: its product is not in the catalog, or is listed at a negative
      price. */
  function LineError(productId: Guid, catalog: ProductCatalog): Error {
    if productId !in catalog then DomainError(ProductNotFoundMessage(productId))
    else DomainError(SaleItems.NegativeUnitPrice)
  }

  /** The item loop: each line's product is looked up and added under a
      fresh item id; the first line that raises aborts the loop. */
  function AddLines(s: Sale, lines: seq<CreateSaleItem>, catalog: ProductCatalog): (r: Result<Sale>)
    requires !s.isCancelled
    ensures r.Ok? ==> r.value.(items := s.items, total := s.total) == s
    ensures r.Ok? ==> |r.value.items| == |s.items| + |lines| && r.value.items[..|s.items|] == s.items
    decreases |lines|
  {
    if |lines| == 0 then Ok(s)
    else
      var n := |lines| - 1;
      var pre :- AddLines(s, lines[..n], catalog);
      AddLine(pre, lines[n], catalog)
  }

  /** One line: a product missing from the catalog raises; otherwise the
      product is added under a fresh item id at the catalog's name and
      price. */
  function AddLine(s: Sale, line: CreateSaleItem, catalog: ProductCatalog): (r: Result<Sale>)
    requires !s.isCancelled
    ensures line.productId !in catalog ==> r == Err(DomainError(ProductNotFoundMessage(line.productId)))
    ensures line.productId in catalog && catalog[line.productId].price.mantissa < 0 && 1 <= line.quantity <= 20 ==>
              r == Err(DomainError(SaleItems.NegativeUnitPrice))
    ensures Sellable(line, catalog) ==> r.Ok?
    ensures r.Ok? ==> r.value.(items := s.items, total := s.total) == s
    ensures r.Ok? ==> |r.value.items| == |s.items| + 1 && r.value.items[..|s.items|] == s.items
  {
    if line.productId !in catalog then Err(DomainError(ProductNotFoundMessage(line.productId)))
    else
      var product := catalog[line.productId];
      var next :- AddItem(s, NewItemId(s), product.id, product.name, line.quantity, product.price);
      assert next.items[..|s.items|] == s.items;
      Ok(next)
  }

  /** The appended item is the line's product as the catalog lists it. */
  lemma AddLineBuilds(s: Sale, line: CreateSaleItem, catalog: ProductCatalog)
    requires !s.isCancelled && AddLine(s, line, catalog).Ok?
    ensures FromCatalog(AddLine(s, line, catalog).value.items[|s.items|], line.productId, line.quantity, catalog)
  {
  }

  /** One line keeps the aggregate invariant. */
  lemma AddLineWellFormed(s: Sale, line: CreateSaleItem, catalog: ProductCatalog)
    requires !s.isCancelled && WellFormed(s) && AddLine(s, line, catalog).Ok?
    ensures WellFormed(AddLine(s, line, catalog).value)
  {
    var product := catalog[line.productId];
    AddItemWellFormed(s, NewItemId(s), product.id, product.name, line.quantity, product.price);
  }

  /** Every line becomes one item, in command order, built from its catalog
      entry. */
  lemma {:induction false} AddLinesItems(s: Sale, lines: seq<CreateSaleItem>, catalog: ProductCatalog)
    requires !s.isCancelled && AddLines(s, lines, catalog).Ok?
    ensures var added := AddLines(s, lines, catalog).value.items[|s.items|..];
            forall j :: 0 <= j < |lines| ==> FromCatalog(added[j], lines[j].productId, lines[j].quantity, catalog)
    decreases |lines|
  {
    if |lines| > 0 {
      var n := |lines| - 1;
      var head := lines[..n];
      AddLinesItems(s, head, catalog);
      var pre := AddLines(s, head, catalog).value;
      var step := AddLine(pre, lines[n], catalog);
      assert AddLines(s, lines, catalog) == step;
      AddLineBuilds(pre, lines[n], catalog);
      ItemsGrow(|s.items|, pre.items, step.value.items, lines, catalog);
    }
  }

  /** The induction step of `AddLinesItems`, stated on plain sequences:
      one more item built from the next line extends the correspondence. */
  lemma ItemsGrow(base: nat, pre: seq<SaleItem>, items: seq<SaleItem>, lines: seq<CreateSaleItem>,
                  catalog: ProductCatalog)
    requires |lines| > 0 && |pre| == base + |lines| - 1
    requires |items| == |pre| + 1 && items[..|pre|] == pre
    requires forall j :: 0 <= j < |lines| - 1 ==>
               FromCatalog(pre[base..][j], lines[..|lines| - 1][j].productId, lines[..|lines| - 1][j].quantity, catalog)
    requires FromCatalog(items[|pre|], lines[|lines| - 1].productId, lines[|lines| - 1].quantity, catalog)
    ensures var added := items[base..];
            forall j :: 0 <= j < |lines| ==> FromCatalog(added[j], lines[j].productId, lines[j].quantity, catalog)
  {
    var n := |lines| - 1;
    var head := lines[..n];
    var before := pre[base..];
    var added := items[base..];
    assert added == before + [items[|pre|]] by {
      assert items == pre + [items[|pre|]];
    }
    forall j | 0 <= j < |lines|
      ensures FromCatalog(added[j], lines[j].productId, lines[j].quantity, catalog)
    {
      if j < n {
        assert head[j] == lines[j] && added[j] == before[j];
      } else {
        assert added[j] == items[|pre|];
      }
    }
  }

  /** The loop keeps the aggregate invariant. */
  lemma {:induction false} AddLinesWellFormed(s: Sale, lines: seq<CreateSaleItem>, catalog: ProductCatalog)
    requires !s.isCancelled && WellFormed(s) && AddLines(s, lines, catalog).Ok?
    ensures WellFormed(AddLines(s, lines, catalog).value)
    decreases |lines|
  {
    if |lines| > 0 {
      var n := |lines| - 1;
      AddLinesWellFormed(s, lines[..n], catalog);
      AddLineWellFormed(AddLines(s, lines[..n], catalog).value, lines[n], catalog);
    }
  }

  /** The loop cannot raise when every line can be sold. */
  lemma {:induction false} AddLinesSucceeds(s: Sale, lines: seq<CreateSaleItem>, catalog: ProductCatalog)
    requires !s.isCancelled
    requires forall j :: 0 <= j < |lines| ==> Sellable(lines[j], catalog)
    ensures AddLines(s, lines, catalog).Ok?
    decreases |lines|
  {
    if |lines| > 0 {
      var n := |lines| - 1;
      var head := lines[..n];
      forall j | 0 <= j < n ensures Sellable(head[j], catalog) {
        assert head[j] == lines[j];
      }
      AddLinesSucceeds(s, head, catalog);
      var pre := AddLines(s, head, catalog).value;
      assert Sellable(lines[n], catalog);
      assert AddLines(s, lines, catalog) == AddLine(pre, lines[n], catalog);
    }
  }

  /** The loop run on a new, empty sale yields a well-formed sale whose
      items are the lines, in order, built from the catalog. */
  lemma AddLinesFromEmpty(s: Sale, lines: seq<CreateSaleItem>, catalog: ProductCatalog)
    requires !s.isCancelled && WellFormed(s) && s.items == [] && AddLines(s, lines, catalog).Ok?
    ensures var t := AddLines(s, lines, catalog).value;
            && |t.items| == |lines|
            && (forall j :: 0 <= j < |lines| ==> FromCatalog(t.items[j], lines[j].productId, lines[j].quantity, catalog))
            && WellFormed(t)
  {
    AddLinesItems(s, lines, catalog);
    AddLinesWellFormed(s, lines, catalog);
    var t := AddLines(s, lines, catalog).value;
    assert t.items[|s.items|..] == t.items;
  }

  /** What a successful command leaves behind. */
  datatype Created = Created(store: SaleStore, saves: nat, published: seq<Event>, sale: Sale)

  /** `CreateSaleHandler.Handle`. `saleId` is the id the new sale receives
      and `now` the clock reading it is dated with. */
  function HandleCreate(cmd: CreateSaleCommand, saleId: Guid, now: Timestamp, customers: PartyDirectory,
                        branches: PartyDirectory, catalog: ProductCatalog, store: SaleStore): (r: Result<Created>)
    ensures Validators.ValidateCreateSale(cmd) != [] ==>
              r == Err(ValidationError(Validators.ValidateCreateSale(cmd)))
    ensures Validators.ValidateCreateSale(cmd) == [] && cmd.customerId !in customers ==>
              r == Err(DomainError(CustomerNotFound))
    ensures Validators.ValidateCreateSale(cmd) == [] && cmd.customerId in customers && cmd.branchId !in branches ==>
              r == Err(DomainError(BranchNotFound))
    ensures r.Ok? ==> cmd.customerId in customers && cmd.branchId in branches
    ensures r.Ok? ==> var (s, customer, branch) := (r.value.sale, customers[cmd.customerId], branches[cmd.branchId]);
              && s.id == saleId && s.date == now && !s.isCancelled
              && cmd.number.Some? && s.number == Trim(cmd.number.value)
              && s.customerId == customer.id && s.customerName == Trim(customer.name)
              && s.branchId == branch.id && s.branchName == Trim(branch.name)
    ensures r.Ok? ==> var s := r.value.sale;
              && |s.items| == |cmd.items|
              && (forall j :: 0 <= j < |cmd.items| ==>
                    FromCatalog(s.items[j], cmd.items[j].productId, cmd.items[j].quantity, catalog))
              && WellFormed(s) && s.total == ActiveTotal(s.items)
    ensures r.Ok? ==> && r.value.store == store[saleId := r.value.sale]
                      && r.value.saves == 1
                      && r.value.published == [SaleCreated(r.value.sale)]
  {
    var failures := Validators.ValidateCreateSale(cmd);
    if failures != [] then Err(ValidationError(failures))
    else if cmd.customerId !in customers then Err(DomainError(CustomerNotFound))
    else if cmd.branchId !in branches then Err(DomainError(BranchNotFound))
    else
      var customer := customers[cmd.customerId];
      var branch := branches[cmd.branchId];
      // The validator's number rule is `Sale.Create`'s own check, so this
      // call cannot raise.
      Validators.CreateSaleValidatorAccepts(cmd);
      var empty := Sales.Create(saleId, cmd.number, now, customer.id, customer.name, branch.id, branch.name).value;
      var sale :- AddLines(empty, cmd.items, catalog);
      AddLinesFromEmpty(empty, cmd.items, catalog);
      var created := Created(store[saleId := sale], 1, [SaleCreated(sale)], sale);
      assert created.store == store[saleId := created.sale];
      Ok(created)
  }

  /** A validated command whose customer, branch and products all resolve,
      at non-negative prices, is always created: the validator's number rule
      is exactly `Sale.Create`'s and its quantity range is exactly the
      item's. */
  lemma HandleCreateSucceeds(cmd: CreateSaleCommand, saleId: Guid, now: Timestamp, customers: PartyDirectory,
                             branches: PartyDirectory, catalog: ProductCatalog, store: SaleStore)
    requires Validators.ValidateCreateSale(cmd) == []
    requires cmd.customerId in customers && cmd.branchId in branches
    requires forall j :: 0 <= j < |cmd.items| ==>
               cmd.items[j].productId in catalog && catalog[cmd.items[j].productId].price.mantissa >= 0
    ensures HandleCreate(cmd, saleId, now, customers, branches, catalog, store).Ok?
  {
    Validators.CreateSaleValidatorAccepts(cmd);
    assert forall j :: 0 <= j < |cmd.items| ==> Sellable(cmd.items[j], catalog);
    var customer := customers[cmd.customerId];
    var branch := branches[cmd.branchId];
    var empty := Sales.Create(saleId, cmd.number, now, customer.id, customer.name, branch.id, branch.name).value;
    AddLinesSucceeds(empty, cmd.items, catalog);
  }

  /** The first line, in command order, that cannot be sold aborts the
      command with that line's error, provided every earlier line could be
      sold: a missing product raises its not-found error and a negatively
      priced one the item's price error. */
  lemma {:induction false} AddLinesStopsAtUnsellable(s: Sale, lines: seq<CreateSaleItem>, catalog: ProductCatalog, m: nat)
    requires !s.isCancelled && m < |lines|
    requires forall j :: 0 <= j < m ==> Sellable(lines[j], catalog)
    requires !Sellable(lines[m], catalog) && 1 <= lines[m].quantity <= 20
    ensures AddLines(s, lines, catalog) == Err(LineError(lines[m].productId, catalog))
    decreases |lines|
  {
    var n := |lines| - 1;
    var head := lines[..n];
    assert forall j :: 0 <= j < n ==> head[j] == lines[j];
    if n == m {
      AddLinesSucceeds(s, head, catalog);
      var pre := AddLines(s, head, catalog).value;
      assert AddLines(s, lines, catalog) == AddLine(pre, lines[n], catalog);
    } else {
      AddLinesStopsAtUnsellable(s, head, catalog, m);
    }
  }

  /** A validated command with known customer and branch stops at the first
      line, in command order, whose product is missing from the catalog or
      negatively priced: nothing is stored and nothing is published. */
  lemma HandleCreateStopsAtUnsellable(cmd: CreateSaleCommand, saleId: Guid, now: Timestamp, customers: PartyDirectory,
                                      branches: PartyDirectory, catalog: ProductCatalog, store: SaleStore, m: nat)
    requires Validators.ValidateCreateSale(cmd) == []
    requires cmd.customerId in customers && cmd.branchId in branches
    requires m < |cmd.items|
    requires !(cmd.items[m].productId in catalog && catalog[cmd.items[m].productId].price.mantissa >= 0)
    requires forall j :: 0 <= j < m ==>
               cmd.items[j].productId in catalog && catalog[cmd.items[j].productId].price.mantissa >= 0
    ensures cmd.items[m].productId !in catalog ==>
              HandleCreate(cmd, saleId, now, customers, branches, catalog, store)
                == Err(DomainError(ProductNotFoundMessage(cmd.items[m].productId)))
    ensures cmd.items[m].productId in catalog ==>
              HandleCreate(cmd, saleId, now, customers, branches, catalog, store)
                == Err(DomainError(SaleItems.NegativeUnitPrice))
  {
    HandleCreateStops(cmd, saleId, now, customers, branches, catalog, store, m);
  }

  /** The same stop, with the line's error left as `LineError`. */
  lemma HandleCreateStops(cmd: CreateSaleCommand, saleId: Guid, now: Timestamp, customers: PartyDirectory,
                          branches: PartyDirectory, catalog: ProductCatalog, store: SaleStore, m: nat)
    requires Validators.ValidateCreateSale(cmd) == []
    requires cmd.customerId in customers && cmd.branchId in branches
    requires m < |cmd.items|
    requires !(cmd.items[m].productId in catalog && catalog[cmd.items[m].productId].price.mantissa >= 0)
    requires forall j :: 0 <= j < m ==>
               cmd.items[j].productId in catalog && catalog[cmd.items[j].productId].price.mantissa >= 0
    ensures HandleCreate(cmd, saleId, now, customers, branches, catalog, store)
              == Err(LineError(cmd.items[m].productId, catalog))
  {
    Validators.CreateSaleValidatorAccepts(cmd);
    assert forall j :: 0 <= j < m ==> Sellable(cmd.items[j], catalog);
    var customer := customers[cmd.customerId];
    var branch := branches[cmd.branchId];
    var empty := Sales.Create(saleId, cmd.number, now, customer.id, customer.name, branch.id, branch.name).value;
    AddLinesStopsAtUnsellable(empty, cmd.items, catalog, m);
    HandleCreatePassesLineError(cmd, saleId, now, customers, branches, catalog, store);
  }

  /** Past the validator and the party lookups, a failing line's error is the
      handler's error. */
  lemma HandleCreatePassesLineError(cmd: CreateSaleCommand, saleId: Guid, now: Timestamp, customers: PartyDirectory,
                                    branches: PartyDirectory, catalog: ProductCatalog, store: SaleStore)
    requires Validators.ValidateCreateSale(cmd) == []
    requires cmd.customerId in customers && cmd.branchId in branches
    ensures Validators.CreateSaleValid(cmd)
    ensures var (customer, branch) := (customers[cmd.customerId], branches[cmd.branchId]);
            var empty := Sales.Create(saleId, cmd.number, now, customer.id, customer.name, branch.id, branch.name);
            && empty.Ok? && !empty.value.isCancelled
            && (AddLines(empty.value, cmd.items, catalog).Err? ==>
                  HandleCreate(cmd, saleId, now, customers, branches, catalog, store)
                    == Err(AddLines(empty.value, cmd.items, catalog).error))
  {
    Validators.CreateSaleValidatorAccepts(cmd);
  }
}
