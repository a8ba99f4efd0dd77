/**
 * The commands the sale handlers accept. The web layer's `ModifySaleRequest`
 * has the same shape as `ModifySaleCommand` and is mapped onto it field by
 * field, so both validators read a `ModifySaleCommand`.
 */
module Commands {
  import opened Common

  /** One line of a modification: quantity 0 cancels the product's item. */
  datatype ModifySaleItem = ModifySaleItem(productId: Guid, quantity: int)

  datatype ModifySaleCommand = ModifySaleCommand(saleId: Guid, items: seq<ModifySaleItem>)

  datatype CreateSaleItem = CreateSaleItem(productId: Guid, quantity: int)

  /** `Number` is the one reference-typed field a client can leave null. */
  datatype CreateSaleCommand = CreateSaleCommand(
    number: Option<string>,
    customerId: Guid,
    branchId: Guid,
    items: seq<CreateSaleItem>)

  datatype CancelSaleCommand = CancelSaleCommand(id: Guid)

  function EntryProduct(e: ModifySaleItem): Guid {
    e.productId
  }

  /** `Items.Select(i => i.ProductId)`. */
  function ProductIds(items: seq<ModifySaleItem>): (r: seq<Guid>)
    ensures |r| == |items|
    ensures forall i :: 0 <= i < |items| ==> r[i] == items[i].productId
  {
    seq(|items|, i requires 0 <= i < |items| => items[i].productId)
  }
}
