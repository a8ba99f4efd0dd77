/**
 * The integration events the sale handlers publish, and the routing names
 * they are published under.
 */
module Events {
  import opened Common
  import Sales

  datatype Event =
    | SaleCreated(sale: Sales.Sale)
    | SaleModified(sale: Sales.Sale)
    | SaleCancelled(saleId: Guid)
    | SaleItemCancelled(saleItemId: Guid)

  const SaleCreatedName := "sales.sale.created"
  const SaleModifiedName := "sales.sale.modified"
  const SaleCancelledName := "sales.sale.cancelled"
  const SaleItemCancelledName := "sales.item.cancelled"

  /** The routing key a message of this event carries. */
  function Name(e: Event): (r: string)
    ensures |r| > 6 && r[..6] == "sales."
  {
    match e
    case SaleCreated(_) => SaleCreatedName
    case SaleModified(_) => SaleModifiedName
    case SaleCancelled(_) => SaleCancelledName
    case SaleItemCancelled(_) => SaleItemCancelledName
  }

  /** Two events share a routing key exactly when they are of the same kind,
      so a consumer can tell the kinds apart by name alone. */
  lemma NamesIdentifyKinds(a: Event, b: Event)
    ensures Name(a) == Name(b) <==>
            (a.SaleCreated? && b.SaleCreated?) || (a.SaleModified? && b.SaleModified?) ||
            (a.SaleCancelled? && b.SaleCancelled?) || (a.SaleItemCancelled? && b.SaleItemCancelled?)
  {
    assert SaleCreatedName[11] != SaleModifiedName[11];
    assert SaleCreatedName[12] != SaleCancelledName[12];
    assert SaleModifiedName[11] != SaleCancelledName[11];
    assert SaleItemCancelledName[6] != SaleCreatedName[6];
  }
}
