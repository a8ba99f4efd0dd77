/**
 * What the handlers read from outside the aggregate: the product, customer
 * and branch catalogs (the gateways) and the sale store (the repository).
 * Each is a map from id to record; a missing key is the gateway's `null`.
 */
module Ports {
  import opened Common
  import opened Money
  import SaleItems
  import Sales

  /** `ProductDto`: the catalog's name and current price of a product. */
  datatype Product = Product(id: Guid, name: string, price: Decimal)

  /** `CustomerDto` and `BranchDto`, which carry the same two fields. */
  datatype Party = Party(id: Guid, name: string)

  type ProductCatalog = map<Guid, Product>
  type PartyDirectory = map<Guid, Party>
  type SaleStore = map<Guid, Sale>
  type Sale = Sales.Sale

  /** The message the cancel and modify handlers throw, as a
      `KeyNotFoundException`, when the repository finds no sale under the
      given id. */
  const SaleNotFound := "Sale not found."

  /** A catalog returns, under each key, the record with that id. */
  ghost predicate CoherentCatalog(catalog: ProductCatalog) {
    forall k :: k in catalog ==> catalog[k].id == k
  }

  /** `it` is a fresh item for `qty` units of the catalog's product
      `productId`: the catalog's id, the trimmed catalog name, the catalog
      price rounded to cents, and not cancelled. */
  ghost predicate FromCatalog(it: SaleItems.SaleItem, productId: Guid, qty: int, catalog: ProductCatalog) {
    && productId in catalog
    && var product := catalog[productId];
       && it.productId == product.id
       && it.productName == Trim(product.name)
       && it.quantity == qty
       && it.unitPrice == RoundToCents(product.price)
       && !it.isCancelled
  }
}
