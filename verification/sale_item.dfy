/**
 * A line of a sale: product, quantity, unit price, the quantity-tier discount
 * and the rounded line total (the `SaleItem` entity).
 */
module SaleItems {
  import opened Common
  import opened Money

  /** Prices are whole cents; `discountPercent` is 0, 10 or 20. */
  datatype SaleItem = SaleItem(
    id: Guid,
    productId: Guid,
    productName: string,
    quantity: int,
    unitPrice: int,
    discountPercent: int,
    total: int,
    isCancelled: bool)

  const QuantityBelowOne := "Quantity must be at least 1."
  const QuantityAboveTwenty := "Cannot sell more than 20 identical items."
  const NegativeUnitPrice := "Unit price cannot be negative."
  const QtyAboveTwentyNotAllowed := "Qty above 20 is not allowed."

  /** The discount table, as the business rule states it. */
  ghost predicate TierDiscount(qty: int, pct: int) {
    || (1 <= qty <= 3 && pct == 0)
    || (4 <= qty <= 9 && pct == 10)
    || (10 <= qty <= 20 && pct == 20)
  }

  /** The discount percentage for a quantity; above 20 it raises. */
  function DiscountRulesForQuantity(qty: int): (r: Result<int>)
    ensures r.Ok? <==> qty <= 20
    ensures r.Ok? && qty >= 1 ==> TierDiscount(qty, r.value)
    ensures r.Err? ==> r.error == DomainError(QtyAboveTwentyNotAllowed)
  {
    if qty < 4 then Ok(0)
    else if qty < 10 then Ok(10)
    else if qty <= 20 then Ok(20)
    else Err(DomainError(QtyAboveTwentyNotAllowed))
  }

  /** What holds of the priced fields of every item that `Apply` produced:
      quantity in range, non-negative unit price, the tier's discount, and a
      total that is the exact discounted amount rounded half-to-even to cents
      and lies between zero and the undiscounted amount. */
  ghost predicate Priced(it: SaleItem) {
    && 1 <= it.quantity <= 20
    && it.unitPrice >= 0
    && TierDiscount(it.quantity, it.discountPercent)
    && IsRoundedHalfEven(it.total, it.quantity * it.unitPrice * (100 - it.discountPercent), 100)
    && 0 <= it.total <= it.quantity * it.unitPrice
  }

  /** `Math.Round(qty * price * (1 - pct/100), 2, ToEven)` with the price in
      cents: the net amount is exact in hundredths of a cent. */
  function LineTotal(qty: int, price: int, pct: int): (r: int)
    requires qty >= 0 && price >= 0 && 0 <= pct <= 100
    ensures IsRoundedHalfEven(r, qty * price * (100 - pct), 100)
    ensures 0 <= r <= qty * price
  {
    var gross := qty * price;
    var net := gross * (100 - pct);
    assert 0 <= net <= gross * 100 by {
      assert gross >= 0;
      assert gross * 100 - net == gross * pct;
    }
    RoundBounds(net, 100, gross);
    RoundHalfEven(net, 100)
  }

  /** Validates quantity and price in a fixed order, then re-derives unit
      price, discount and total. A rejected call produces no item, so the
      caller's item keeps every field. */
  function Apply(item: SaleItem, qty: int, unitPrice: Decimal): (r: Result<SaleItem>)
    ensures r.Err? <==> qty < 1 || qty > 20 || unitPrice.mantissa < 0
    ensures qty < 1 ==> r == Err(DomainError(QuantityBelowOne))
    ensures 1 <= qty && qty > 20 ==> r == Err(DomainError(QuantityAboveTwenty))
    ensures 1 <= qty <= 20 && unitPrice.mantissa < 0 ==> r == Err(DomainError(NegativeUnitPrice))
    ensures r.Ok? ==> Priced(r.value)
    ensures r.Ok? ==> r.value.quantity == qty
    ensures r.Ok? ==> IsRoundedHalfEven(r.value.unitPrice, unitPrice.mantissa * 100, Pow10(unitPrice.scale))
    ensures r.Ok? ==> r.value.id == item.id && r.value.productId == item.productId
                      && r.value.productName == item.productName && r.value.isCancelled == item.isCancelled
  {
    if qty < 1 then Err(DomainError(QuantityBelowOne))
    else if qty > 20 then Err(DomainError(QuantityAboveTwenty))
    else if unitPrice.mantissa < 0 then Err(DomainError(NegativeUnitPrice))
    else
      var price := RoundToCents(unitPrice);
      match DiscountRulesForQuantity(qty)
      case Err(e) => Err(e)
      case Ok(pct) =>
        var total := LineTotal(qty, price, pct);
        Ok(item.(quantity := qty, unitPrice := price, discountPercent := pct, total := total))
  }

  /** The "Qty above 20" raise inside the discount rules can never escape
      `Apply`: larger quantities are rejected before the rules run. */
  lemma DiscountFallbackUnreachable(item: SaleItem, qty: int, unitPrice: Decimal)
    ensures Apply(item, qty, unitPrice) != Err(DomainError(QtyAboveTwentyNotAllowed))
  {
  }

  /** A new, not cancelled item for the product with a trimmed name. */
  function Create(id: Guid, productId: Guid, productName: string, qty: int, unitPrice: Decimal): (r: Result<SaleItem>)
    ensures r.Err? <==> qty < 1 || qty > 20 || unitPrice.mantissa < 0
    ensures r.Err? ==> r.error.DomainError?
    ensures qty < 1 ==> r == Err(DomainError(QuantityBelowOne))
    ensures 1 <= qty && qty > 20 ==> r == Err(DomainError(QuantityAboveTwenty))
    ensures 1 <= qty <= 20 && unitPrice.mantissa < 0 ==> r == Err(DomainError(NegativeUnitPrice))
    ensures r.Ok? ==> Priced(r.value) && !r.value.isCancelled
    ensures r.Ok? ==> r.value.id == id && r.value.productId == productId && r.value.quantity == qty
    ensures r.Ok? ==> r.value.productName == Trim(productName)
    ensures r.Ok? ==> r.value.unitPrice == RoundToCents(unitPrice)
  {
    var blank := SaleItem(id, productId, Trim(productName), 0, 0, 0, 0, false);
    Apply(blank, qty, unitPrice)
  }

  /** Re-prices the item in place; product, name, id and cancelled flag are
      never touched, whether the update is accepted or not. */
  function Update(item: SaleItem, qty: int, unitPrice: Decimal): (r: Result<SaleItem>)
    ensures r.Err? <==> qty < 1 || qty > 20 || unitPrice.mantissa < 0
    ensures qty < 1 ==> r == Err(DomainError(QuantityBelowOne))
    ensures 1 <= qty && qty > 20 ==> r == Err(DomainError(QuantityAboveTwenty))
    ensures 1 <= qty <= 20 && unitPrice.mantissa < 0 ==> r == Err(DomainError(NegativeUnitPrice))
    ensures r.Ok? ==> Priced(r.value) && r.value.quantity == qty
    ensures r.Ok? ==> r.value.unitPrice == RoundToCents(unitPrice)
    ensures r.Ok? ==> r.value.id == item.id && r.value.productId == item.productId
                      && r.value.productName == item.productName && r.value.isCancelled == item.isCancelled
  {
    Apply(item, qty, unitPrice)
  }

  /** Marks the item cancelled and leaves every other field as it was. */
  function Cancel(item: SaleItem): (r: SaleItem)
    ensures r.isCancelled
    ensures r.(isCancelled := item.isCancelled) == item
  {
    item.(isCancelled := true)
  }

  /** Cancelling twice is cancelling once. */
  lemma CancelIdempotent(item: SaleItem)
    ensures Cancel(Cancel(item)) == Cancel(item)
  {
  }

  /** Cancelling keeps an item priced. */
  lemma CancelKeepsPriced(item: SaleItem)
    requires Priced(item)
    ensures Priced(Cancel(item))
  {
  }

  /** Re-applying an item's own unit price (as the modify handler does)
      keeps that price and changes quantity, discount and total only. */
  lemma UpdateAtSamePrice(item: SaleItem, qty: int)
    requires item.unitPrice >= 0 && 1 <= qty <= 20
    ensures Update(item, qty, Cents(item.unitPrice)).Ok?
    ensures Update(item, qty, Cents(item.unitPrice)).value.unitPrice == item.unitPrice
  {
    RoundToCentsOfCents(item.unitPrice);
  }

  /** The discount never decreases as the quantity grows. */
  lemma DiscountMonotone(q1: int, q2: int)
    requires 1 <= q1 <= q2 <= 20
    ensures DiscountRulesForQuantity(q1).value <= DiscountRulesForQuantity(q2).value
  {
  }
}
