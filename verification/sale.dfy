/**
 * The `Sale` aggregate: an ordered list of items, a derived total and a
 * one-way cancelled flag. Every item mutator recomputes the total; `Cancel`
 * does not, so a cancelled sale keeps the total it had before.
 */
module Sales {
  import opened Common
  import opened Money
  import SaleItems
  type SaleItem = SaleItems.SaleItem

  datatype Sale = Sale(
    id: Guid,
    number: string,
    date: Timestamp,
    customerId: Guid,
    customerName: string,
    branchId: Guid,
    branchName: string,
    total: int,
    isCancelled: bool,
    items: seq<SaleItem>)

  const SaleNumberRequired := "Sale number is required."
  const SaleIsCancelled := "Sale is cancelled."
  const ItemNotFound := "Item not found."

  /** What an item adds to the sale total. */
  function Contribution(it: SaleItem): int {
    if it.isCancelled then 0 else it.total
  }

  /** The sum of the totals of the items that are not cancelled. */
  function ActiveTotal(items: seq<SaleItem>): int {
    if |items| == 0 then 0
    else ActiveTotal(items[..|items| - 1]) + Contribution(items[|items| - 1])
  }

  predicate HasActiveItem(items: seq<SaleItem>) {
    exists i :: 0 <= i < |items| && !items[i].isCancelled
  }

  /** The total invariant: it holds while the sale is active and says nothing
      once it is cancelled. */
  ghost predicate Consistent(s: Sale) {
    !s.isCancelled ==> s.total == ActiveTotal(s.items)
  }

  ghost predicate UniqueIds(items: seq<SaleItem>) {
    forall i, j :: 0 <= i < |items| && 0 <= j < |items| && items[i].id == items[j].id ==> i == j
  }

  /** The aggregate invariant kept by every operation. */
  ghost predicate WellFormed(s: Sale) {
    && UniqueIds(s.items)
    && (forall i :: 0 <= i < |s.items| ==> SaleItems.Priced(s.items[i]))
    && Consistent(s)
    && (s.isCancelled ==> !HasActiveItem(s.items))
  }

  /** The number of items carrying `id`. */
  function MatchCount(items: seq<SaleItem>, id: Guid): (n: nat)
    ensures n <= |items|
    ensures n == 0 <==> forall i :: 0 <= i < |items| ==> items[i].id != id
  {
    if |items| == 0 then 0
    else MatchCount(items[..|items| - 1], id) + (if items[|items| - 1].id == id then 1 else 0)
  }

  /** The position of the first item carrying `id`. */
  function IndexOf(items: seq<SaleItem>, id: Guid): (k: nat)
    requires MatchCount(items, id) > 0
    ensures k < |items| && items[k].id == id
    ensures forall i :: 0 <= i < k ==> items[i].id != id
  {
    if items[0].id == id then 0
    else
      assert MatchCount(items[1..], id) > 0 by {
        var j :| 0 <= j < |items| && items[j].id == id;
        assert items[1..][j - 1].id == id;
      }
      1 + IndexOf(items[1..], id)
  }

  /** With unique ids the item at `k` is the single match for its id. */
  lemma UniqueIdLookup(items: seq<SaleItem>, k: nat)
    requires UniqueIds(items) && k < |items|
    ensures MatchCount(items, items[k].id) == 1
    ensures IndexOf(items, items[k].id) == k
  {
    var id := items[k].id;
    var p := items[..|items| - 1];
    if k == |items| - 1 {
      assert MatchCount(p, id) == 0 by {
        forall i | 0 <= i < |p| ensures p[i].id != id { assert items[i] == p[i]; }
      }
    } else {
      assert UniqueIds(p) by {
        forall i, j | 0 <= i < |p| && 0 <= j < |p| && p[i].id == p[j].id ensures i == j {
          assert items[i] == p[i] && items[j] == p[j];
        }
      }
      assert p[k] == items[k];
      UniqueIdLookup(p, k);
    }
  }

  /** `Sale.Create`: rejects a null or blank number, trims number, customer and
      branch names, and starts with no items, a zero total and not cancelled. */
  function Create(id: Guid, number: Option<string>, date: Timestamp,
                  customerId: Guid, customerName: string,
                  branchId: Guid, branchName: string): (r: Result<Sale>)
    ensures r.Err? <==> IsNullOrWhiteSpace(number)
    ensures r.Err? ==> r.error == DomainError(SaleNumberRequired)
    ensures r.Ok? ==> r.value.number == Trim(number.value) && r.value.number != []
    ensures r.Ok? ==> r.value.customerName == Trim(customerName) && r.value.branchName == Trim(branchName)
    ensures r.Ok? ==> r.value.id == id && r.value.date == date
                      && r.value.customerId == customerId && r.value.branchId == branchId
    ensures r.Ok? ==> r.value.total == 0 && !r.value.isCancelled && r.value.items == []
    ensures r.Ok? ==> WellFormed(r.value)
  {
    if IsNullOrWhiteSpace(number) then Err(DomainError(SaleNumberRequired))
    else
      TrimEmptyIffWhiteSpace(number.value);
      Ok(Sale(id, Trim(number.value), date, customerId, Trim(customerName),
              branchId, Trim(branchName), 0, false, []))
  }

  function EnsureNotCancelled(s: Sale): (r: Outcome)
    ensures r.Fail? <==> s.isCancelled
    ensures r.Fail? ==> r.error == DomainError(SaleIsCancelled)
  {
    if s.isCancelled then Fail(DomainError(SaleIsCancelled)) else Pass
  }

  /** Recomputes the total from the active items, rounded half-to-even to
      cents. Since every item total is already whole cents the rounding never
      changes the sum. */
  function RecalculateTotal(s: Sale): (r: Sale)
    ensures r.total == ActiveTotal(s.items)
    ensures r.(total := s.total) == s
  {
    RoundToCentsOfCents(ActiveTotal(s.items));
    s.(total := RoundToCents(Cents(ActiveTotal(s.items))))
  }

  lemma ActiveTotalAppend(items: seq<SaleItem>, it: SaleItem)
    ensures ActiveTotal(items + [it]) == ActiveTotal(items) + Contribution(it)
  {
    assert (items + [it])[..|items|] == items;
  }

  /** Replacing one item changes the active total by the difference of the
      two contributions. */
  lemma {:induction false} ActiveTotalUpdate(items: seq<SaleItem>, k: nat, it: SaleItem)
    requires k < |items|
    ensures ActiveTotal(items[k := it]) == ActiveTotal(items) - Contribution(items[k]) + Contribution(it)
    decreases |items|
  {
    var n := |items| - 1;
    if k == n {
      assert items[k := it][..n] == items[..n];
    } else {
      assert items[k := it][..n] == items[..n][k := it];
      ActiveTotalUpdate(items[..n], k, it);
    }
  }

  /** With no active item the active total is zero. */
  lemma {:induction false} ActiveTotalNoActive(items: seq<SaleItem>)
    requires !HasActiveItem(items)
    ensures ActiveTotal(items) == 0
    decreases |items|
  {
    if |items| > 0 {
      var p := items[..|items| - 1];
      assert !HasActiveItem(p) by {
        forall i | 0 <= i < |p| ensures p[i].isCancelled { assert p[i] == items[i]; }
      }
      ActiveTotalNoActive(p);
    }
  }

  /** The largest item id on the sale, 0 when there is none. */
  function MaxItemId(items: seq<SaleItem>): (m: nat)
    ensures forall i :: 0 <= i < |items| ==> items[i].id <= m
  {
    if |items| == 0 then 0
    else
      var rest := MaxItemId(items[1..]);
      assert forall i :: 1 <= i < |items| ==> items[i] == items[1..][i - 1];
      if items[0].id > rest then items[0].id else rest
  }

  /** Stands in for the `Guid.NewGuid()` a new item receives: a non-empty id
      that no item of the sale carries yet. */
  function NewItemId(s: Sale): (id: Guid)
    ensures id != EmptyGuid
    ensures MatchCount(s.items, id) == 0
  {
    MaxItemId(s.items) + 1
  }

  /** Appends a new item with a fresh id and recomputes the total. */
  function AddItem(s: Sale, itemId: Guid, productId: Guid, productName: string,
                   qty: int, unitPrice: Decimal): (r: Result<Sale>)
    requires MatchCount(s.items, itemId) == 0
    ensures s.isCancelled ==> r == Err(DomainError(SaleIsCancelled))
    ensures !s.isCancelled ==> (r.Ok? <==> SaleItems.Create(itemId, productId, productName, qty, unitPrice).Ok?)
    ensures !s.isCancelled && r.Err? ==> r.error == SaleItems.Create(itemId, productId, productName, qty, unitPrice).error
    ensures r.Ok? ==> r.value.items == s.items + [SaleItems.Create(itemId, productId, productName, qty, unitPrice).value]
    ensures r.Ok? ==> r.value.(items := s.items, total := s.total) == s
    ensures r.Ok? && Consistent(s) ==> r.value.total == s.total + r.value.items[|s.items|].total
  {
    var guard := EnsureNotCancelled(s);
    if guard.Fail? then guard.PropagateFailure() else
      var item :- SaleItems.Create(itemId, productId, productName, qty, unitPrice);
      ActiveTotalAppend(s.items, item);
      Ok(RecalculateTotal(s.(items := s.items + [item])))
  }

  /** Re-prices the single item carrying `itemId` and recomputes the total. */
  function UpdateItem(s: Sale, itemId: Guid, qty: int, unitPrice: Decimal): (r: Result<Sale>)
    ensures s.isCancelled ==> r == Err(DomainError(SaleIsCancelled))
    ensures !s.isCancelled && MatchCount(s.items, itemId) == 0 ==> r == Err(DomainError(ItemNotFound))
    ensures !s.isCancelled && MatchCount(s.items, itemId) > 1 ==> r == Err(MoreThanOneMatch)
    ensures !s.isCancelled && MatchCount(s.items, itemId) == 1 ==>
              (r.Ok? <==> SaleItems.Update(s.items[IndexOf(s.items, itemId)], qty, unitPrice).Ok?)
    ensures !s.isCancelled && MatchCount(s.items, itemId) == 1 && r.Err? ==>
              r.error == SaleItems.Update(s.items[IndexOf(s.items, itemId)], qty, unitPrice).error
    ensures r.Ok? ==> (MatchCount(s.items, itemId) == 1 &&
              var k := IndexOf(s.items, itemId);
              r.value.items == s.items[k := SaleItems.Update(s.items[k], qty, unitPrice).value])
    ensures r.Ok? ==> r.value.(items := s.items, total := s.total) == s
    ensures r.Ok? && Consistent(s) ==> (var k := IndexOf(s.items, itemId);
              r.value.total == s.total - Contribution(s.items[k]) + Contribution(r.value.items[k]))
  {
    var guard := EnsureNotCancelled(s);
    if guard.Fail? then guard.PropagateFailure() else
      var n := MatchCount(s.items, itemId);
      if n == 0 then Err(DomainError(ItemNotFound))
      else if n > 1 then Err(MoreThanOneMatch)
      else
        var k := IndexOf(s.items, itemId);
        var item :- SaleItems.Update(s.items[k], qty, unitPrice);
        ActiveTotalUpdate(s.items, k, item);
        Ok(RecalculateTotal(s.(items := s.items[k := item])))
  }

  /** Cancels the single item carrying `itemId` and recomputes the total. */
  function CancelItem(s: Sale, itemId: Guid): (r: Result<Sale>)
    ensures s.isCancelled ==> r == Err(DomainError(SaleIsCancelled))
    ensures !s.isCancelled && MatchCount(s.items, itemId) == 0 ==> r == Err(DomainError(ItemNotFound))
    ensures !s.isCancelled && MatchCount(s.items, itemId) > 1 ==> r == Err(MoreThanOneMatch)
    ensures !s.isCancelled && MatchCount(s.items, itemId) == 1 ==> r.Ok?
    ensures r.Ok? ==> (MatchCount(s.items, itemId) == 1 &&
              var k := IndexOf(s.items, itemId);
              r.value.items == s.items[k := SaleItems.Cancel(s.items[k])])
    ensures r.Ok? ==> r.value.(items := s.items, total := s.total) == s
    ensures r.Ok? && Consistent(s) ==>
              r.value.total == s.total - Contribution(s.items[IndexOf(s.items, itemId)])
  {
    var guard := EnsureNotCancelled(s);
    if guard.Fail? then guard.PropagateFailure() else
      var n := MatchCount(s.items, itemId);
      if n == 0 then Err(DomainError(ItemNotFound))
      else if n > 1 then Err(MoreThanOneMatch)
      else
        var k := IndexOf(s.items, itemId);
        ActiveTotalUpdate(s.items, k, SaleItems.Cancel(s.items[k]));
        Ok(RecalculateTotal(s.(items := s.items[k := SaleItems.Cancel(s.items[k])])))
  }

  /** Every successful item mutation leaves the total equal to the sum of the
      active items' totals. */
  lemma MutatorsRestoreTotal(s: Sale, itemId: Guid, productId: Guid, productName: string,
                             qty: int, unitPrice: Decimal)
    ensures CancelItem(s, itemId).Ok? ==> Consistent(CancelItem(s, itemId).value)
    ensures UpdateItem(s, itemId, qty, unitPrice).Ok? ==> Consistent(UpdateItem(s, itemId, qty, unitPrice).value)
    ensures RemoveItem(s, itemId).Ok? ==> Consistent(RemoveItem(s, itemId).value)
    ensures MatchCount(s.items, itemId) == 0 && AddItem(s, itemId, productId, productName, qty, unitPrice).Ok? ==>
              Consistent(AddItem(s, itemId, productId, productName, qty, unitPrice).value)
  {
  }

  /** `AddItem` keeps the aggregate invariant. */
  lemma AddItemWellFormed(s: Sale, itemId: Guid, productId: Guid, productName: string,
                          qty: int, unitPrice: Decimal)
    requires WellFormed(s) && MatchCount(s.items, itemId) == 0
    requires AddItem(s, itemId, productId, productName, qty, unitPrice).Ok?
    ensures WellFormed(AddItem(s, itemId, productId, productName, qty, unitPrice).value)
  {
    var r := AddItem(s, itemId, productId, productName, qty, unitPrice).value;
    var it := SaleItems.Create(itemId, productId, productName, qty, unitPrice).value;
    AppendKeepsInvariant(s, it, r);
  }

  lemma AppendKeepsInvariant(s: Sale, it: SaleItem, r: Sale)
    requires WellFormed(s) && !s.isCancelled
    requires MatchCount(s.items, it.id) == 0 && SaleItems.Priced(it)
    requires r.items == s.items + [it] && !r.isCancelled && r.total == ActiveTotal(r.items)
    ensures WellFormed(r)
  {
    var n := |s.items|;
    assert forall i :: 0 <= i < n ==> r.items[i] == s.items[i];
    assert r.items[n] == it;
  }

  /** `UpdateItem` keeps the aggregate invariant. */
  lemma UpdateItemWellFormed(s: Sale, itemId: Guid, qty: int, unitPrice: Decimal)
    requires WellFormed(s) && UpdateItem(s, itemId, qty, unitPrice).Ok?
    ensures WellFormed(UpdateItem(s, itemId, qty, unitPrice).value)
  {
    var r := UpdateItem(s, itemId, qty, unitPrice).value;
    var k := IndexOf(s.items, itemId);
    assert r.items[k].id == s.items[k].id;
    assert forall i :: 0 <= i < |r.items| && i != k ==> r.items[i] == s.items[i];
  }

  /** `CancelItem` keeps the aggregate invariant. */
  lemma CancelItemWellFormed(s: Sale, itemId: Guid)
    requires WellFormed(s) && CancelItem(s, itemId).Ok?
    ensures WellFormed(CancelItem(s, itemId).value)
  {
    var r := CancelItem(s, itemId).value;
    var k := IndexOf(s.items, itemId);
    assert r.items[k].id == s.items[k].id;
    assert forall i :: 0 <= i < |r.items| && i != k ==> r.items[i] == s.items[i];
    SaleItems.CancelKeepsPriced(s.items[k]);
  }

  /** `RemoveAll(i => i.Id == itemId)`: keeps, in order, the items with another id. */
  function Without(items: seq<SaleItem>, itemId: Guid): (r: seq<SaleItem>)
    ensures |r| == |items| - MatchCount(items, itemId)
    ensures forall i :: 0 <= i < |r| ==> r[i].id != itemId
    ensures forall i :: 0 <= i < |r| ==> r[i] in items
    ensures MatchCount(items, itemId) == 0 ==> r == items
  {
    if |items| == 0 then []
    else
      var p := Without(items[..|items| - 1], itemId);
      var last := items[|items| - 1];
      assert forall i :: 0 <= i < |p| ==> p[i] in items by {
        forall i | 0 <= i < |p| ensures p[i] in items {
          assert p[i] in items[..|items| - 1];
        }
      }
      if last.id == itemId then p else p + [last]
  }

  lemma {:induction false} WithoutKeeps(items: seq<SaleItem>, itemId: Guid, it: SaleItem)
    requires it in items && it.id != itemId
    ensures it in Without(items, itemId)
    decreases |items|
  {
    var n := |items| - 1;
    if items[n] != it {
      var j :| 0 <= j < |items| && items[j] == it;
      assert items[..n][j] == it;
      WithoutKeeps(items[..n], itemId, it);
    }
  }

  /** The positions, in increasing order, of the items whose id is not
      `itemId`: every such position, and no other. */
  ghost function KeptPositions(items: seq<SaleItem>, itemId: Guid): (p: seq<nat>)
    ensures forall k :: 0 <= k < |p| ==> p[k] < |items| && items[p[k]].id != itemId
    ensures forall k, l :: 0 <= k < l < |p| ==> p[k] < p[l]
    decreases |items|
  {
    if |items| == 0 then []
    else
      var n := |items| - 1;
      var q := KeptPositions(items[..n], itemId);
      assert forall k :: 0 <= k < |q| ==> items[..n][q[k]] == items[q[k]];
      if items[n].id == itemId then q else q + [n]
  }

  /** No position of an item with another id is missed. */
  lemma {:induction false} KeptPositionsComplete(items: seq<SaleItem>, itemId: Guid, i: nat)
    requires i < |items| && items[i].id != itemId
    ensures i in KeptPositions(items, itemId)
    decreases |items|
  {
    var n := |items| - 1;
    if i < n {
      assert items[..n][i] == items[i];
      KeptPositionsComplete(items[..n], itemId, i);
    }
  }

  /** `RemoveAll` keeps the survivors in their original order: the k-th
      remaining item is the item at the k-th kept position. */
  lemma {:induction false} WithoutInOrder(items: seq<SaleItem>, itemId: Guid)
    ensures |Without(items, itemId)| == |KeptPositions(items, itemId)|
    ensures forall k :: 0 <= k < |Without(items, itemId)| ==>
              Without(items, itemId)[k] == items[KeptPositions(items, itemId)[k]]
    decreases |items|
  {
    if |items| > 0 {
      var n := |items| - 1;
      var pre := items[..n];
      WithoutInOrder(pre, itemId);
      WithoutInOrderStep(items, itemId);
    }
  }

  lemma WithoutUnfold(items: seq<SaleItem>, itemId: Guid)
    requires |items| > 0
    ensures var (n, last) := (|items| - 1, items[|items| - 1]);
            && Without(items, itemId) == Without(items[..n], itemId) + (if last.id == itemId then [] else [last])
            && KeptPositions(items, itemId) == KeptPositions(items[..n], itemId) + (if last.id == itemId then [] else [n])
  {
  }

  lemma WithoutInOrderStep(items: seq<SaleItem>, itemId: Guid)
    requires |items| > 0
    requires var pre := items[..|items| - 1];
             && |Without(pre, itemId)| == |KeptPositions(pre, itemId)|
             && forall k :: 0 <= k < |Without(pre, itemId)| ==>
                  Without(pre, itemId)[k] == pre[KeptPositions(pre, itemId)[k]]
    ensures |Without(items, itemId)| == |KeptPositions(items, itemId)|
    ensures forall k :: 0 <= k < |Without(items, itemId)| ==>
              Without(items, itemId)[k] == items[KeptPositions(items, itemId)[k]]
  {
    var n := |items| - 1;
    var pre := items[..n];
    var w := Without(pre, itemId);
    var q := KeptPositions(pre, itemId);
    var r := Without(items, itemId);
    var p := KeptPositions(items, itemId);
    WithoutUnfold(items, itemId);
    forall k | 0 <= k < |r| ensures r[k] == items[p[k]] {
      if k < |w| {
        assert r[k] == w[k] && p[k] == q[k];
        assert pre[q[k]] == items[q[k]];
      }
    }
  }

  /** Removes every item carrying `itemId` and recomputes the total. Unlike
      `UpdateItem` and `CancelItem` an unknown id is not an error. */
  function RemoveItem(s: Sale, itemId: Guid): (r: Result<Sale>)
    ensures s.isCancelled ==> r == Err(DomainError(SaleIsCancelled))
    ensures !s.isCancelled ==> r.Ok?
    ensures r.Ok? ==> r.value.items == Without(s.items, itemId)
    ensures r.Ok? ==> (forall it :: it in r.value.items <==> it in s.items && it.id != itemId)
    ensures r.Ok? ==> |r.value.items| == |s.items| - MatchCount(s.items, itemId)
    ensures r.Ok? && MatchCount(s.items, itemId) == 0 ==> r.value.items == s.items
    ensures r.Ok? ==> r.value.total == ActiveTotal(r.value.items)
    ensures r.Ok? ==> r.value.(items := s.items, total := s.total) == s
  {
    var guard := EnsureNotCancelled(s);
    if guard.Fail? then guard.PropagateFailure() else
      var items := Without(s.items, itemId);
      assert forall it :: it in s.items && it.id != itemId ==> it in items by {
        forall it | it in s.items && it.id != itemId ensures it in items {
          WithoutKeeps(s.items, itemId, it);
        }
      }
      Ok(RecalculateTotal(s.(items := items)))
  }

  lemma UniqueIdsPrefix(items: seq<SaleItem>)
    requires UniqueIds(items) && |items| > 0
    ensures UniqueIds(items[..|items| - 1])
  {
    var pre := items[..|items| - 1];
    forall i, j | 0 <= i < |pre| && 0 <= j < |pre| && pre[i].id == pre[j].id ensures i == j {
      assert pre[i] == items[i] && pre[j] == items[j];
    }
  }

  /** Appending an item whose id is new keeps the ids unique. */
  lemma UniqueIdsSnoc(items: seq<SaleItem>, it: SaleItem)
    requires UniqueIds(items) && forall i :: 0 <= i < |items| ==> items[i].id != it.id
    ensures UniqueIds(items + [it])
  {
    var r := items + [it];
    assert forall i :: 0 <= i < |items| ==> r[i] == items[i];
  }

  /** Removing items never brings in an id the sequence did not have. */
  lemma {:induction false} WithoutAvoids(items: seq<SaleItem>, itemId: Guid, x: SaleItem)
    requires forall i :: 0 <= i < |items| ==> items[i].id != x.id
    ensures forall i :: 0 <= i < |Without(items, itemId)| ==> Without(items, itemId)[i].id != x.id
    decreases |items|
  {
    if |items| > 0 {
      var n := |items| - 1;
      var pre := items[..n];
      assert forall i :: 0 <= i < n ==> pre[i] == items[i];
      WithoutAvoids(pre, itemId, x);
      var p := Without(pre, itemId);
      if items[n].id != itemId {
        var r := p + [items[n]];
        assert forall i :: 0 <= i < |p| ==> r[i] == p[i];
        assert Without(items, itemId) == r;
      }
    }
  }

  lemma {:induction false} WithoutUnique(items: seq<SaleItem>, itemId: Guid)
    requires UniqueIds(items)
    ensures UniqueIds(Without(items, itemId))
    decreases |items|
  {
    if |items| > 0 {
      var n := |items| - 1;
      var pre := items[..n];
      UniqueIdsPrefix(items);
      WithoutUnique(pre, itemId);
      var p := Without(pre, itemId);
      if items[n].id != itemId {
        forall i | 0 <= i < n ensures pre[i].id != items[n].id {
          assert pre[i] == items[i];
        }
        WithoutAvoids(pre, itemId, items[n]);
        UniqueIdsSnoc(p, items[n]);
        assert Without(items, itemId) == p + [items[n]];
      }
    }
  }

  /** `RemoveItem` keeps the aggregate invariant. */
  lemma RemoveItemWellFormed(s: Sale, itemId: Guid)
    requires WellFormed(s) && RemoveItem(s, itemId).Ok?
    ensures WellFormed(RemoveItem(s, itemId).value)
  {
    var r := RemoveItem(s, itemId).value;
    WithoutUnique(s.items, itemId);
    forall i | 0 <= i < |r.items| ensures SaleItems.Priced(r.items[i]) {
      assert r.items[i] in s.items;
    }
  }

  /** Every item, cancelled. */
  function CancelAll(items: seq<SaleItem>): (r: seq<SaleItem>)
    ensures |r| == |items|
    ensures forall i :: 0 <= i < |r| ==> r[i] == SaleItems.Cancel(items[i])
  {
    seq(|items|, i requires 0 <= i < |items| => SaleItems.Cancel(items[i]))
  }

  /** `Sale.Cancel`: a no-op on a cancelled sale; otherwise marks the sale and
      every active item cancelled and does NOT recompute the total. */
  function Cancel(s: Sale): (r: Sale)
    ensures s.isCancelled ==> r == s
    ensures r.isCancelled
    ensures !s.isCancelled ==> !HasActiveItem(r.items) && r.items == CancelAll(s.items)
    ensures r.total == s.total
    ensures r.(isCancelled := s.isCancelled, items := s.items) == s
  {
    if s.isCancelled then s
    else s.(isCancelled := true, items := CancelAll(s.items))
  }

  /** `Cancel` keeps the aggregate invariant. */
  lemma CancelWellFormed(s: Sale)
    requires WellFormed(s)
    ensures WellFormed(Cancel(s))
  {
    var r := Cancel(s);
    if !s.isCancelled {
      forall i | 0 <= i < |r.items| ensures SaleItems.Priced(r.items[i]) {
        SaleItems.CancelKeepsPriced(s.items[i]);
      }
    }
  }

  /** Cancelling twice is cancelling once. */
  lemma CancelIdempotent(s: Sale)
    ensures Cancel(Cancel(s)) == Cancel(s)
  {
  }

  /** The total is frozen by `Cancel`: an active, consistent sale keeps the
      total its items added up to once cancelled, although none of its items
      counts any more. */
  lemma CancelFreezesTotal(s: Sale)
    requires !s.isCancelled && Consistent(s)
    ensures Cancel(s).total == ActiveTotal(s.items)
    ensures ActiveTotal(Cancel(s).items) == 0
  {
    ActiveTotalNoActive(Cancel(s).items);
  }
}
