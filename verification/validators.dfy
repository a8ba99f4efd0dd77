/**
 * The FluentValidation rule sets of the sale commands. A validator returns
 * the failures of its rules in declaration order; per-item rules run item by
 * item and carry the item's index. The command is valid when the list is
 * empty.
 *
 * FluentValidation's `NotEmpty` rejects `Guid.Empty`, an empty collection and
 * a null, empty or all-white-space string.
 */
module Validators {
  import opened Common
  import opened Linq
  import opened Commands
  import SaleItems
  import opened Money

  const DuplicateProductIdMessage := "Duplicate ProductId in items payload."
  const NumberRequiredMessage := "Sale number is required."
  const CustomerIdRequiredMessage := "Customer ID is required."
  const BranchIdRequiredMessage := "Branch ID is required."
  const ItemsRequiredMessage := "At least one sale item is required."
  const QuantityNotPositiveMessage := "Quantity should be greater than 0."
  const QuantityAboveLimitMessage := "Quantity should be less or equal to 20."
  const SaleIdCannotBeEmptyMessage := "Sale ID cannot be empty."

  /** The message a rule sets with `WithMessage`; the other rules keep
      FluentValidation's default text, which is not part of this model. */
  function CustomMessage(f: Failure): Option<string> {
    match f
    case DuplicateProductId => Some(DuplicateProductIdMessage)
    case NumberRequired => Some(NumberRequiredMessage)
    case CustomerIdRequired => Some(CustomerIdRequiredMessage)
    case BranchIdRequired => Some(BranchIdRequiredMessage)
    case ItemsRequired => Some(ItemsRequiredMessage)
    case ItemQuantityNotPositive(_) => Some(QuantityNotPositiveMessage)
    case ItemQuantityAboveLimit(_) => Some(QuantityAboveLimitMessage)
    case SaleIdCannotBeEmpty => Some(SaleIdCannotBeEmptyMessage)
    case _ => None
  }

  /** The duplicate rule's test, `ids.Distinct().Count() == ids.Count()`. */
  predicate DistinctProducts(items: seq<ModifySaleItem>)
    ensures DistinctProducts(items) <==> NoDuplicates(ProductIds(items))
  {
    DistinctCountIff(ProductIds(items));
    |Distinct(ProductIds(items))| == |ProductIds(items)|
  }

  /** The two request validators agree on distinctness with the dictionary
      the handler builds from the request. */
  lemma DistinctProductsKeys(items: seq<ModifySaleItem>)
    ensures DistinctProducts(items) <==> DistinctKeys(items, EntryProduct)
  {
  }

  /** A failure is reported by two rule groups run one after the other
      exactly when one of them reports it. */
  lemma InConcat(a: seq<Failure>, b: seq<Failure>)
    ensures forall f :: f in a + b <==> f in a || f in b
  {
  }

  /** A failure's place in the declaration order of the validator that
      reports it: the command-level rules first, as declared, then every
      item's rules, item by item and rule by rule. */
  function Rank(f: Failure): nat {
    match f
    case SaleIdEmpty => 0
    case ItemsEmpty => 1
    case DuplicateProductId => 2
    case ItemProductIdEmpty(i) => 3 + 3 * i
    case ItemQuantityNegative(i) => 4 + 3 * i
    case ItemQuantityAboveTwenty(i) => 5 + 3 * i
    case NumberRequired => 0
    case CustomerIdRequired => 1
    case BranchIdRequired => 2
    case ItemsRequired => 3
    case ItemQuantityNotPositive(i) => 4 + 2 * i
    case ItemQuantityAboveLimit(i) => 5 + 2 * i
    case SaleIdCannotBeEmpty => 0
  }

  /** The failures come in declaration order: each ranks strictly below the
      one after it. */
  predicate InDeclarationOrder(r: seq<Failure>)
    decreases |r|
  {
    |r| < 2 || (Rank(r[0]) < Rank(r[1]) && InDeclarationOrder(r[1..]))
  }

  /** The first failure ranks at least `lo`; in declaration order it is the
      least. */
  predicate StartsFrom(r: seq<Failure>, lo: int) {
    |r| == 0 || lo <= Rank(r[0])
  }

  /** The last failure ranks below `hi`; in declaration order it is the
      greatest. */
  predicate EndsBelow(r: seq<Failure>, hi: int) {
    |r| == 0 || Rank(r[|r| - 1]) < hi
  }

  /** In declaration order every failure ranks strictly below every later
      one. */
  lemma {:induction false} OrderedRanks(r: seq<Failure>, i: nat, j: nat)
    requires InDeclarationOrder(r) && i < j < |r|
    ensures Rank(r[i]) < Rank(r[j])
    decreases j
  {
    if i > 0 {
      assert r[1..][i - 1] == r[i] && r[1..][j - 1] == r[j];
      OrderedRanks(r[1..], i - 1, j - 1);
    } else if j > 1 {
      assert r[1..][0] == r[1] && r[1..][j - 1] == r[j];
      OrderedRanks(r[1..], 0, j - 1);
    }
  }

  /** Failures in declaration order are never repeated. */
  lemma OrderedNoRepeats(r: seq<Failure>)
    requires InDeclarationOrder(r)
    ensures forall i, j :: 0 <= i < j < |r| ==> r[i] != r[j]
  {
    forall i, j | 0 <= i < j < |r| ensures r[i] != r[j] {
      OrderedRanks(r, i, j);
    }
  }

  /** Two ordered groups stay ordered when the one that ends below where the
      other starts runs first. */
  lemma {:induction false} OrderedConcat(a: seq<Failure>, b: seq<Failure>)
    requires InDeclarationOrder(a) && InDeclarationOrder(b)
    requires |a| > 0 && |b| > 0 ==> Rank(a[|a| - 1]) < Rank(b[0])
    ensures InDeclarationOrder(a + b)
    decreases |a|
  {
    if |a| == 0 {
      assert a + b == b;
    } else {
      assert (a + b)[1..] == a[1..] + b;
      if |a| > 1 {
        assert a[1..][|a| - 2] == a[|a| - 1];
      }
      OrderedConcat(a[1..], b);
    }
  }

  /** One item's failures, from `lo` and below `mid`, followed by the later
      items' failures, from `mid` on, are ordered from `lo` on. */
  lemma OrderedCons(head: seq<Failure>, tail: seq<Failure>, lo: int, mid: int)
    requires InDeclarationOrder(head) && StartsFrom(head, lo) && EndsBelow(head, mid)
    requires InDeclarationOrder(tail) && StartsFrom(tail, mid) && lo <= mid
    ensures InDeclarationOrder(head + tail) && StartsFrom(head + tail, lo)
  {
    OrderedConcat(head, tail);
    if |head| > 0 {
      assert (head + tail)[0] == head[0];
    } else {
      assert head + tail == tail;
    }
  }

  /** The failures `a` followed by `f` when its rule reports. */
  function AppendIf(a: seq<Failure>, fails: bool, f: Failure): seq<Failure> {
    a + (if fails then [f] else [])
  }

  /** A rule ranked above every earlier failure keeps the failures ordered,
      whether or not it reports. */
  lemma OrderedAppendIf(a: seq<Failure>, fails: bool, f: Failure, lo: int)
    requires InDeclarationOrder(a) && StartsFrom(a, lo) && EndsBelow(a, Rank(f)) && lo <= Rank(f)
    ensures InDeclarationOrder(AppendIf(a, fails, f))
    ensures StartsFrom(AppendIf(a, fails, f), lo) && EndsBelow(AppendIf(a, fails, f), Rank(f) + 1)
  {
    var r := AppendIf(a, fails, f);
    OrderedConcat(a, if fails then [f] else []);
    if |a| > 0 {
      assert r[0] == a[0];
    }
    if !fails {
      assert r == a;
    }
  }

  /** One item's rules, whichever of them report, come in declaration order
      within that item's slot. */
  lemma ItemRulesOrdered(index: nat, noProduct: bool, negative: bool, aboveTwenty: bool)
    ensures var r := (if noProduct then [ItemProductIdEmpty(index)] else [])
                     + (if negative then [ItemQuantityNegative(index)] else [])
                     + (if aboveTwenty then [ItemQuantityAboveTwenty(index)] else []);
            && InDeclarationOrder(r) && StartsFrom(r, 3 + 3 * index) && EndsBelow(r, 6 + 3 * index)
  {
    var lo := 3 + 3 * index;
    OrderedAppendIf([], noProduct, ItemProductIdEmpty(index), lo);
    var a := AppendIf([], noProduct, ItemProductIdEmpty(index));
    assert a == (if noProduct then [ItemProductIdEmpty(index)] else []);
    OrderedAppendIf(a, negative, ItemQuantityNegative(index), lo);
    var b := AppendIf(a, negative, ItemQuantityNegative(index));
    OrderedAppendIf(b, aboveTwenty, ItemQuantityAboveTwenty(index), lo);
  }

  /** The three command-level rules of `ModifySaleValidator`, whichever of
      them report, come in declaration order, below every item's. */
  lemma ModifyRulesOrdered(noSale: bool, noItems: bool, duplicate: bool)
    ensures var r := (if noSale then [SaleIdEmpty] else []) + (if noItems then [ItemsEmpty] else [])
                     + (if duplicate then [DuplicateProductId] else []);
            && InDeclarationOrder(r) && EndsBelow(r, 3)
  {
    OrderedAppendIf([], noSale, SaleIdEmpty, 0);
    var a := AppendIf([], noSale, SaleIdEmpty);
    assert a == (if noSale then [SaleIdEmpty] else []);
    OrderedAppendIf(a, noItems, ItemsEmpty, 0);
    var b := AppendIf(a, noItems, ItemsEmpty);
    OrderedAppendIf(b, duplicate, DuplicateProductId, 0);
  }

  /** The two command-level rules of `ModifySaleRequestValidator`, whichever
      of them report, come in declaration order, below every item's. */
  lemma RequestRulesOrdered(noItems: bool, duplicate: bool)
    ensures var r := (if noItems then [ItemsEmpty] else []) + (if duplicate then [DuplicateProductId] else []);
            && InDeclarationOrder(r) && EndsBelow(r, 3)
  {
    OrderedAppendIf([], noItems, ItemsEmpty, 0);
    var a := AppendIf([], noItems, ItemsEmpty);
    assert a == (if noItems then [ItemsEmpty] else []);
    OrderedAppendIf(a, duplicate, DuplicateProductId, 0);
  }

  /** The four command-level rules of `CreateSaleValidator`, whichever of
      them report, come in declaration order, below every item's. */
  lemma CreateRulesOrdered(number: bool, customer: bool, branch: bool, items: bool)
    ensures var r := (if number then [NumberRequired] else []) + (if customer then [CustomerIdRequired] else [])
                     + (if branch then [BranchIdRequired] else []) + (if items then [ItemsRequired] else []);
            && InDeclarationOrder(r) && EndsBelow(r, 4)
  {
    OrderedAppendIf([], number, NumberRequired, 0);
    var a := AppendIf([], number, NumberRequired);
    assert a == (if number then [NumberRequired] else []);
    OrderedAppendIf(a, customer, CustomerIdRequired, 0);
    var b := AppendIf(a, customer, CustomerIdRequired);
    OrderedAppendIf(b, branch, BranchIdRequired, 0);
    var d := AppendIf(b, branch, BranchIdRequired);
    OrderedAppendIf(d, items, ItemsRequired, 0);
  }

  // ModifySaleValidator

  /** The child rules of `ModifySaleValidator` for the item at `index`: a
      non-empty product id and a quantity in [0, 20]. */
  function ModifyItemRules(it: ModifySaleItem, index: nat): (r: seq<Failure>)
    ensures r == [] <==> it.productId != EmptyGuid && 0 <= it.quantity <= 20
    ensures forall j: nat :: ItemProductIdEmpty(j) in r <==> j == index && it.productId == EmptyGuid
    ensures forall j: nat :: ItemQuantityNegative(j) in r <==> j == index && it.quantity < 0
    ensures forall j: nat :: ItemQuantityAboveTwenty(j) in r <==> j == index && it.quantity > 20
    ensures forall f :: f in r ==> f.ItemProductIdEmpty? || f.ItemQuantityNegative? || f.ItemQuantityAboveTwenty?
  {
    var a := if it.productId == EmptyGuid then [ItemProductIdEmpty(index)] else [];
    var b := if it.quantity < 0 then [ItemQuantityNegative(index)] else [];
    var c := if it.quantity > 20 then [ItemQuantityAboveTwenty(index)] else [];
    a + b + c
  }

  /** The child rules applied to every item from index `i` on. */
  function ModifyItemFailures(items: seq<ModifySaleItem>, i: nat): (r: seq<Failure>)
    requires i <= |items|
    ensures r == [] <==> forall j :: i <= j < |items| ==> items[j].productId != EmptyGuid && 0 <= items[j].quantity <= 20
    ensures forall j: nat :: ItemProductIdEmpty(j) in r <==> i <= j < |items| && items[j].productId == EmptyGuid
    ensures forall j: nat :: ItemQuantityNegative(j) in r <==> i <= j < |items| && items[j].quantity < 0
    ensures forall j: nat :: ItemQuantityAboveTwenty(j) in r <==> i <= j < |items| && items[j].quantity > 20
    ensures forall f :: f in r ==> f.ItemProductIdEmpty? || f.ItemQuantityNegative? || f.ItemQuantityAboveTwenty?
    decreases |items| - i
  {
    if i == |items| then []
    else ModifyItemRules(items[i], i) + ModifyItemFailures(items, i + 1)
  }

  /** The items' failures come item by item, each ranked after the
      command-level rules. */
  lemma {:induction false} ModifyItemFailuresOrdered(items: seq<ModifySaleItem>, i: nat)
    requires i <= |items|
    ensures InDeclarationOrder(ModifyItemFailures(items, i)) && StartsFrom(ModifyItemFailures(items, i), 3 + 3 * i)
    decreases |items| - i
  {
    if i < |items| {
      var it := items[i];
      ItemRulesOrdered(i, it.productId == EmptyGuid, it.quantity < 0, it.quantity > 20);
      ModifyItemFailuresOrdered(items, i + 1);
      OrderedCons(ModifyItemRules(it, i), ModifyItemFailures(items, i + 1), 3 + 3 * i, 6 + 3 * i);
    }
  }

  /** What `ModifySaleValidator` accepts, rule by rule. */
  ghost predicate ModifySaleValid(c: ModifySaleCommand) {
    && c.saleId != EmptyGuid
    && |c.items| > 0
    && NoDuplicates(ProductIds(c.items))
    && forall i :: 0 <= i < |c.items| ==> c.items[i].productId != EmptyGuid && 0 <= c.items[i].quantity <= 20
  }

  /** The command-level rules of `ModifySaleValidator`, in order. */
  function ModifyCommandRules(c: ModifySaleCommand): (r: seq<Failure>)
    ensures r == [] <==> c.saleId != EmptyGuid && |c.items| > 0 && NoDuplicates(ProductIds(c.items))
    ensures SaleIdEmpty in r <==> c.saleId == EmptyGuid
    ensures ItemsEmpty in r <==> |c.items| == 0
    ensures DuplicateProductId in r <==> !NoDuplicates(ProductIds(c.items))
    ensures forall f :: f in r ==> f == SaleIdEmpty || f == ItemsEmpty || f == DuplicateProductId
  {
    (if c.saleId == EmptyGuid then [SaleIdEmpty] else [])
      + (if |c.items| == 0 then [ItemsEmpty] else [])
      + (if !DistinctProducts(c.items) then [DuplicateProductId] else [])
  }

  /** `ModifySaleValidator`; the command-level rules are stated by
      `ModifySaleCommandFailures`. */
  function ValidateModifySale(c: ModifySaleCommand): (r: seq<Failure>)
    ensures forall j: nat :: ItemProductIdEmpty(j) in r <==> 0 <= j < |c.items| && c.items[j].productId == EmptyGuid
    ensures forall j: nat :: ItemQuantityNegative(j) in r <==> 0 <= j < |c.items| && c.items[j].quantity < 0
    ensures forall j: nat :: ItemQuantityAboveTwenty(j) in r <==> 0 <= j < |c.items| && c.items[j].quantity > 20
    ensures forall f :: f in r ==>
              || f == SaleIdEmpty || f == ItemsEmpty || f == DuplicateProductId
              || f.ItemProductIdEmpty? || f.ItemQuantityNegative? || f.ItemQuantityAboveTwenty?
    ensures InDeclarationOrder(r)
    ensures forall i, j :: 0 <= i < j < |r| ==> r[i] != r[j]
  {
    var head := ModifyCommandRules(c);
    var items := ModifyItemFailures(c.items, 0);
    ModifyHeadKeepsItems(head, items);
    ModifySaleKinds(c);
    ModifySaleOrdered(c);
    head + items
  }

  /** The command-level failures carry no per-item variant, so each item's
      failure is in the whole list exactly when that item reports it. */
  lemma ModifyHeadKeepsItems(head: seq<Failure>, items: seq<Failure>)
    requires forall f :: f in head ==> f == SaleIdEmpty || f == ItemsEmpty || f == DuplicateProductId
    ensures forall j: nat :: ItemProductIdEmpty(j) in head + items <==> ItemProductIdEmpty(j) in items
    ensures forall j: nat :: ItemQuantityNegative(j) in head + items <==> ItemQuantityNegative(j) in items
    ensures forall j: nat :: ItemQuantityAboveTwenty(j) in head + items <==> ItemQuantityAboveTwenty(j) in items
  {
  }

  /** Every failure is one of this validator's. */
  lemma ModifySaleKinds(c: ModifySaleCommand)
    ensures var r := ModifyCommandRules(c) + ModifyItemFailures(c.items, 0);
            forall f :: f in r ==>
              || f == SaleIdEmpty || f == ItemsEmpty || f == DuplicateProductId
              || f.ItemProductIdEmpty? || f.ItemQuantityNegative? || f.ItemQuantityAboveTwenty?
  {
    InConcat(ModifyCommandRules(c), ModifyItemFailures(c.items, 0));
  }

  /** The command-level rules come first and the items' after them. */
  lemma ModifySaleOrdered(c: ModifySaleCommand)
    ensures var r := ModifyCommandRules(c) + ModifyItemFailures(c.items, 0);
            && InDeclarationOrder(r)
            && forall i, j :: 0 <= i < j < |r| ==> r[i] != r[j]
  {
    var head := ModifyCommandRules(c);
    var items := ModifyItemFailures(c.items, 0);
    ModifyRulesOrdered(c.saleId == EmptyGuid, |c.items| == 0, !DistinctProducts(c.items));
    ModifyItemFailuresOrdered(c.items, 0);
    OrderedConcat(head, items);
    OrderedNoRepeats(head + items);
  }

  /** `ModifySaleValidator` accepts exactly the commands that meet every rule. */
  lemma ModifySaleValidatorAccepts(c: ModifySaleCommand)
    ensures ValidateModifySale(c) == [] <==> ModifySaleValid(c)
  {
    var items := ModifyItemFailures(c.items, 0);
    assert ValidateModifySale(c) == ModifyCommandRules(c) + items;
  }

  /** Each command-level rule of `ModifySaleValidator` reports exactly when
      its condition is violated. */
  lemma ModifySaleCommandFailures(c: ModifySaleCommand)
    ensures SaleIdEmpty in ValidateModifySale(c) <==> c.saleId == EmptyGuid
    ensures ItemsEmpty in ValidateModifySale(c) <==> |c.items| == 0
    ensures DuplicateProductId in ValidateModifySale(c) <==> !NoDuplicates(ProductIds(c.items))
  {
    var items := ModifyItemFailures(c.items, 0);
    assert SaleIdEmpty !in items && ItemsEmpty !in items && DuplicateProductId !in items;
  }

  // ModifySaleRequestValidator

  function RequestItemFailures(items: seq<ModifySaleItem>, i: nat): (r: seq<Failure>)
    requires i <= |items|
    ensures r == [] <==> forall j :: i <= j < |items| ==> items[j].productId != EmptyGuid
    ensures forall j: nat :: ItemProductIdEmpty(j) in r <==> i <= j < |items| && items[j].productId == EmptyGuid
    ensures forall f :: f in r ==> f.ItemProductIdEmpty?
    decreases |items| - i
  {
    if i == |items| then []
    else
      (if items[i].productId == EmptyGuid then [ItemProductIdEmpty(i)] else [])
      + RequestItemFailures(items, i + 1)
  }

  /** The product-id failures come item by item, each ranked after the
      command-level rules. */
  lemma {:induction false} RequestItemFailuresOrdered(items: seq<ModifySaleItem>, i: nat)
    requires i <= |items|
    ensures InDeclarationOrder(RequestItemFailures(items, i)) && StartsFrom(RequestItemFailures(items, i), 3 + 3 * i)
    decreases |items| - i
  {
    if i < |items| {
      var head := if items[i].productId == EmptyGuid then [ItemProductIdEmpty(i)] else [];
      RequestItemFailuresOrdered(items, i + 1);
      OrderedCons(head, RequestItemFailures(items, i + 1), 3 + 3 * i, 6 + 3 * i);
    }
  }

  /** What `ModifySaleRequestValidator` accepts: no sale-id or quantity rule. */
  ghost predicate ModifySaleRequestValid(c: ModifySaleCommand) {
    && |c.items| > 0
    && NoDuplicates(ProductIds(c.items))
    && forall i :: 0 <= i < |c.items| ==> c.items[i].productId != EmptyGuid
  }

  function ValidateModifySaleRequest(c: ModifySaleCommand): (r: seq<Failure>)
    ensures r == [] <==> ModifySaleRequestValid(c)
    ensures ItemsEmpty in r <==> |c.items| == 0
    ensures DuplicateProductId in r <==> !NoDuplicates(ProductIds(c.items))
    ensures forall j: nat :: ItemProductIdEmpty(j) in r <==> 0 <= j < |c.items| && c.items[j].productId == EmptyGuid
    ensures forall f :: f in r ==> f == ItemsEmpty || f == DuplicateProductId || f.ItemProductIdEmpty?
    ensures InDeclarationOrder(r)
    ensures forall i, j :: 0 <= i < j < |r| ==> r[i] != r[j]
  {
    RequestSplit(c);
    RequestOrdered(c);
    RequestHead(c) + RequestItemFailures(c.items, 0)
  }

  /** The command-level rules of `ModifySaleRequestValidator`, in order. */
  function RequestHead(c: ModifySaleCommand): (r: seq<Failure>)
    ensures r == [] <==> |c.items| > 0 && NoDuplicates(ProductIds(c.items))
    ensures ItemsEmpty in r <==> |c.items| == 0
    ensures DuplicateProductId in r <==> !NoDuplicates(ProductIds(c.items))
    ensures forall f :: f in r ==> f == ItemsEmpty || f == DuplicateProductId
  {
    (if |c.items| == 0 then [ItemsEmpty] else [])
      + (if !DistinctProducts(c.items) then [DuplicateProductId] else [])
  }

  /** Each failure is in the whole list exactly when its rule reports it,
      and every failure is one of this validator's. */
  lemma RequestSplit(c: ModifySaleCommand)
    ensures var r := RequestHead(c) + RequestItemFailures(c.items, 0);
            && (r == [] <==> ModifySaleRequestValid(c))
            && (ItemsEmpty in r <==> |c.items| == 0)
            && (DuplicateProductId in r <==> !NoDuplicates(ProductIds(c.items)))
            && (forall j: nat :: ItemProductIdEmpty(j) in r <==> 0 <= j < |c.items| && c.items[j].productId == EmptyGuid)
            && (forall f :: f in r ==> f == ItemsEmpty || f == DuplicateProductId || f.ItemProductIdEmpty?)
  {
    RequestHeadKeepsItems(RequestHead(c), RequestItemFailures(c.items, 0));
  }

  /** The command-level failures and the product-id failures are told
      apart by their variant. */
  lemma RequestHeadKeepsItems(head: seq<Failure>, items: seq<Failure>)
    requires forall f :: f in head ==> f == ItemsEmpty || f == DuplicateProductId
    requires forall f :: f in items ==> f.ItemProductIdEmpty?
    ensures ItemsEmpty in head + items <==> ItemsEmpty in head
    ensures DuplicateProductId in head + items <==> DuplicateProductId in head
    ensures forall j: nat :: ItemProductIdEmpty(j) in head + items <==> ItemProductIdEmpty(j) in items
    ensures forall f :: f in head + items ==> f in head || f in items
  {
  }

  /** The command-level rules come first and the items' after them. */
  lemma RequestOrdered(c: ModifySaleCommand)
    ensures var r := RequestHead(c) + RequestItemFailures(c.items, 0);
            && InDeclarationOrder(r)
            && forall i, j :: 0 <= i < j < |r| ==> r[i] != r[j]
  {
    var head := RequestHead(c);
    var items := RequestItemFailures(c.items, 0);
    RequestRulesOrdered(|c.items| == 0, !DistinctProducts(c.items));
    RequestItemFailuresOrdered(c.items, 0);
    OrderedConcat(head, items);
    OrderedNoRepeats(head + items);
  }

  /** Every failure of the web-layer validator is also a failure of the
      handler's validator, so a request the web layer rejects never reaches
      the handler in a form it would accept. */
  lemma RequestFailuresAreCommandFailures(c: ModifySaleCommand)
    ensures forall f :: f in ValidateModifySaleRequest(c) ==> f in ValidateModifySale(c)
  {
    ModifySaleCommandFailures(c);
    RequestKindsCovered(ValidateModifySaleRequest(c), ValidateModifySale(c));
  }

  /** A failure list made of the web layer's three kinds is covered by any list
      that holds each of its failures kind by kind. */
  lemma RequestKindsCovered(request: seq<Failure>, command: seq<Failure>)
    requires forall f :: f in request ==> f == ItemsEmpty || f == DuplicateProductId || f.ItemProductIdEmpty?
    requires ItemsEmpty in request ==> ItemsEmpty in command
    requires DuplicateProductId in request ==> DuplicateProductId in command
    requires forall j: nat :: ItemProductIdEmpty(j) in request ==> ItemProductIdEmpty(j) in command
    ensures forall f :: f in request ==> f in command
  {
    forall f | f in request ensures f in command {
      if f.ItemProductIdEmpty? {
        assert ItemProductIdEmpty(f.index) in request;
      }
    }
  }

  /** A command with an empty sale id and a quantity above the limit. */
  const OverLimitCommand := ModifySaleCommand(EmptyGuid, [ModifySaleItem(1, 21)])

  lemma OverLimitCommandDistinct()
    ensures DistinctProducts(OverLimitCommand.items)
  {
    assert ProductIds(OverLimitCommand.items) == [1];
    assert Distinct([1]) == [1];
  }

  lemma OverLimitCommandFailures()
    ensures ValidateModifySale(OverLimitCommand) == [SaleIdEmpty, ItemQuantityAboveTwenty(0)]
  {
    var c := OverLimitCommand;
    OverLimitCommandHead();
    OverLimitCommandItems();
    assert ValidateModifySale(c) == ModifyCommandRules(c) + ModifyItemFailures(c.items, 0);
  }

  lemma OverLimitCommandHead()
    ensures ModifyCommandRules(OverLimitCommand) == [SaleIdEmpty]
  {
    OverLimitCommandDistinct();
  }

  lemma OverLimitCommandItems()
    ensures ModifyItemFailures(OverLimitCommand.items, 0) == [ItemQuantityAboveTwenty(0)]
  {
    var c := OverLimitCommand;
    assert ModifyItemFailures(c.items, 1) == [];
    assert ModifyItemRules(c.items[0], 0) == [ItemQuantityAboveTwenty(0)] by {
      assert [] + [] + [ItemQuantityAboveTwenty(0)] == [ItemQuantityAboveTwenty(0)];
    }
    assert ModifyItemFailures(c.items, 0) == [ItemQuantityAboveTwenty(0)] + [];
  }

  lemma OverLimitRequestPasses()
    ensures ValidateModifySaleRequest(OverLimitCommand) == []
  {
    OverLimitCommandDistinct();
    assert RequestItemFailures(OverLimitCommand.items, 0) == [] + RequestItemFailures(OverLimitCommand.items, 1);
  }

  /** The web-layer check is strictly weaker: a request with an empty sale id
      or an out-of-range quantity passes it and is rejected by the handler. */
  lemma RequestValidatorIsWeaker()
    ensures var c := ModifySaleCommand(EmptyGuid, [ModifySaleItem(1, 21)]);
            ValidateModifySaleRequest(c) == [] && ValidateModifySale(c) == [SaleIdEmpty, ItemQuantityAboveTwenty(0)]
  {
    OverLimitCommandFailures();
    OverLimitRequestPasses();
  }

  // CreateSaleItemValidator and CreateSaleValidator

  /** `CreateSaleItemValidator` for the item at `index`. Its `NotNull` rule on
      the product id can never fail, since a `Guid` is never null. */
  function ValidateCreateSaleItem(it: CreateSaleItem, index: nat): (r: seq<Failure>)
    ensures r == [] <==> 1 <= it.quantity <= 20
    ensures ItemQuantityNotPositive(index) in r <==> it.quantity <= 0
    ensures ItemQuantityAboveLimit(index) in r <==> it.quantity > 20
    ensures forall f :: f in r ==> f == ItemQuantityNotPositive(index) || f == ItemQuantityAboveLimit(index)
  {
    if it.quantity <= 0 then [ItemQuantityNotPositive(index)]
    else if it.quantity > 20 then [ItemQuantityAboveLimit(index)]
    else []
  }

  function CreateItemFailures(items: seq<CreateSaleItem>, i: nat): (r: seq<Failure>)
    requires i <= |items|
    ensures r == [] <==> forall j :: i <= j < |items| ==> 1 <= items[j].quantity <= 20
    ensures forall j: nat :: ItemQuantityNotPositive(j) in r <==> i <= j < |items| && items[j].quantity <= 0
    ensures forall j: nat :: ItemQuantityAboveLimit(j) in r <==> i <= j < |items| && items[j].quantity > 20
    ensures forall f :: f in r ==> f.ItemQuantityNotPositive? || f.ItemQuantityAboveLimit?
    decreases |items| - i
  {
    if i == |items| then []
    else
      var head := ValidateCreateSaleItem(items[i], i);
      var tail := CreateItemFailures(items, i + 1);
      ItemFailuresCons(items, i, head, tail);
      head + tail
  }

  /** The failures of item `i` followed by those of the items after it are
      the failures of the items from `i` on. */
  lemma ItemFailuresCons(items: seq<CreateSaleItem>, i: nat, head: seq<Failure>, tail: seq<Failure>)
    requires i < |items|
    requires head == [] <==> 1 <= items[i].quantity <= 20
    requires ItemQuantityNotPositive(i) in head <==> items[i].quantity <= 0
    requires ItemQuantityAboveLimit(i) in head <==> items[i].quantity > 20
    requires forall f :: f in head ==> f == ItemQuantityNotPositive(i) || f == ItemQuantityAboveLimit(i)
    requires tail == [] <==> forall j :: i + 1 <= j < |items| ==> 1 <= items[j].quantity <= 20
    requires forall j: nat :: ItemQuantityNotPositive(j) in tail <==> i + 1 <= j < |items| && items[j].quantity <= 0
    requires forall j: nat :: ItemQuantityAboveLimit(j) in tail <==> i + 1 <= j < |items| && items[j].quantity > 20
    requires forall f :: f in tail ==> f.ItemQuantityNotPositive? || f.ItemQuantityAboveLimit?
    ensures head + tail == [] <==> forall j :: i <= j < |items| ==> 1 <= items[j].quantity <= 20
    ensures forall j: nat :: ItemQuantityNotPositive(j) in head + tail <==> i <= j < |items| && items[j].quantity <= 0
    ensures forall j: nat :: ItemQuantityAboveLimit(j) in head + tail <==> i <= j < |items| && items[j].quantity > 20
    ensures forall f :: f in head + tail ==> f.ItemQuantityNotPositive? || f.ItemQuantityAboveLimit?
  {
    var r := head + tail;
    forall j: nat ensures ItemQuantityNotPositive(j) in r <==> i <= j < |items| && items[j].quantity <= 0 {
      if j != i { assert ItemQuantityNotPositive(j) !in head; }
    }
    forall j: nat ensures ItemQuantityAboveLimit(j) in r <==> i <= j < |items| && items[j].quantity > 20 {
      if j != i { assert ItemQuantityAboveLimit(j) !in head; }
    }
  }

  /** The items' failures come item by item, each ranked after the
      command-level rules. */
  lemma {:induction false} CreateItemFailuresOrdered(items: seq<CreateSaleItem>, i: nat)
    requires i <= |items|
    ensures InDeclarationOrder(CreateItemFailures(items, i)) && StartsFrom(CreateItemFailures(items, i), 4 + 2 * i)
    decreases |items| - i
  {
    if i < |items| {
      var head := ValidateCreateSaleItem(items[i], i);
      var tail := CreateItemFailures(items, i + 1);
      CreateItemFailuresOrdered(items, i + 1);
      OrderedCons(head, tail, 4 + 2 * i, 6 + 2 * i);
      assert CreateItemFailures(items, i) == head + tail;
    }
  }

  /** What `CreateSaleValidator` accepts, rule by rule. */
  ghost predicate CreateSaleValid(c: CreateSaleCommand) {
    && !IsNullOrWhiteSpace(c.number)
    && c.customerId != EmptyGuid
    && c.branchId != EmptyGuid
    && |c.items| > 0
    && forall i :: 0 <= i < |c.items| ==> 1 <= c.items[i].quantity <= 20
  }

  /** The command-level rules of `CreateSaleValidator`, in order. */
  function CreateCommandRules(c: CreateSaleCommand): (r: seq<Failure>)
    ensures r == [] <==> !IsNullOrWhiteSpace(c.number) && c.customerId != EmptyGuid && c.branchId != EmptyGuid && |c.items| > 0
    ensures NumberRequired in r <==> IsNullOrWhiteSpace(c.number)
    ensures CustomerIdRequired in r <==> c.customerId == EmptyGuid
    ensures BranchIdRequired in r <==> c.branchId == EmptyGuid
    ensures ItemsRequired in r <==> |c.items| == 0
    ensures forall f :: f in r ==> f == NumberRequired || f == CustomerIdRequired || f == BranchIdRequired || f == ItemsRequired
  {
    (if IsNullOrWhiteSpace(c.number) then [NumberRequired] else [])
    + (if c.customerId == EmptyGuid then [CustomerIdRequired] else [])
    + (if c.branchId == EmptyGuid then [BranchIdRequired] else [])
    + (if |c.items| == 0 then [ItemsRequired] else [])
  }

  function ValidateCreateSale(c: CreateSaleCommand): (r: seq<Failure>)
    ensures NumberRequired in r <==> IsNullOrWhiteSpace(c.number)
    ensures CustomerIdRequired in r <==> c.customerId == EmptyGuid
    ensures BranchIdRequired in r <==> c.branchId == EmptyGuid
    ensures ItemsRequired in r <==> |c.items| == 0
    ensures forall j: nat :: ItemQuantityNotPositive(j) in r <==> 0 <= j < |c.items| && c.items[j].quantity <= 0
    ensures forall j: nat :: ItemQuantityAboveLimit(j) in r <==> 0 <= j < |c.items| && c.items[j].quantity > 20
    ensures forall f :: f in r ==>
              || f == NumberRequired || f == CustomerIdRequired || f == BranchIdRequired || f == ItemsRequired
              || f.ItemQuantityNotPositive? || f.ItemQuantityAboveLimit?
    ensures InDeclarationOrder(r)
    ensures forall i, j :: 0 <= i < j < |r| ==> r[i] != r[j]
  {
    CreateHeadRulesSplit(c);
    CreateItemRulesSplit(c);
    CreateSaleKinds(c);
    CreateSaleOrdered(c);
    CreateCommandRules(c) + CreateItemFailures(c.items, 0)
  }

  /** Every failure is one of this validator's. */
  lemma CreateSaleKinds(c: CreateSaleCommand)
    ensures var r := CreateCommandRules(c) + CreateItemFailures(c.items, 0);
            forall f :: f in r ==>
              || f == NumberRequired || f == CustomerIdRequired || f == BranchIdRequired || f == ItemsRequired
              || f.ItemQuantityNotPositive? || f.ItemQuantityAboveLimit?
  {
    InConcat(CreateCommandRules(c), CreateItemFailures(c.items, 0));
  }

  /** The command-level rules come first and the items' after them. */
  lemma CreateSaleOrdered(c: CreateSaleCommand)
    ensures var r := CreateCommandRules(c) + CreateItemFailures(c.items, 0);
            && InDeclarationOrder(r)
            && forall i, j :: 0 <= i < j < |r| ==> r[i] != r[j]
  {
    var head := CreateCommandRules(c);
    var items := CreateItemFailures(c.items, 0);
    CreateRulesOrdered(IsNullOrWhiteSpace(c.number), c.customerId == EmptyGuid, c.branchId == EmptyGuid, |c.items| == 0);
    CreateItemFailuresOrdered(c.items, 0);
    OrderedConcat(head, items);
    OrderedNoRepeats(head + items);
  }

  /** The per-item failures carry none of the command-level variants, so
      each command-level rule's failure is in the concatenation exactly when
      that rule reports it. */
  lemma CreateHeadRulesSplit(c: CreateSaleCommand)
    ensures var r := CreateCommandRules(c) + CreateItemFailures(c.items, 0);
            && (NumberRequired in r <==> IsNullOrWhiteSpace(c.number))
            && (CustomerIdRequired in r <==> c.customerId == EmptyGuid)
            && (BranchIdRequired in r <==> c.branchId == EmptyGuid)
            && (ItemsRequired in r <==> |c.items| == 0)
  {
    var items := CreateItemFailures(c.items, 0);
    assert NumberRequired !in items && CustomerIdRequired !in items;
    assert BranchIdRequired !in items && ItemsRequired !in items;
  }

  /** The command-level failures carry no per-item variant, so each item's
      failure is in the concatenation exactly when that item reports it. */
  lemma CreateItemRulesSplit(c: CreateSaleCommand)
    ensures var r := CreateCommandRules(c) + CreateItemFailures(c.items, 0);
            && (forall j: nat :: ItemQuantityNotPositive(j) in r <==> 0 <= j < |c.items| && c.items[j].quantity <= 0)
            && (forall j: nat :: ItemQuantityAboveLimit(j) in r <==> 0 <= j < |c.items| && c.items[j].quantity > 20)
  {
    var head := CreateCommandRules(c);
    var items := CreateItemFailures(c.items, 0);
    forall j: nat ensures ItemQuantityNotPositive(j) in head + items <==> ItemQuantityNotPositive(j) in items {
      assert ItemQuantityNotPositive(j) !in head;
    }
    forall j: nat ensures ItemQuantityAboveLimit(j) in head + items <==> ItemQuantityAboveLimit(j) in items {
      assert ItemQuantityAboveLimit(j) !in head;
    }
  }

  /** `CreateSaleValidator` accepts exactly the commands that meet every rule;
      one invalid item invalidates the whole command. */
  lemma CreateSaleValidatorAccepts(c: CreateSaleCommand)
    ensures ValidateCreateSale(c) == [] <==> CreateSaleValid(c)
  {
    var items := CreateItemFailures(c.items, 0);
    assert ValidateCreateSale(c) == CreateCommandRules(c) + items;
  }

  /** A validated quantity never trips the item's own quantity checks: the
      validator's range is exactly the range `SaleItem` accepts, so the only
      way creating the item can still fail is a negative catalog price. */
  lemma ValidQuantityCreatesItem(c: CreateSaleCommand, i: nat, id: Guid, name: string, price: Decimal)
    requires ValidateCreateSale(c) == [] && i < |c.items|
    ensures SaleItems.Create(id, c.items[i].productId, name, c.items[i].quantity, price).Err?
            <==> price.mantissa < 0
  {
  }

  /** The converse: every quantity outside the validator's range is one the
      item itself would reject. */
  lemma RejectedQuantityFailsItem(it: CreateSaleItem, index: nat, id: Guid, name: string, price: Decimal)
    requires ValidateCreateSaleItem(it, index) != []
    ensures SaleItems.Create(id, it.productId, name, it.quantity, price).Err?
  {
  }

  // CancelSaleValidator

  function ValidateCancelSale(c: CancelSaleCommand): (r: seq<Failure>)
    ensures r == [] <==> c.id != EmptyGuid
    ensures r != [] ==> r == [SaleIdCannotBeEmpty] && CustomMessage(r[0]) == Some(SaleIdCannotBeEmptyMessage)
  {
    if c.id == EmptyGuid then [SaleIdCannotBeEmpty] else []
  }
}
