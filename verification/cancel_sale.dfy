/**
 * The cancel-sale handler: validate the id, load the sale, and cancel it
 * unless it already is. Cancelling an already-cancelled sale is a success
 * that saves and publishes nothing.
 */
module CancelSale {
  import opened Common
  import opened Sales
  import opened Events
  import opened Ports
  import opened Commands
  import Validators

  /** What a successful command leaves behind: the store, how many times it
      was saved, the events published and the result's `Success` flag. */
  datatype CancelOutcome = CancelOutcome(store: SaleStore, saves: nat, published: seq<Event>, success: bool)

  /** `CancelSaleHandler.Handle`. */
  function HandleCancel(cmd: CancelSaleCommand, store: SaleStore): (r: Result<CancelOutcome>)
    ensures cmd.id == EmptyGuid ==> r == Err(ValidationError([SaleIdCannotBeEmpty]))
    ensures cmd.id != EmptyGuid && cmd.id !in store ==> r == Err(NotFound(SaleNotFound))
    ensures r.Ok? <==> cmd.id != EmptyGuid && cmd.id in store
    ensures r.Ok? ==> r.value.success
    ensures r.Ok? ==> r.value.store.Keys == store.Keys
                      && (forall k :: k in store && k != cmd.id ==> r.value.store[k] == store[k])
    ensures r.Ok? ==> var (before, after) := (store[cmd.id], r.value.store[cmd.id]);
                      && after.isCancelled
                      && after.total == before.total
                      && after.(isCancelled := before.isCancelled, items := before.items) == before
    ensures r.Ok? && store[cmd.id].isCancelled ==>
              r.value.store == store && r.value.saves == 0 && r.value.published == []
    ensures r.Ok? && !store[cmd.id].isCancelled ==>
              && r.value.saves == 1 && r.value.published == [SaleCancelled(store[cmd.id].id)]
              && r.value.store[cmd.id].items == CancelAll(store[cmd.id].items)
  {
    var failures := Validators.ValidateCancelSale(cmd);
    if failures != [] then Err(ValidationError(failures))
    else if cmd.id !in store then Err(NotFound(SaleNotFound))
    else
      var sale := store[cmd.id];
      if sale.isCancelled then Ok(CancelOutcome(store, 0, [], true))
      else
        var cancelled := Cancel(sale);
        Ok(CancelOutcome(store[cmd.id := cancelled], 1, [SaleCancelled(sale.id)], true))
  }

  /** Running the command a second time on the store the first run left
      changes nothing and publishes nothing: together the two runs saved
      once at most and published what the first run published. */
  lemma HandleCancelIdempotent(cmd: CancelSaleCommand, store: SaleStore)
    requires HandleCancel(cmd, store).Ok?
    ensures var first := HandleCancel(cmd, store).value;
            && HandleCancel(cmd, first.store).Ok?
            && var second := HandleCancel(cmd, first.store).value;
               && second.store == first.store
               && second.saves == 0 && second.published == []
               && first.saves + second.saves <= 1
  {
  }

  /** The aggregate invariant survives the command. */
  lemma HandleCancelWellFormed(cmd: CancelSaleCommand, store: SaleStore)
    requires HandleCancel(cmd, store).Ok? && WellFormed(store[cmd.id])
    ensures WellFormed(HandleCancel(cmd, store).value.store[cmd.id])
  {
    CancelWellFormed(store[cmd.id]);
  }

  /** A cancelled sale keeps the total it had while active, which is the sum
      over the items that were active then; the items themselves no longer
      contribute anything. */
  lemma HandleCancelFreezesTotal(cmd: CancelSaleCommand, store: SaleStore)
    requires HandleCancel(cmd, store).Ok? && !store[cmd.id].isCancelled && WellFormed(store[cmd.id])
    ensures var after := HandleCancel(cmd, store).value.store[cmd.id];
            && after.total == ActiveTotal(store[cmd.id].items)
            && ActiveTotal(after.items) == 0
  {
    CancelFreezesTotal(store[cmd.id]);
  }
}
