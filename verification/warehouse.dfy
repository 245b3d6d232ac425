/** The stock helpers of `WareHouseManager`, built on the inventory store. Both
    catch the store's errors and report them instead of letting them escape, so
    each returns the resulting store together with the error it reported, if any. */
module Warehouse {
  import opened Wrappers
  import opened Text
  import opened InventoryItems
  import opened InventoryRepository

  datatype Outcome = Outcome(store: Store, reported: Option<InventoryError>)

  /** C#'s unchecked 32-bit addition: the sum reduced into the `int` range. */
  function Wrap32(x: int): (r: int)
    ensures InInt32(r)
    ensures InInt32(x) ==> r == x
    ensures (r - x) % 0x1_0000_0000 == 0
  {
    (x - Int32Min) % 0x1_0000_0000 + Int32Min
  }

  /** `IncreaseStock`: look the item up, then set its quantity to the old quantity plus
      `delta` (wrapping like unchecked `int` addition); a missing id or a negative result
      is reported and leaves the store as it was. */
  function IncreaseStock(s: Store, id: int, delta: int): (r: Outcome)
    ensures !ContainsItem(s, id) ==> r == Outcome(s, Some(ItemNotFound(id)))
    ensures ContainsItem(s, id) ==>
      var sum := Wrap32(s.items[id].quantity + delta);
      if sum < 0 then r == Outcome(s, Some(InvalidQuantity(sum)))
      else r.reported == None && r.store.items.Keys == s.items.Keys && r.store.items[id].quantity == sum
    ensures r.store.items.Keys == s.items.Keys
    ensures forall k :: k in s.items && k != id ==> r.store.items[k] == s.items[k]
    ensures ContainsItem(s, id) ==>
      && r.store.items[id].id == s.items[id].id
      && r.store.items[id].name == s.items[id].name
      && r.store.items[id].details == s.items[id].details
  {
    match GetItemById(s, id)
    case Err(e) => Outcome(s, Some(e))
    case Ok(item) =>
      var newQuantity := Wrap32(item.quantity + delta);
      match UpdateQuantity(s, id, newQuantity)
      case Err(e) => Outcome(s, Some(e))
      case Ok(s') => Outcome(s', None)
  }

  /** `RemoveItemById`: removes a present id and nothing else; an absent id is reported
      and the store is left alone. */
  function RemoveItemById(s: Store, id: int): (r: Outcome)
    ensures ContainsItem(s, id) <==> r.reported == None
    ensures !ContainsItem(s, id) ==> r == Outcome(s, Some(ItemNotFound(id)))
    ensures ContainsItem(s, id) ==> r.store.items.Keys == s.items.Keys - {id}
    ensures forall k :: k in r.store.items ==> k in s.items && r.store.items[k] == s.items[k]
  {
    match GetItemById(s, id)
    case Err(e) => Outcome(s, Some(e))
    case Ok(_) =>
      match RemoveItem(s, id)
      case Err(e) => Outcome(s, Some(e))
      case Ok(s') => Outcome(s', None)
  }

  /** Within the 32-bit range, a successful increase raises the quantity by exactly `delta`,
      and an increase that would go negative changes nothing. */
  lemma IncreaseStockInRange(s: Store, id: int, delta: int)
    requires ContainsItem(s, id)
    requires InInt32(s.items[id].quantity + delta)
    ensures s.items[id].quantity + delta >= 0 ==>
      IncreaseStock(s, id, delta).store.items[id].quantity == s.items[id].quantity + delta
    ensures s.items[id].quantity + delta < 0 ==> IncreaseStock(s, id, delta).store == s
  {
  }

  /** Both helpers keep every quantity non-negative, wrap-around included. */
  lemma HelpersPreserveNonNegative(s: Store, id: int, delta: int)
    requires NonNegative(s)
    ensures NonNegative(IncreaseStock(s, id, delta).store)
    ensures NonNegative(RemoveItemById(s, id).store)
  {
  }

  /** Adding to a full stock wraps past `int.MaxValue` to a negative sum, which the store
      refuses: the increase is reported as an invalid quantity and nothing changes. */
  lemma OverflowIsReportedAsInvalidQuantity(s: Store, id: int)
    requires ContainsItem(s, id) && s.items[id].quantity == Int32Max
    ensures IncreaseStock(s, id, 1) == Outcome(s, Some(InvalidQuantity(Int32Min)))
  {
  }
}
