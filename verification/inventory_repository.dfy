/** `InventoryRepository<T>`: a dictionary from item id to item whose four
    mutating or reading operations fail with the typed errors of
    `InventoryExceptions.cs`. A failed operation returns `Err` and the caller
    keeps the store it had, which is what a thrown exception leaves behind. */
module InventoryRepository {
  import opened Wrappers
  import opened InventoryItems

  /** `DuplicateItemException`, `ItemNotFoundException`, `InvalidQuantityException`,
      and the `ArgumentNullException` that `AddItem` raises for a `null` item. */
  datatype InventoryError =
    | NullItem
    | DuplicateItem(id: int)
    | ItemNotFound(id: int)
    | InvalidQuantity(quantity: int)

  datatype Store = Store(items: map<int, Item>)

  /** A freshly constructed repository. */
  const Empty: Store := Store(map[])

  /** Every item is filed under its own id. */
  predicate WellKeyed(s: Store) {
    forall k :: k in s.items ==> s.items[k].id == k
  }

  /** No stored item has a negative quantity. */
  predicate NonNegative(s: Store) {
    forall k :: k in s.items ==> s.items[k].quantity >= 0
  }

  /** The `Count` property. */
  function Count(s: Store): nat {
    |s.items|
  }

  /** `ContainsItem`: existence without raising. */
  predicate ContainsItem(s: Store, id: int) {
    id in s.items
  }

  /** `AddItem`: a `null` item (here `None`) is refused first, then an id already
      present; otherwise the item is filed under its id. The quantity is not inspected. */
  function AddItem(s: Store, item: Option<Item>): (r: Result<Store, InventoryError>)
    ensures item.None? ==> r == Err(NullItem)
    ensures item.Some? ==> (r.Err? <==> ContainsItem(s, item.value.id))
    ensures item.Some? && r.Err? ==> r.error == DuplicateItem(item.value.id)
    ensures r.Ok? ==> item.Some? && r.value.items.Keys == s.items.Keys + {item.value.id}
    ensures r.Ok? ==> r.value.items[item.value.id] == item.value
    ensures r.Ok? ==> forall k :: k in s.items ==> r.value.items[k] == s.items[k]
    ensures r.Ok? ==> Count(r.value) == Count(s) + 1
    ensures r.Ok? && WellKeyed(s) ==> WellKeyed(r.value)
  {
    match item
    case None => Err(NullItem)
    case Some(it) =>
      if it.id in s.items then Err(DuplicateItem(it.id))
      else Ok(Store(s.items[it.id := it]))
  }

  /** `GetItemById`: the stored item, or `ItemNotFound`. */
  function GetItemById(s: Store, id: int): (r: Result<Item, InventoryError>)
    ensures r.Ok? <==> ContainsItem(s, id)
    ensures r.Err? ==> r.error == ItemNotFound(id)
    ensures r.Ok? ==> r.value == s.items[id]
    ensures r.Ok? && WellKeyed(s) ==> r.value.id == id
  {
    if id in s.items then Ok(s.items[id]) else Err(ItemNotFound(id))
  }

  /** `RemoveItem`: deletes exactly the entry for `id`, or fails with `ItemNotFound`. */
  function RemoveItem(s: Store, id: int): (r: Result<Store, InventoryError>)
    ensures r.Ok? <==> ContainsItem(s, id)
    ensures r.Err? ==> r.error == ItemNotFound(id)
    ensures r.Ok? ==> r.value.items.Keys == s.items.Keys - {id}
    ensures r.Ok? ==> forall k :: k in r.value.items ==> r.value.items[k] == s.items[k]
    ensures r.Ok? ==> Count(r.value) == Count(s) - 1
  {
    if id !in s.items then Err(ItemNotFound(id))
    else
      var m := s.items - {id};
      assert m.Keys == s.items.Keys - {id};
      Ok(Store(m))
  }

  /** `UpdateQuantity`: a negative quantity is refused before the id is even looked up;
      otherwise only the quantity of the item filed under `id` changes. */
  function UpdateQuantity(s: Store, id: int, newQuantity: int): (r: Result<Store, InventoryError>)
    ensures r.Ok? <==> newQuantity >= 0 && ContainsItem(s, id)
    ensures newQuantity < 0 ==> r == Err(InvalidQuantity(newQuantity))
    ensures newQuantity >= 0 && !ContainsItem(s, id) ==> r == Err(ItemNotFound(id))
    ensures r.Ok? ==> r.value.items.Keys == s.items.Keys
    ensures r.Ok? ==> var old_ := s.items[id]; var new_ := r.value.items[id];
      new_.quantity == newQuantity && new_.id == old_.id && new_.name == old_.name && new_.details == old_.details
    ensures r.Ok? ==> forall k :: k in s.items && k != id ==> r.value.items[k] == s.items[k]
  {
    if newQuantity < 0 then Err(InvalidQuantity(newQuantity))
    else if id !in s.items then Err(ItemNotFound(id))
    else Ok(Store(s.items[id := WithQuantity(s.items[id], newQuantity)]))
  }

  /** An enumeration order of the dictionary: every stored id exactly once. */
  predicate IsKeyOrder(s: Store, order: seq<int>) {
    && (forall k :: k in s.items ==> k in order)
    && (forall i :: 0 <= i < |order| ==> order[i] in s.items)
    && (forall i, j :: 0 <= i < j < |order| ==> order[i] != order[j])
  }

  /** A repetition-free sequence has as many elements as the set of its elements. */
  lemma {:induction false} DistinctCardinality(order: seq<int>)
    requires forall i, j :: 0 <= i < j < |order| ==> order[i] != order[j]
    ensures |set k | k in order| == |order|
  {
    if |order| > 0 {
      var init := order[..|order| - 1];
      var last := order[|order| - 1];
      DistinctCardinality(init);
      assert (set k | k in order) == (set k | k in init) + {last};
      assert last !in init;
    }
  }

  /** `GetAllItems`: the stored items listed in the dictionary's enumeration order,
      which .NET does not specify and is therefore taken as the parameter `order`.
      Every stored item appears, nothing else does, and with well-keyed storage
      no item is listed twice. */
  method GetAllItems(s: Store, order: seq<int>) returns (all: seq<Item>)
    requires IsKeyOrder(s, order)
    ensures |all| == Count(s) == |order|
    ensures forall i :: 0 <= i < |all| ==> all[i] == s.items[order[i]]
    ensures forall k :: k in s.items ==> s.items[k] in all
    ensures forall i :: 0 <= i < |all| ==> all[i] in s.items.Values
    ensures WellKeyed(s) ==> forall i, j :: 0 <= i < j < |all| ==> all[i].id != all[j].id
  {
    KeyOrderLength(s, order);
    all := [];
    var i := 0;
    while i < |order|
      invariant 0 <= i <= |order|
      invariant |all| == i
      invariant forall j :: 0 <= j < i ==> all[j] == s.items[order[j]]
    {
      all := all + [s.items[order[i]]];
      i := i + 1;
    }
    forall k | k in s.items ensures s.items[k] in all {
      var j :| 0 <= j < |order| && order[j] == k;
      assert all[j] == s.items[k];
    }
  }

  /** An enumeration order is as long as the dictionary is large. */
  lemma KeyOrderLength(s: Store, order: seq<int>)
    requires IsKeyOrder(s, order)
    ensures |order| == Count(s)
  {
    DistinctCardinality(order);
    forall k | k in order ensures k in s.items {}
    forall k | k in s.items ensures k in order {}
    assert (set k | k in order) == s.items.Keys;
  }

  // ---------------------------------------------------------------------------
  // Properties relating the operations
  // ---------------------------------------------------------------------------

  /** What `AddItem` files under a fresh id is what `GetItemById` hands back. */
  lemma AddThenGet(s: Store, item: Item)
    requires !ContainsItem(s, item.id)
    ensures AddItem(s, Some(item)).Ok?
    ensures GetItemById(AddItem(s, Some(item)).value, item.id) == Ok(item)
  {
  }

  /** After a successful `RemoveItem` the id is gone. */
  lemma RemoveThenGet(s: Store, id: int)
    requires ContainsItem(s, id)
    ensures GetItemById(RemoveItem(s, id).value, id) == Err(ItemNotFound(id))
  {
  }

  /** Removing a freshly added item gives back the original store. */
  lemma AddThenRemove(s: Store, item: Item)
    requires !ContainsItem(s, item.id)
    ensures RemoveItem(AddItem(s, Some(item)).value, item.id) == Ok(s)
  {
    var m := AddItem(s, Some(item)).value.items;
    assert m - {item.id} == s.items;
  }

  /** A successful update is what a later lookup observes. */
  lemma UpdateThenGet(s: Store, id: int, q: int)
    requires q >= 0 && ContainsItem(s, id)
    ensures GetItemById(UpdateQuantity(s, id, q).value, id).value.quantity == q
  {
  }

  /** `UpdateQuantity` and `RemoveItem` keep every quantity non-negative; `AddItem`
      does so only for an item that is non-negative itself. */
  lemma OperationsPreserveNonNegative(s: Store, item: Item, id: int, q: int)
    requires NonNegative(s)
    ensures UpdateQuantity(s, id, q).Ok? ==> NonNegative(UpdateQuantity(s, id, q).value)
    ensures RemoveItem(s, id).Ok? ==> NonNegative(RemoveItem(s, id).value)
    ensures AddItem(s, Some(item)).Ok? ==> (NonNegative(AddItem(s, Some(item)).value) <==> item.quantity >= 0)
  {
  }

  /** `AddItem` never looks at the quantity: any item with a negative quantity and a
      fresh id is admitted, so "no negative quantity in the store" is not an invariant. */
  lemma NegativeQuantityAdmitted(s: Store, id: int, name: string, quantity: int, brand: string, warranty: int)
    requires !ContainsItem(s, id) && quantity < 0
    ensures var r := AddItem(s, Some(NewElectronicItem(id, name, quantity, brand, warranty)));
      r.Ok? && !NonNegative(r.value) && r.value.items[id].quantity == quantity
  {
  }

  /** `Count` is the number of ids `ContainsItem` answers true for. */
  lemma CountMatchesContains(s: Store)
    ensures Count(s) == |set id | id in s.items.Keys && ContainsItem(s, id)|
  {
    assert (set id | id in s.items.Keys && ContainsItem(s, id)) == s.items.Keys;
  }
}
