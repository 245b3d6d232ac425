/** `IInventoryItem` and its two implementations, `ElectronicItem` and
    `GroceryItem`: an immutable id and name, one mutable quantity, and the
    variant's own immutable attributes. */
module InventoryItems {
  import opened Wrappers

  /** The variant-specific attributes, fixed at construction. */
  datatype Details =
    | Electronic(brand: string, warrantyMonths: int)
    | Grocery(expiryDate: Date)

  /** An inventory item; `quantity` is the only field the store ever changes. */
  datatype Item = Item(id: int, name: string, quantity: int, details: Details)

  /** `new ElectronicItem(...)`: every argument is stored as given; the quantity is not checked. */
  function NewElectronicItem(id: int, name: string, quantity: int, brand: string, warrantyMonths: int): (it: Item)
    ensures it.id == id && it.name == name && it.quantity == quantity
    ensures it.details.Electronic? && it.details.brand == brand && it.details.warrantyMonths == warrantyMonths
  {
    Item(id, name, quantity, Electronic(brand, warrantyMonths))
  }

  /** `new GroceryItem(...)`: every argument is stored as given; the quantity is not checked. */
  function NewGroceryItem(id: int, name: string, quantity: int, expiryDate: Date): (it: Item)
    ensures it.id == id && it.name == name && it.quantity == quantity
    ensures it.details.Grocery? && it.details.expiryDate == expiryDate
  {
    Item(id, name, quantity, Grocery(expiryDate))
  }

  /** The item after its `Quantity` setter ran: identity, name and attributes are untouched. */
  function WithQuantity(it: Item, quantity: int): (r: Item)
    ensures r.id == it.id && r.name == it.name && r.details == it.details
    ensures r.quantity == quantity
  {
    it.(quantity := quantity)
  }
}
