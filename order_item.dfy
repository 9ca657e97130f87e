/** A line of an order: a reference to a menu item (not a copy of it) and a
    quantity of at least 1. */
module OrderItems {
  import opened Errors
  import opened MenuItems

  class OrderItem {
    const item: MenuItem
    var quantity: int

    /** The invariant every constructed line keeps under all its operations. */
    predicate Valid()
      reads this
    {
      quantity >= 1
    }

    /** The constructor on its success path; `Create` is the guarded form. */
    constructor (item: MenuItem, quantity: int)
      requires quantity >= 1
      ensures Valid()
      ensures this.item == item && this.quantity == quantity
    {
      this.item := item;
      this.quantity := quantity;
    }

    /** Construction refuses a quantity below 1. */
    static method Create(item: MenuItem, quantity: int) returns (r: Result<OrderItem>)
      ensures quantity < 1 <==> r.Err?
      ensures r.Err? ==> r.error == MenuValidationError
      ensures r.Ok? ==> fresh(r.value) && r.value.Valid()
      ensures r.Ok? ==> r.value.item == item && r.value.quantity == quantity
    {
      if quantity < 1 {
        return Err(MenuValidationError);
      }
      var line := new OrderItem(item, quantity);
      r := Ok(line);
    }

    /** A quantity below 1 is refused and nothing changes; otherwise the
        quantity becomes exactly `newQuantity`. */
    method UpdateQuantity(newQuantity: int) returns (r: Outcome)
      modifies this`quantity
      ensures old(Valid()) ==> Valid()
      ensures newQuantity < 1 ==> r == Fail(MenuValidationError) && quantity == old(quantity)
      ensures newQuantity >= 1 ==> r == Pass && quantity == newQuantity
    {
      if newQuantity < 1 {
        return Fail(MenuValidationError);
      }
      quantity := newQuantity;
      r := Pass;
    }

    /** Price times quantity, read through the item reference at the time of
        the call, so a later price update of the item shows here. */
    function Subtotal(): (r: int)
      reads this, item
      ensures item.price >= 0 && quantity >= 0 ==> r >= 0
      ensures quantity >= 1 && item.price >= 0 ==> item.price <= r
      ensures r == 0 <==> item.price == 0 || quantity == 0
    {
      item.price * quantity
    }
  }
}
