/** A catalog entry. Its name and category are never reassigned by any
    operation, so they are constant fields and the catalog key of an item,
    computed once from them, is constant too; price, description and
    availability are updated in place. */
module MenuItems {
  import opened Errors
  import opened Enums
  import opened Keys

  class MenuItem {
    const name: string
    var price: int          // in cents
    const category: Category
    var description: string
    var available: bool
    /** The catalog key `(name.strip().lower(), category)` of this item. */
    const key: Keys.Key

    /** Stores every field as given; nothing is validated. */
    constructor (name: string, price: int, category: Category, description: string, available: bool)
      ensures this.name == name && this.price == price && this.category == category
      ensures this.description == description && this.available == available
      ensures Valid()
    {
      this.name := name;
      this.price := price;
      this.category := category;
      this.description := description;
      this.available := available;
      key := MakeKey(name, category);
    }

    /** The constructor with its defaults: an empty description, available. */
    constructor WithDefaults(name: string, price: int, category: Category)
      ensures this.name == name && this.price == price && this.category == category
      ensures description == "" && available
      ensures Valid()
    {
      this.name := name;
      this.price := price;
      this.category := category;
      description := "";
      available := true;
      key := MakeKey(name, category);
    }

    /** The invariant of every constructed item: the stored key is the key of
        its name and category. */
    predicate Valid()
    {
      key == MakeKey(name, category)
    }

    /** A price that is not strictly positive is refused and nothing changes;
        otherwise the price becomes `newPrice`. No other field can change. */
    method UpdatePrice(newPrice: int) returns (r: Outcome)
      modifies this`price
      ensures newPrice <= 0 ==> r == Fail(MenuValidationError) && price == old(price)
      ensures newPrice > 0 ==> r == Pass && price == newPrice
    {
      if newPrice <= 0 {
        return Fail(MenuValidationError);
      }
      price := newPrice;
      r := Pass;
    }

    /** Sets the availability flag and nothing else. */
    method SetAvailability(status: bool)
      modifies this`available
      ensures available == status
    {
      available := status;
    }

    /** None clears the description; a string is stored stripped. */
    method UpdateDescription(newDescription: Option<string>)
      modifies this`description
      ensures newDescription.None? ==> description == ""
      ensures newDescription.Some? ==> description == Strip(newDescription.value)
      ensures Strip(description) == description
    {
      match newDescription
      case None =>
        description := "";
      case Some(d) =>
        StripIdempotent(d);
        description := Strip(d);
    }
  }
}
