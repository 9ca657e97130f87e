/** The two closed enumerations of the domain and their display labels. */
module Enums {
  import opened Errors

  datatype Category = Appetizer | MainCourse | Dessert | Drink

  datatype OrderStatus = Pending | Completed | Cancelled

  /** The enum value of a category, as stored in records. */
  function CategoryLabel(c: Category): string
  {
    match c
    case Appetizer => "Appetizer"
    case MainCourse => "Main Course"
    case Dessert => "Dessert"
    case Drink => "Drink"
  }

  /** The enum value of an order status, as stored in records. */
  function StatusLabel(s: OrderStatus): string
  {
    match s
    case Pending => "Pending"
    case Completed => "Completed"
    case Cancelled => "Cancelled"
  }

  /** `Category(label)`: the category whose label is `s`, or None where the source raises. */
  function ParseCategory(s: string): (r: Option<Category>)
    ensures r.Some? ==> CategoryLabel(r.value) == s
    ensures r.None? <==> forall c :: CategoryLabel(c) != s
  {
    if s == "Appetizer" then Some(Appetizer)
    else if s == "Main Course" then Some(MainCourse)
    else if s == "Dessert" then Some(Dessert)
    else if s == "Drink" then Some(Drink)
    else None
  }

  /** `OrderStatus(label)`: the status whose label is `s`, or None where the source raises. */
  function ParseStatus(s: string): (r: Option<OrderStatus>)
    ensures r.Some? ==> StatusLabel(r.value) == s
    ensures r.None? <==> forall t :: StatusLabel(t) != s
  {
    if s == "Pending" then Some(Pending)
    else if s == "Completed" then Some(Completed)
    else if s == "Cancelled" then Some(Cancelled)
    else None
  }

  /** Labels identify their category: parsing a label gives the category back. */
  lemma CategoryLabelRoundTrip(c: Category)
    ensures ParseCategory(CategoryLabel(c)) == Some(c)
  {
    match c
    case Appetizer =>
    case MainCourse =>
    case Dessert =>
    case Drink =>
  }

  /** Labels identify their status: parsing a label gives the status back. */
  lemma StatusLabelRoundTrip(s: OrderStatus)
    ensures ParseStatus(StatusLabel(s)) == Some(s)
  {
    match s
    case Pending =>
    case Completed =>
    case Cancelled =>
  }
}
