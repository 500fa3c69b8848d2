/**
 * How documents arrive at the browser: a reference field (a brand's
 * subcategory, a product's brand or subcategory, a subcategory's category) is
 * either absent, a bare id string, or a populated document that carries its
 * id in `_id`, depending on whether the route that served it populated it.
 */
module Refs {

  datatype Option<T> = None | Some(value: T)

  /** A reference field as the client sees it. MongoDB ids are never empty strings. */
  datatype Ref = Missing | Raw(id: string) | Populated(id: string)

  /** `r?._id`: the id of a populated reference; a bare string has no `_id`. */
  function PopulatedId(r: Ref): (o: Option<string>)
    ensures o.Some? <==> r.Populated?
    ensures o.Some? ==> o.value == r.id
  {
    match r
    case Populated(id) => Some(id)
    case _ => None
  }

  /** `r?._id || r`: the referenced id whichever way the field was served. */
  function IdOf(r: Ref): (o: Option<string>)
    ensures o.Some? <==> !r.Missing?
    ensures o.Some? ==> o.value == r.id
  {
    match r
    case Missing => None
    case Raw(id) => Some(id)
    case Populated(id) => Some(id)
  }
}
