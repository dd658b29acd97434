/**
  The slice of the browser document the framework reads and writes: each
  element's `data-*` attributes and, per element, its descendants in
  document order. Attribute names are kept in their markup form without
  the `data-` prefix (`controller`, `controller-id`, `counter-target`),
  which is what `dataset` exposes after its camel-case renaming.
*/
module Dom {
  /** The identity of an element. */
  type ElementId = nat

  /** The nodes a listener can be attached to, an event aimed at, or a mutation record list; `OtherNode` is a text, comment or other non-element node. */
  datatype Node = WindowNode | DocumentNode | ElementNode(id: ElementId) | OtherNode

  /** An element's `data-*` attributes. */
  type Dataset = map<string, string>

  /** `ds[name]` is defined and equal to `value`. */
  predicate HasValue(ds: Dataset, name: string, value: string) {
    name in ds && ds[name] == value
  }

  /** `dataset[name]` is truthy: defined and not the empty string. */
  predicate Truthy(ds: Dataset, name: string) {
    name in ds && ds[name] != ""
  }

  /** The attributes of `el` in an attribute table; an element without any has none. */
  function DatasetIn(data: map<ElementId, Dataset>, el: ElementId): Dataset {
    if el in data then data[el] else map[]
  }

  /** The descendants of `el` in a descendant table; an element without an entry has none. */
  function DescendantsIn(descendants: map<ElementId, seq<ElementId>>, el: ElementId): seq<ElementId> {
    if el in descendants then descendants[el] else []
  }

  class Document {
    /** The `data-*` attributes of every element. */
    var data: map<ElementId, Dataset>
    /** What `el.querySelectorAll("*")` returns: the descendants of `el` in document order, `el` itself excluded. */
    var descendants: map<ElementId, seq<ElementId>>

    constructor (data: map<ElementId, Dataset>, descendants: map<ElementId, seq<ElementId>>)
      ensures this.data == data && this.descendants == descendants
    {
      this.data := data;
      this.descendants := descendants;
    }

    function DatasetOf(el: ElementId): Dataset
      reads this
    {
      DatasetIn(data, el)
    }

    function DescendantsOf(el: ElementId): seq<ElementId>
      reads this
    {
      DescendantsIn(descendants, el)
    }

    /** `el.dataset[name] = value`. */
    method SetData(el: ElementId, name: string, value: string)
      modifies this
      ensures data == old(data)[el := old(DatasetOf(el))[name := value]]
      ensures descendants == old(descendants)
      ensures DatasetOf(el) == old(DatasetOf(el))[name := value]
      ensures forall other :: other != el ==> DatasetOf(other) == old(DatasetOf(other))
    {
      data := data[el := DatasetOf(el)[name := value]];
    }
  }
}
