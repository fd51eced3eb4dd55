/**
  Library items as the reference manager returns them, with the fields the
  relation maker reads or writes made explicit.
 */
module Library {
  import opened Wrappers

  /** The relation-type label under which cross-reference links are stored. */
  const DcRelation: string := "dc:relation"

  /**
    The value stored under `dc:relation`: the key may be missing, or hold a
    single link, or a list of links.
   */
  datatype RelVal = Absent | Str(s: string) | Lst(l: seq<string>)

  /** The other relation predicates of an item, which never include `dc:relation`. */
  type OtherRelations = m: map<string, RelVal> | DcRelation !in m witness map[]

  /** An item's `relations` object, split into `dc:relation` and the rest. */
  datatype RelationsField = RelationsField(dcRelation: RelVal, others: OtherRelations)

  /**
    An item's `data` object: `DOI` and `title` may be missing; `fields` holds
    every other data field as opaque text.
   */
  datatype ItemData = ItemData(doi: Option<string>, title: Option<string>, relations: RelationsField, fields: map<string, string>)

  /** A library item: its key, its `links.self.href`, and its data. */
  datatype Item = Item(key: string, selfHref: string, data: ItemData)

  /** The item has a DOI key whose value is not the empty string. */
  predicate HasDoi(it: Item) {
    it.data.doi.Some? && it.data.doi.value != ""
  }

  /**
    The stored `dc:relation` value as a list: a missing key gives the empty
    list, a single link a one-element list, and a list is kept as is.
   */
  function Normalize(v: RelVal): (l: seq<string>)
    ensures v.Lst? ==> Lst(l) == v
    ensures !v.Lst? ==> |l| <= 1
    ensures forall x :: x in l ==> (v.Str? && x == v.s) || (v.Lst? && x in v.l)
  {
    match v
    case Absent => []
    case Str(s) => [s]
    case Lst(l) => l
  }

  /** The item's relation links, normalised. */
  function RelationsOf(it: Item): seq<string> {
    Normalize(it.data.relations.dcRelation)
  }

  /** The item with its `dc:relation` value replaced by `v`. */
  function WithDcRelation(it: Item, v: RelVal): Item {
    it.(data := it.data.(relations := it.data.relations.(dcRelation := v)))
  }

  /** Two items agree on every field except, possibly, `dc:relation`. */
  predicate SameExceptDcRelation(a: Item, b: Item) {
    WithDcRelation(a, Absent) == WithDcRelation(b, Absent)
  }

  /**
    Writing back a normalised list is stable: normalising the written value
    gives the same list, so a second pass sees exactly the links the first
    wrote.
   */
  lemma NormalizeWrittenBack(v: RelVal)
    ensures Normalize(Lst(Normalize(v))) == Normalize(v)
    ensures v.Lst? ==> Lst(Normalize(v)) == v
  {
  }

  /** Replacing `dc:relation` leaves every other field as it was. */
  lemma WithDcRelationKeepsRest(it: Item, v: RelVal)
    ensures SameExceptDcRelation(WithDcRelation(it, v), it)
    ensures WithDcRelation(it, v).key == it.key && WithDcRelation(it, v).selfHref == it.selfHref
    ensures WithDcRelation(it, v).data.doi == it.data.doi && WithDcRelation(it, v).data.title == it.data.title
    ensures WithDcRelation(it, v).data.relations.others == it.data.relations.others
    ensures WithDcRelation(it, v).data.fields == it.data.fields
  {
  }
}
