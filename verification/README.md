# Zotero relation maker — a Dafny model of the relation matcher

The relation maker enriches a Zotero library. For each library item with a
DOI, it asks the Semantic Scholar graph service for the papers that cite the
item and the papers the item cites. It then finds the library items that
correspond to those papers, by DOI or by title, and adds their links to the
item's `dc:relation` list without creating duplicates.

This project models the pure decision logic of `relation_maker.py` and
proves properties of it. The network lookup is an input of the model.

- `wrappers.dfy` (`Wrappers`): `Option`, standing in for a key that may be
  missing or null.
- `text_replace.dfy` (`TextReplace`): Python's `str.replace` with no count.
  It replaces every non-overlapping occurrence, scanning from the left. An
  empty pattern is handled as Python handles it.
- `papers.dfy` (`Papers`): the JSON paper record, `paper_from_json`, and
  the (citations, references) pair that a lookup response yields.
- `library.dfy` (`Library`): library items. `dc:relation` is a three-way
  value: `Absent`, `Str(link)` or `Lst(links)`. The module also holds the
  normalisation of that value to a list.
- `relations.dfy` (`Relations`): the self-link rewrite
  `"https://api."` → `"http://"`, `add_to_relations`, and its fold over the
  selected items.
- `matcher.dfy` (`Matcher`): the DOI and title match sets, the selection of
  related library items, and `update_item` as a pure function of
  (item, library items, lookup pair).

A failed lookup still writes `dc:relation` back, in normalised form, rather
than leaving it untouched: a missing value becomes `[]` and a single link
becomes a one-element list. `Matcher.UpdateItemFailedLookup` states this.

## Model

| member | source | states |
|---|---|---|
| `Papers.PaperFromJson` | relation_maker.py:26-32 | The DOI is `externalIds["DOI"]` when `externalIds` is non-null and has a `DOI` key, and `""` otherwise. So the DOI is non-empty exactly when such a key holds a non-empty value. The title is copied verbatim. The authors are the `name` of each author, in input order, and there are as many of them as in the input. |
| `Papers.ExternalDoi` | relation_maker.py:28-31 | The definition of the DOI lookup in `externalIds`. A non-empty result is the value of a `DOI` key of a non-null `externalIds`; the full case split is stated by `Papers.PaperFromJson`. |
| `Papers.CitesAndRefs` | relation_maker.py:37-44 | A non-ok response gives the empty pair (a soft failure). An ok response gives one converted paper per entry of `citations` and of `references`, in order. |
| `TextReplace.ReplaceAll` | relation_maker.py:50 | The definition of `str.replace`. With an empty pattern the replacement is inserted before every character and at the end, so the result has `|s| + (|s| + 1) * |rep|` characters. A non-empty pattern replaced by something no longer never lengthens the string, and by something no shorter never shortens it. `TextReplace.ReplaceAllWithoutMatch` and `Relations.RewriteLeavesNoApiPrefix` state what it does to occurrences. |
| `TextReplace.ReplaceAllWithoutMatch` | relation_maker.py:50 | `str.replace` with a non-empty pattern leaves a string in which the pattern does not occur unchanged. |
| `Relations.RewriteLeavesNoApiPrefix` | relation_maker.py:50 | After the rewrite, no `"https://api."` remains anywhere in the link, whatever the input. |
| `Relations.Rewrite` | relation_maker.py:49-50 | The canonical link contains no API prefix. A self-link without the prefix is kept as it is. What the prefix becomes is stated by `Relations.RewriteApiLink`. |
| `Relations.RewriteApiLink` | relation_maker.py:49-50 | A link `"https://api." + t`, with no further API prefix in `t`, becomes `"http://" + t`. For example, `https://api.zotero.org/users/1/items/K` becomes `http://zotero.org/users/1/items/K`. |
| `Relations.RewriteIdempotent` | relation_maker.py:50 | Rewriting an already-rewritten link changes nothing. |
| `Relations.Link` | relation_maker.py:49-50 | An item's link is its rewritten self-link. It never contains the API prefix, and a self-link without the prefix is used as it is. |
| `Relations.AddToRelations` | relation_maker.py:46-53 | If the rewritten link is already in the list, the list is returned unchanged. Otherwise the result is the list with the link appended at the end, so existing entries keep their order. The members of the result are the old members plus the link. |
| `Relations.AddToRelationsIdempotent` | relation_maker.py:51-53 | Adding the same item twice gives the same list as adding it once. |
| `Relations.AddToRelationsKeepsNoDups` | relation_maker.py:51-52 | A list without duplicates stays without duplicates. |
| `Relations.AddAll` | relation_maker.py:74-75 | Folding over the selected items keeps the old list as a prefix and adds at most one link per item. Every appended link is not in the old list and is appended only once. The result holds exactly the old links plus the links of the items. The exact result, including order, is stated by `Relations.AddAllIsFresh`. |
| `Relations.AddAllIsFresh` | relation_maker.py:74-75 | The fold equals the old list followed by `Fresh`, an independent definition. `Fresh` gives the items' links that are not in the old list, in item order, each at its first occurrence. |
| `Relations.FreshSnoc` | relation_maker.py:51-52 | One more link extends the fresh entries by that link exactly when it is neither in the old list nor already among them. |
| `Relations.AddAllAbsorbs` | relation_maker.py:74-75 | When every item's link is already in the list, the fold returns the list unchanged. |
| `Relations.AddAllIdempotent` | relation_maker.py:74-75 | Folding the same items a second time adds nothing. |
| `Relations.AddAllKeepsNoDups` | relation_maker.py:74-75 | A duplicate-free list stays duplicate-free after the fold. |
| `Library.HasDoi` | relation_maker.py:56 | The definition of the skip test: the item has a `DOI` key whose value is not `""`. `Matcher.UpdateItem` states what happens on each side. |
| `Library.Normalize` | relation_maker.py:65-70 | A stored list is kept as it is. A missing value or a single link gives at most one entry, and every entry is the single link or an entry of the stored list. `Matcher.UpdateItemNormalizes` states each case on the updated item. |
| `Library.NormalizeWrittenBack` | relation_maker.py:65-70 | Normalising the list written back gives the same list. A stored list is written back unchanged. |
| `Library.WithDcRelationKeepsRest` | relation_maker.py:80 | Writing `dc:relation` leaves the item's key, self-link, DOI, title, other relation predicates and other data fields as they were. |
| `Matcher.LookupDois` | relation_maker.py:61 | The DOI set holds exactly the non-empty DOIs of the citations and references. It never contains `""`. |
| `Matcher.LookupTitles` | relation_maker.py:62 | The title set holds exactly the titles of the citations and references, empty titles included. |
| `Matcher.IsRelated` | relation_maker.py:63 | The definition of the inclusive-or match, on a present DOI or a present title. `Matcher.RelatedIff` restates it in terms of the looked-up papers. |
| `Matcher.SelectRelated` | relation_maker.py:63 | A library item is selected exactly when its DOI is in the DOI set or its title is in the title set. Library order is stated by `Matcher.SelectRelatedAppend`. |
| `Matcher.SelectRelatedAppend` | relation_maker.py:63 | Selection keeps library order. Selecting from a concatenation selects from each part in turn, and a single item is kept exactly when it is related. |
| `Matcher.RelatedIff` | relation_maker.py:61-63 | An item matches exactly when some looked-up paper with a non-empty DOI carries the item's DOI, or some looked-up paper carries the item's title. |
| `Matcher.EmptyDoiMatchesOnlyByTitle` | relation_maker.py:61-63 | An item whose DOI is missing or `""` never matches by DOI. Such an item matches exactly when its title matches. |
| `Matcher.UpdateItem` | relation_maker.py:55-81 | An item with no DOI or an empty DOI is returned unchanged, whatever the lookup. For any other item, only `dc:relation` changes, and it becomes a list. The normalised old list is a prefix of it. Every appended link is the link of a related library item, is not in the old list, and is appended only once. The link of every related library item is in the new list. Their order (library order, first appearance first) is stated by `Matcher.UpdateItemInLibraryOrder`. |
| `Matcher.UpdateItemInLibraryOrder` | relation_maker.py:63-80 | For an item with a DOI, the new list is the old normalised list followed by the links of the related library items that are not already present. They come in library order, each at its first occurrence. |
| `Matcher.UpdateItemFailedLookup` | relation_maker.py:55-81 | A non-ok lookup adds no link. The item comes back with its `dc:relation` normalised to a list. |
| `Matcher.UpdateItemNormalizes` | relation_maker.py:65-80 | For an item with a DOI, the written-back value is always a list. A single stored link becomes its first entry. A stored list is kept, unchanged, at the front. A missing value contributes nothing, so every entry is the link of a related library item. |
| `Matcher.UpdateItemIdempotent` | relation_maker.py:65-80 | Updating the updated item again, with the same library and lookup, gives the same item. |
| `Matcher.UpdateItemKeepsNoDups` | relation_maker.py:65-80 | If the item's relation list had no duplicates, the updated list has none. |
| `Matcher.CitedItemIsLinked` | relation_maker.py:59-80 | If a citation's non-empty DOI is the DOI of a library item, that item's link ends up in the relation list. |
| `Matcher.TitleOnlyMatchIsLinked` | relation_maker.py:62-80 | A library item whose title matches a looked-up paper is linked even when its DOI matches none. |

## Left out

- The HTTP request of `get_cites_and_refs_from_doi` (relation_maker.py:34-44): the URL, the query fields and JSON decoding are I/O. The response is an input, either `NotOk` or the decoded citation and reference arrays.
- `update_items` (relation_maker.py:83-95): the Zotero client calls, the progress bar, the one-second pause between items and the bulk update are I/O and timing.
- `load_connection_data` and `main` (relation_maker.py:97-116): file-system checks, reading and writing the JSON config, and the global configuration.
- All progress and error messages (`tqdm.write`, `print`).
- Python's in-place mutation, and the aliasing of the item inside the library list. The model is functional. Matching reads only DOI, title and self-link, and the update never changes those.
- Missing JSON keys that the code indexes directly raise `KeyError` in Python. These are `authors`, `externalIds`, `title`, an author's `name`, `data.relations` and `links.self.href`. The model's datatypes require these fields to be present. In particular, `None` for `externalIds` models a JSON null, not a missing key.
- The model only has the three `dc:relation` shapes `Absent`, `Str` and `Lst`. Python accepts other values, such as null or an object. It writes such a value back unchanged when no item is selected. Otherwise the membership test or the append at relation_maker.py:51-52 can raise.
- The library item keeps only its key, its self-link and its `data` object. Other top-level fields (`version`, `library`, `links.alternate`, `meta`) are not modelled, so `Library.WithDcRelationKeepsRest` frames only the modelled fields. The other data fields are opaque text, although in Zotero some of them (`creators`, `tags`, `collections`) are lists.
