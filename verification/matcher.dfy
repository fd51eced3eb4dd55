/**
  The relation matcher: given an item, the whole library and the
  (citations, references) pair of the item's lookup, link every library
  item the lookup names into the item's `dc:relation` list.
 */
module Matcher {
  import opened Wrappers
  import opened Papers
  import opened Library
  import opened Relations

  /** The (citations, references) pair a lookup yields. */
  type Lookup = (seq<Paper>, seq<Paper>)

  /** Citations followed by references. */
  function Combined(lookup: Lookup): seq<Paper> {
    lookup.0 + lookup.1
  }

  /** The non-empty DOIs of `papers`, in order. */
  function LookupDois(papers: seq<Paper>): (ds: seq<string>)
    ensures forall d :: d in ds <==> exists p :: p in papers && p.doi != "" && p.doi == d
    ensures "" !in ds
  {
    if |papers| == 0 then []
    else (if papers[0].doi != "" then [papers[0].doi] else []) + LookupDois(papers[1..])
  }

  /** The titles of `papers`, in order, empty ones included. */
  function LookupTitles(papers: seq<Paper>): (ts: seq<string>)
    ensures forall t :: t in ts <==> exists p :: p in papers && p.title == t
  {
    if |papers| == 0 then []
    else [papers[0].title] + LookupTitles(papers[1..])
  }

  /**
    A library item is related when its DOI is among `dois` or its title is
    among `titles`; either test alone is enough.
   */
  predicate IsRelated(item: Item, dois: seq<string>, titles: seq<string>) {
    || (item.data.doi.Some? && item.data.doi.value in dois)
    || (item.data.title.Some? && item.data.title.value in titles)
  }

  /** `item` is related to the papers of `lookup`. */
  predicate Related(item: Item, lookup: Lookup) {
    IsRelated(item, LookupDois(Combined(lookup)), LookupTitles(Combined(lookup)))
  }

  /** The related items of the library, in library order. */
  function SelectRelated(items: seq<Item>, dois: seq<string>, titles: seq<string>): (r: seq<Item>)
    ensures forall x :: x in r <==> x in items && IsRelated(x, dois, titles)
    ensures |r| <= |items|
  {
    if |items| == 0 then []
    else (if IsRelated(items[0], dois, titles) then [items[0]] else []) + SelectRelated(items[1..], dois, titles)
  }

  /**
    The match criteria in terms of the lookup's papers: an item matches
    exactly when some paper with a non-empty DOI carries the item's DOI, or
    some paper carries the item's title.
   */
  lemma RelatedIff(item: Item, lookup: Lookup)
    ensures Related(item, lookup) <==>
      || (exists p :: p in Combined(lookup) && p.doi != "" && item.data.doi == Some(p.doi))
      || (exists p :: p in Combined(lookup) && item.data.title == Some(p.title))
  {
  }

  /** A paper with no DOI never causes a DOI match; only the title can match. */
  lemma EmptyDoiMatchesOnlyByTitle(item: Item, lookup: Lookup)
    requires item.data.doi == Some("") || item.data.doi.None?
    ensures Related(item, lookup) <==> item.data.title.Some? && item.data.title.value in LookupTitles(Combined(lookup))
  {
  }

  /**
    Updates one item. An item without a DOI (missing or "") is returned as
    it is. Otherwise the stored `dc:relation` value is normalised to a list,
    the link of every related library item is added to it, and the list is
    written back.
   */
  function UpdateItem(it: Item, items: seq<Item>, lookup: Lookup): (r: Item)
    ensures !HasDoi(it) ==> r == it
    ensures HasDoi(it) ==> SameExceptDcRelation(r, it) && r.data.relations.dcRelation.Lst?
    ensures HasDoi(it) ==>
      var before, after := RelationsOf(it), RelationsOf(r);
      && |before| <= |after|
      && after[..|before|] == before
      && (forall i :: |before| <= i < |after| ==> after[i] !in before)
      && (forall i :: |before| <= i < |after| ==> exists x :: x in items && Related(x, lookup) && after[i] == Link(x))
      && NoDups(after[|before|..])
      && (forall x :: x in items && Related(x, lookup) ==> Link(x) in after)
  {
    if !HasDoi(it) then it
    else
      var papers := Combined(lookup);
      var selected := SelectRelated(items, LookupDois(papers), LookupTitles(papers));
      var relations := AddAll(RelationsOf(it), selected);
      LinksMembers(selected);
      WithDcRelation(it, Lst(relations))
  }

  /**
    A failed lookup yields the empty pair, and then nothing is related: the
    item comes back with its `dc:relation` value normalised to a list and
    no link added. For an item whose value was missing or a single link this
    is a change of representation, not of content.
   */
  lemma UpdateItemFailedLookup(it: Item, items: seq<Item>, reason: string)
    requires HasDoi(it)
    ensures UpdateItem(it, items, CitesAndRefs(NotOk(reason))) == WithDcRelation(it, Lst(RelationsOf(it)))
  {
    assert Combined(CitesAndRefs(NotOk(reason))) == [];
    NothingSelected(items);
  }

  /** With no DOIs and no titles to match, nothing is selected. */
  lemma {:induction false} NothingSelected(items: seq<Item>)
    ensures SelectRelated(items, [], []) == []
  {
    if |items| > 0 {
      NothingSelected(items[1..]);
    }
  }

  /**
    Running the matcher a second time on its own output, with the same
    library and lookup, changes nothing: every link is already present.
   */
  lemma UpdateItemIdempotent(it: Item, items: seq<Item>, lookup: Lookup)
    ensures UpdateItem(UpdateItem(it, items, lookup), items, lookup) == UpdateItem(it, items, lookup)
  {
    var once := UpdateItem(it, items, lookup);
    if HasDoi(it) {
      var papers := Combined(lookup);
      var selected := SelectRelated(items, LookupDois(papers), LookupTitles(papers));
      var relations := AddAll(RelationsOf(it), selected);
      assert once == WithDcRelation(it, Lst(relations));
      assert HasDoi(once) && RelationsOf(once) == relations;
      AddAllIdempotent(RelationsOf(it), selected);
    }
  }

  /**
    The list the matcher extends is the normalised stored value: a single
    link becomes the first entry, a missing value contributes nothing, and a
    stored list is kept in front as it was.
   */
  lemma UpdateItemNormalizes(it: Item, items: seq<Item>, lookup: Lookup)
    requires HasDoi(it)
    ensures var after := UpdateItem(it, items, lookup).data.relations.dcRelation;
      && after.Lst?
      && (it.data.relations.dcRelation.Str? ==> |after.l| >= 1 && after.l[0] == it.data.relations.dcRelation.s)
      && (it.data.relations.dcRelation.Lst? ==> after.l[..|it.data.relations.dcRelation.l|] == it.data.relations.dcRelation.l)
      && (it.data.relations.dcRelation.Absent? ==> forall h :: h in after.l ==> exists x :: x in items && Related(x, lookup) && h == Link(x))
  {
    var r := UpdateItem(it, items, lookup);
    var before, after := RelationsOf(it), RelationsOf(r);
    assert after == r.data.relations.dcRelation.l;
    if it.data.relations.dcRelation.Absent? {
      assert |before| == 0 && after[|before|..] == after;
    }
  }

  /** A duplicate-free relation list stays duplicate-free. */
  lemma UpdateItemKeepsNoDups(it: Item, items: seq<Item>, lookup: Lookup)
    requires NoDups(RelationsOf(it))
    ensures NoDups(RelationsOf(UpdateItem(it, items, lookup)))
  {
  }

  /**
    An item citing a paper whose DOI belongs to a library item gets that
    item's link, whatever the titles are.
   */
  lemma CitedItemIsLinked(it: Item, items: seq<Item>, lookup: Lookup, cited: Paper, b: Item)
    requires HasDoi(it)
    requires cited in lookup.0 && cited.doi != ""
    requires b in items && b.data.doi == Some(cited.doi)
    ensures Link(b) in RelationsOf(UpdateItem(it, items, lookup))
  {
    assert cited in Combined(lookup);
    assert Related(b, lookup);
  }

  /**
    A library item matching only by title, with a DOI no paper carries, is
    still linked.
   */
  lemma TitleOnlyMatchIsLinked(it: Item, items: seq<Item>, lookup: Lookup, p: Paper, b: Item)
    requires HasDoi(it)
    requires p in Combined(lookup)
    requires b in items && b.data.title == Some(p.title)
    requires b.data.doi.None? || b.data.doi.value !in LookupDois(Combined(lookup))
    ensures Link(b) in RelationsOf(UpdateItem(it, items, lookup))
  {
    assert Related(b, lookup);
  }

  /**
    Selection keeps library order: selecting from a concatenation selects
    from each part in turn, and a single item is kept exactly when it is
    related.
   */
  lemma {:induction false} SelectRelatedAppend(a: seq<Item>, b: seq<Item>, dois: seq<string>, titles: seq<string>)
    ensures SelectRelated(a + b, dois, titles) == SelectRelated(a, dois, titles) + SelectRelated(b, dois, titles)
    ensures |a| == 1 ==> SelectRelated(a, dois, titles) == (if IsRelated(a[0], dois, titles) then a else [])
    decreases |a|
  {
    if |a| > 0 {
      assert (a + b)[0] == a[0] && (a + b)[1..] == a[1..] + b;
      SelectRelatedAppend(a[1..], b, dois, titles);
    } else {
      assert a + b == b;
    }
  }

  /**
    For an item with a DOI, the new list is the old normalised list followed
    by the links of the related library items that are not already present,
    in library order, each at its first occurrence.
   */
  lemma UpdateItemInLibraryOrder(it: Item, items: seq<Item>, lookup: Lookup)
    requires HasDoi(it)
    ensures RelationsOf(UpdateItem(it, items, lookup))
         == RelationsOf(it) + Fresh(Links(SelectRelated(items, LookupDois(Combined(lookup)), LookupTitles(Combined(lookup)))), RelationsOf(it))
  {
    var papers := Combined(lookup);
    AddAllIsFresh(RelationsOf(it), SelectRelated(items, LookupDois(papers), LookupTitles(papers)));
  }
}
