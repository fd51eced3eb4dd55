/**
  Turning a related item into a relation link, and appending links to an
  item's relation list without duplicates.
 */
module Relations {
  import opened TextReplace
  import opened Library

  /** The API host prefix of a self-link, rewritten into the web form. */
  const ApiPrefix: string := "https://api."
  const WebPrefix: string := "http://"

  /** Every element of `s` is distinct. */
  predicate NoDups(s: seq<string>) {
    forall i, j :: 0 <= i < j < |s| ==> s[i] != s[j]
  }

  /**
    No occurrence of the API prefix survives the rewrite: a replacement
    writes "http://", which cannot start or complete "https://api.", and
    outside replacements the output copies the input, where every occurrence
    was replaced.
   */
  lemma {:induction false} RewriteLeavesNoApiPrefix(s: string)
    ensures !Occurs(ReplaceAll(s, ApiPrefix, WebPrefix), ApiPrefix)
    decreases |s|
  {
    var t := ReplaceAll(s, ApiPrefix, WebPrefix);
    assert |ApiPrefix| == 12 && |WebPrefix| == 7;
    if |s| == 0 {
    } else if ApiPrefix <= s {
      var u := ReplaceAll(s[|ApiPrefix|..], ApiPrefix, WebPrefix);
      RewriteLeavesNoApiPrefix(s[|ApiPrefix|..]);
      assert t == WebPrefix + u;
      forall i ensures !OccursAt(t, ApiPrefix, i) {
        if 0 <= i && i + |ApiPrefix| <= |t| {
          if i >= |WebPrefix| {
            SliceOfConcat(WebPrefix, u, i, |ApiPrefix|);
            assert !OccursAt(u, ApiPrefix, i - |WebPrefix|);
          } else if i == 0 {
            assert t[4] == ':';
          } else {
            assert t[i] == WebPrefix[i] != 'h';
          }
        }
      }
    } else {
      var u := ReplaceAll(s[1..], ApiPrefix, WebPrefix);
      RewriteLeavesNoApiPrefix(s[1..]);
      ReplaceAllKeepsPrefix(s[1..], ApiPrefix, WebPrefix, |ApiPrefix| - 1);
      assert t == [s[0]] + u;
      forall i ensures !OccursAt(t, ApiPrefix, i) {
        if 0 <= i && i + |ApiPrefix| <= |t| {
          if i >= 1 {
            SliceOfConcat([s[0]], u, i, |ApiPrefix|);
            assert !OccursAt(u, ApiPrefix, i - 1);
          } else {
            assert t[..|ApiPrefix|] == [s[0]] + u[..|ApiPrefix| - 1];
            assert ApiPrefix == [ApiPrefix[0]] + ApiPrefix[1..];
            assert WebPrefix[0] !in ApiPrefix[1..];
            if |ApiPrefix| <= |s| {
              assert s[..|ApiPrefix|] == [s[0]] + s[1..][..|ApiPrefix| - 1];
            }
          }
        }
      }
    }
  }

  /**
    The canonical form of a self-link: every "https://api." becomes
    "http://". The result holds no API prefix, and a link that has none is
    already canonical.
   */
  function Rewrite(href: string): (r: string)
    ensures !Occurs(r, ApiPrefix)
    ensures !Occurs(href, ApiPrefix) ==> r == href
  {
    RewriteLeavesNoApiPrefix(href);
    ReplaceAllWithoutMatch(href, ApiPrefix, WebPrefix);
    ReplaceAll(href, ApiPrefix, WebPrefix)
  }

  /**
    A self-link served from the API host, with no further API prefix in its
    path, becomes the same link on the web host:
    "https://api.zotero.org/users/1/items/K" becomes "http://zotero.org/users/1/items/K".
   */
  lemma RewriteApiLink(t: string)
    requires !Occurs(t, ApiPrefix)
    ensures Rewrite(ApiPrefix + t) == WebPrefix + t
  {
    assert (ApiPrefix + t)[|ApiPrefix|..] == t;
    ReplaceAllWithoutMatch(t, ApiPrefix, WebPrefix);
  }

  /** Rewriting a canonical link changes nothing. */
  lemma RewriteIdempotent(href: string)
    ensures Rewrite(Rewrite(href)) == Rewrite(href)
  {
  }

  /** The relation link an item contributes: its rewritten self-link. */
  function Link(item: Item): (link: string)
    ensures !Occurs(link, ApiPrefix)
    ensures !Occurs(item.selfHref, ApiPrefix) ==> link == item.selfHref
  {
    Rewrite(item.selfHref)
  }

  /** The links of a sequence of items, in order. */
  function Links(items: seq<Item>): seq<string> {
    seq(|items|, i requires 0 <= i < |items| => Link(items[i]))
  }

  /** The links are exactly the links of the items. */
  lemma LinksMembers(items: seq<Item>)
    ensures forall x :: x in items ==> Link(x) in Links(items)
    ensures forall h :: h in Links(items) ==> exists x :: x in items && h == Link(x)
  {
    forall x | x in items ensures Link(x) in Links(items) {
      var k :| 0 <= k < |items| && items[k] == x;
      assert Links(items)[k] == Link(x);
    }
  }

  /** The links of a concatenation are the concatenated links. */
  lemma LinksAppend(a: seq<Item>, b: seq<Item>)
    ensures Links(a + b) == Links(a) + Links(b)
  {
  }

  /**
    Adds the link of `relItem` to `relations` unless it is already there:
    a present link leaves the list unchanged, an absent one is appended at
    the end, after every existing entry.
   */
  function AddToRelations(relations: seq<string>, relItem: Item): (r: seq<string>)
    ensures Link(relItem) in relations ==> r == relations
    ensures Link(relItem) !in relations ==> r == relations + [Link(relItem)]
    ensures forall x :: x in r <==> x in relations || x == Link(relItem)
  {
    var href := Link(relItem);
    if href in relations then relations else relations + [href]
  }

  /** Adding the same item twice adds it once. */
  lemma AddToRelationsIdempotent(relations: seq<string>, relItem: Item)
    ensures AddToRelations(AddToRelations(relations, relItem), relItem) == AddToRelations(relations, relItem)
  {
  }

  /** A list without duplicates stays without duplicates. */
  lemma AddToRelationsKeepsNoDups(relations: seq<string>, relItem: Item)
    requires NoDups(relations)
    ensures NoDups(AddToRelations(relations, relItem))
  {
  }

  /**
    Adds the link of every item of `relItems`, in order. The old list stays
    a prefix; every appended link comes from `relItems`, was not in the old
    list and is appended once; and every link of `relItems` ends up in the
    result.
   */
  function AddAll(relations: seq<string>, relItems: seq<Item>): (r: seq<string>)
    ensures |relations| <= |r| <= |relations| + |relItems|
    ensures r[..|relations|] == relations
    ensures forall x :: x in r <==> x in relations || x in Links(relItems)
    ensures forall i :: |relations| <= i < |r| ==> r[i] !in relations
    ensures NoDups(r[|relations|..])
    decreases |relItems|
  {
    if |relItems| == 0 then relations
    else
      var n := |relItems| - 1;
      var prev := AddAll(relations, relItems[..n]);
      assert relItems == relItems[..n] + [relItems[n]];
      LinksAppend(relItems[..n], [relItems[n]]);
      assert Links([relItems[n]]) == [Link(relItems[n])];
      AddToRelations(prev, relItems[n])
  }

  /** When every link is already present, adding them all changes nothing. */
  lemma {:induction false} AddAllAbsorbs(relations: seq<string>, relItems: seq<Item>)
    requires forall x :: x in Links(relItems) ==> x in relations
    ensures AddAll(relations, relItems) == relations
    decreases |relItems|
  {
    if |relItems| > 0 {
      var n := |relItems| - 1;
      assert Links(relItems[..n]) == Links(relItems)[..n];
      AddAllAbsorbs(relations, relItems[..n]);
      assert Link(relItems[n]) == Links(relItems)[n];
    }
  }

  /** Adding the same items twice gives what adding them once gives. */
  lemma AddAllIdempotent(relations: seq<string>, relItems: seq<Item>)
    ensures AddAll(AddAll(relations, relItems), relItems) == AddAll(relations, relItems)
  {
    AddAllAbsorbs(AddAll(relations, relItems), relItems);
  }

  /** Duplicate-free lists stay duplicate-free however many items are added. */
  lemma AddAllKeepsNoDups(relations: seq<string>, relItems: seq<Item>)
    requires NoDups(relations)
    ensures NoDups(AddAll(relations, relItems))
  {
  }

  /**
    The entries of `links` that are not in `seen`, each taken at its first
    occurrence, in the order they occur.
   */
  function Fresh(links: seq<string>, seen: seq<string>): seq<string>
    decreases |links|
  {
    if |links| == 0 then []
    else if links[0] in seen then Fresh(links[1..], seen)
    else [links[0]] + Fresh(links[1..], seen + [links[0]])
  }

  /** One more link extends the fresh entries by that link exactly when it is new. */
  lemma {:induction false} FreshSnoc(links: seq<string>, h: string, seen: seq<string>)
    ensures Fresh(links + [h], seen) == Fresh(links, seen) + (if h in seen + Fresh(links, seen) then [] else [h])
    decreases |links|
  {
    if |links| > 0 {
      var x := links[0];
      assert (links + [h])[0] == x && (links + [h])[1..] == links[1..] + [h];
      if x in seen {
        FreshSnoc(links[1..], h, seen);
      } else {
        FreshSnoc(links[1..], h, seen + [x]);
        assert seen + Fresh(links, seen) == seen + [x] + Fresh(links[1..], seen + [x]);
      }
    }
  }

  /**
    The fold appends exactly the fresh links of the items, in item order,
    each at its first occurrence, after the unchanged old list.
   */
  lemma {:induction false} AddAllIsFresh(relations: seq<string>, relItems: seq<Item>)
    ensures AddAll(relations, relItems) == relations + Fresh(Links(relItems), relations)
    decreases |relItems|
  {
    if |relItems| > 0 {
      var n := |relItems| - 1;
      var pre, last := relItems[..n], relItems[n];
      var h := Link(last);
      var prev := AddAll(relations, pre);
      var added := Fresh(Links(pre), relations);
      AddAllIsFresh(relations, pre);
      assert prev == relations + added;
      assert AddAll(relations, relItems) == AddToRelations(prev, last);
      assert relItems == pre + [last];
      LinksAppend(pre, [last]);
      assert Links([last]) == [h];
      assert Links(relItems) == Links(pre) + [h];
      FreshSnoc(Links(pre), h, relations);
      if h in prev {
        assert AddToRelations(prev, last) == relations + added;
      } else {
        assert AddToRelations(prev, last) == relations + (added + [h]);
      }
    }
  }
}
