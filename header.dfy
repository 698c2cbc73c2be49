/** What TeiEditionsTeiEnhancer::addEntity does to the header lists under
    `sourceDesc`: find the item for an entity by its escaped name, or append
    one, and write the entity's geo, reference or links, and notes onto it. */
module HeaderLists {
  import opened PhpBuiltins
  import opened TeiModel

  /** `(string)$child->$nameTag`: the text of the named field, "" when absent. */
  function FieldText(it: Item, nameTag: string): string
  {
    if nameTag in it.fields then it.fields[nameTag] else ""
  }

  /** The test of the search loop of addEntity. */
  predicate Matches(it: Item, itemTag: string, nameTag: string, nameText: string)
  {
    it.tag == itemTag && FieldText(it, nameTag) == nameText
  }

  /** The item the search loop settles on: it does not stop, so the last match wins. */
  function LastMatch(list: seq<Item>, itemTag: string, nameTag: string, nameText: string): (r: Option<nat>)
    ensures r.Some? ==> r.value < |list| && Matches(list[r.value], itemTag, nameTag, nameText)
                        && forall j :: r.value < j < |list| ==> !Matches(list[j], itemTag, nameTag, nameText)
    ensures r.None? ==> forall j :: 0 <= j < |list| ==> !Matches(list[j], itemTag, nameTag, nameText)
  {
    if list == [] then None
    else if Matches(list[|list| - 1], itemTag, nameTag, nameText) then Some(|list| - 1)
    else LastMatch(list[..|list| - 1], itemTag, nameTag, nameText)
  }

  /** `$list->addChild($itemTag)` followed by `$item->addChild($nameTag, $name_text)`. */
  function NewItem(itemTag: string, nameTag: string, nameText: string): (r: Item)
    ensures r.tag == itemTag && r.fields.Keys == {nameTag} && FieldText(r, nameTag) == nameText
    ensures r.geo.None? && r.xmlId.None? && r.links == [] && r.notes == []
  {
    Item(itemTag, map[nameTag := nameText], None, None, [], [])
  }

  /** A reference whose first character is '#' names a local anchor. An empty
      reference is not one: `""[0]` reads as "" in PHP. */
  predicate IsLocalRef(ref: string)
  {
    |ref| > 0 && ref[0] == '#'
  }

  /** One `link` per (type, url) pair, in order. */
  function LinksOf(urls: seq<(string, string)>): seq<Link>
  {
    seq(|urls|, i requires 0 <= i < |urls| => Link(urls[i].0, urls[i].1))
  }

  /** One `p` per note, in order. Assigning to `p[$i]` stores the text as
      given, so a paragraph holds the escaped note. */
  function ParagraphsOf(notes: seq<string>): seq<string>
  {
    seq(|notes|, i requires 0 <= i < |notes| => HtmlSpecialChars(notes[i]))
  }

  /** What addEntity writes onto the item it found or created. */
  function Describe(it: Item, e: Entity): (r: Item)
    ensures r.tag == it.tag && r.fields == it.fields
    ensures e.geo.Some? ==> r.geo == Some(e.geo.value.0 + " " + e.geo.value.1)
    ensures e.geo.None? ==> r.geo == it.geo
    ensures IsLocalRef(e.ref) ==> r.xmlId == Some(e.ref[1..]) && r.links == it.links
    ensures !IsLocalRef(e.ref) ==> r.xmlId == it.xmlId
    ensures !IsLocalRef(e.ref) && |e.urls| > 0 ==> r.links == LinksOf(e.urls)
    ensures !IsLocalRef(e.ref) && |e.urls| == 0 ==> r.links == it.links
    ensures |e.notes| > 0 ==> r.notes == ParagraphsOf(e.notes)
    ensures |e.notes| == 0 ==> r.notes == it.notes
  {
    var withGeo := if e.geo.Some? then it.(geo := Some(e.geo.value.0 + " " + e.geo.value.1)) else it;
    var withRef :=
      if IsLocalRef(e.ref) then withGeo.(xmlId := Some(e.ref[1..]))
      else if |e.urls| > 0 then withGeo.(links := LinksOf(e.urls))
      else withGeo;
    if |e.notes| > 0 then withRef.(notes := ParagraphsOf(e.notes)) else withRef
  }

  /** The list after addEntity. The search compares each item's name with
      the escaped name, while addChild decodes the escaped name it is given,
      so a new item stores the entity's own name (DecodeEscaped). */
  function Upsert(list: seq<Item>, itemTag: string, nameTag: string, e: Entity): (r: seq<Item>)
    ensures |r| == |list| || |r| == |list| + 1
    ensures forall j :: 0 <= j < |list| ==> r[j].tag == list[j].tag && r[j].fields == list[j].fields
    ensures |r| == |list| + 1 ==> r[|list|].tag == itemTag && FieldText(r[|list|], nameTag) == e.name
  {
    DecodeEscaped(e.name);
    var nameText := HtmlSpecialChars(e.name);
    match LastMatch(list, itemTag, nameTag, nameText)
    case Some(i) => list[i := Describe(list[i], e)]
    case None => list + [Describe(NewItem(itemTag, nameTag, DecodeEntities(nameText)), e)]
  }

  /** addEntity with its search corrected to compare against the name an item
      actually stores: the entity's own name. */
  function UpsertByName(list: seq<Item>, itemTag: string, nameTag: string, e: Entity): (r: seq<Item>)
    ensures |r| == |list| || |r| == |list| + 1
    ensures forall j :: 0 <= j < |list| ==> r[j].tag == list[j].tag && r[j].fields == list[j].fields
    ensures |r| == |list| + 1 ==> r[|list|].tag == itemTag && FieldText(r[|list|], nameTag) == e.name
  {
    match LastMatch(list, itemTag, nameTag, e.name)
    case Some(i) => list[i := Describe(list[i], e)]
    case None => list + [Describe(NewItem(itemTag, nameTag, e.name), e)]
  }

  /** `$source->$listTag`, or an empty list when the container is absent. */
  function ListOf(h: Header, listTag: string): seq<Item>
  {
    if listTag in h then h[listTag] else []
  }

  /** The header after addEntity. */
  function AddEntityTo(h: Header, listTag: string, itemTag: string, nameTag: string, e: Entity): Header
  {
    h[listTag := Upsert(ListOf(h, listTag), itemTag, nameTag, e)]
  }

  /** The header after the records of one category are added in order. */
  function AddEntities(h: Header, c: Category, es: seq<Entity>): Header
  {
    if es == [] then h
    else AddEntityTo(AddEntities(h, c, es[..|es| - 1]), ListTag(c), ItemTag(c), NameTag(c), es[|es| - 1])
  }

  /** Adding one more record is one more addEntity on the list so far. */
  lemma AddEntitiesSnoc(h: Header, c: Category, es: seq<Entity>, i: nat)
    requires i < |es|
    ensures AddEntities(h, c, es[..i + 1])
            == AddEntityTo(AddEntities(h, c, es[..i]), ListTag(c), ItemTag(c), NameTag(c), es[i])
  {
    assert es[..i + 1][..i] == es[..i];
  }

  /** Adding a single record is one addEntity. */
  lemma AddEntitiesOne(h: Header, c: Category, e: Entity)
    ensures AddEntities(h, c, [e]) == AddEntityTo(h, ListTag(c), ItemTag(c), NameTag(c), e)
  {
    assert [e][..0] == [];
  }

  /** No two items of the item tag share a name. */
  predicate UniqueNames(list: seq<Item>, itemTag: string, nameTag: string)
  {
    forall i, j :: 0 <= i < j < |list| && list[i].tag == itemTag && list[j].tag == itemTag ==>
      FieldText(list[i], nameTag) != FieldText(list[j], nameTag)
  }

  // ---------------------------------------------------------------------
  // The imperative parts of addEntity.

  /** The search loop over `$list->children()`. */
  method FindItem(list: seq<Item>, itemTag: string, nameTag: string, nameText: string) returns (found: Option<nat>)
    ensures found == LastMatch(list, itemTag, nameTag, nameText)
  {
    found := None;
    var i := 0;
    while i < |list|
      invariant 0 <= i <= |list|
      invariant found == LastMatch(list[..i], itemTag, nameTag, nameText)
    {
      var child := list[i];
      assert list[..i + 1][..i] == list[..i];
      if child.tag == itemTag && FieldText(child, nameTag) == nameText {
        found := Some(i);
      }
      i := i + 1;
    }
    assert list[..i] == list;
  }

  /** The part of addEntity after the item is found or created: the
      coordinates, then the local @xml:id or the links, then the notes. */
  method WriteEntity(item: Item, e: Entity) returns (described: Item)
    ensures described == Describe(item, e)
  {
    described := item;
    if e.geo.Some? {
      described := described.(geo := Some(e.geo.value.0 + " " + e.geo.value.1));
    }
    if IsLocalRef(e.ref) {
      described := described.(xmlId := Some(e.ref[1..]));
    } else if |e.urls| > 0 {
      var links := BuildLinks(e.urls);
      assert links == LinksOf(e.urls);
      described := described.(links := links);
    }
    if |e.notes| > 0 {
      var paragraphs := BuildNotes(e.notes);
      assert paragraphs == ParagraphsOf(e.notes);
      described := described.(notes := paragraphs);
    }
  }

  /** The loop that fills a fresh `linkGrp`: one link per (type, url), in order. */
  method BuildLinks(urls: seq<(string, string)>) returns (links: seq<Link>)
    ensures |links| == |urls|
    ensures forall i :: 0 <= i < |urls| ==> links[i] == Link(urls[i].0, urls[i].1)
  {
    links := [];
    var i := 0;
    while i < |urls|
      invariant 0 <= i <= |urls| && |links| == i
      invariant forall j :: 0 <= j < i ==> links[j] == Link(urls[j].0, urls[j].1)
    {
      var (kind, url) := urls[i];
      links := links + [Link(kind, url)];
      i := i + 1;
    }
  }

  /** The loop that fills a fresh `note`: one escaped paragraph per note, in order. */
  method BuildNotes(notes: seq<string>) returns (paragraphs: seq<string>)
    ensures |paragraphs| == |notes|
    ensures forall i :: 0 <= i < |notes| ==> paragraphs[i] == HtmlSpecialChars(notes[i])
  {
    paragraphs := [];
    var i := 0;
    while i < |notes|
      invariant 0 <= i <= |notes| && |paragraphs| == i
      invariant forall j :: 0 <= j < i ==> paragraphs[j] == HtmlSpecialChars(notes[j])
    {
      var p := HtmlSpecialChars(notes[i]);
      paragraphs := paragraphs + [p];
      i := i + 1;
    }
  }

  // ---------------------------------------------------------------------
  // Properties of the merge.

  /** addEntity adds at most one item: none when an item carries the escaped
      name, and then only the last such item changes; otherwise one item at
      the end and nothing else changes. */
  lemma UpsertAddsAtMostOne(list: seq<Item>, itemTag: string, nameTag: string, e: Entity)
    ensures var r := Upsert(list, itemTag, nameTag, e);
            var n := HtmlSpecialChars(e.name);
            (|r| == |list| <==> exists i :: 0 <= i < |list| && Matches(list[i], itemTag, nameTag, n))
            && (|r| == |list| || (|r| == |list| + 1 && r[..|list|] == list))
            && forall j :: 0 <= j < |list| ==>
                 r[j] == list[j] || (Matches(list[j], itemTag, nameTag, n)
                                     && forall j' :: j < j' < |list| ==> !Matches(list[j'], itemTag, nameTag, n))
  {
    var n := HtmlSpecialChars(e.name);
    match LastMatch(list, itemTag, nameTag, n)
    case Some(i) =>
      assert Matches(list[i], itemTag, nameTag, n);
    case None =>
  }

  /** Where addEntity writes the record: onto the last item carrying the
      escaped name, which it still is afterwards; or onto a new item at the
      end, which stores the entity's own name and is the last item found by it. */
  lemma UpsertFindsItem(list: seq<Item>, itemTag: string, nameTag: string, e: Entity)
    ensures var r := Upsert(list, itemTag, nameTag, e);
            var n := HtmlSpecialChars(e.name);
            ((exists i :: 0 <= i < |list| && Matches(list[i], itemTag, nameTag, n)) ==>
               exists pos :: LastMatch(list, itemTag, nameTag, n) == Some(pos)
                             && LastMatch(r, itemTag, nameTag, n) == Some(pos) && r[pos] == Describe(list[pos], e))
            && ((forall i :: 0 <= i < |list| ==> !Matches(list[i], itemTag, nameTag, n)) ==>
               |r| == |list| + 1 && r[|list|] == Describe(NewItem(itemTag, nameTag, e.name), e)
               && LastMatch(r, itemTag, nameTag, e.name) == Some(|list|))
  {
    var n := HtmlSpecialChars(e.name);
    var r := Upsert(list, itemTag, nameTag, e);
    match LastMatch(list, itemTag, nameTag, n)
    case Some(i) =>
      assert r == list[i := Describe(list[i], e)];
      assert Matches(r[i], itemTag, nameTag, n);
      LastMatchIs(r, itemTag, nameTag, n, i);
    case None =>
      DecodeEscaped(e.name);
      var it := Describe(NewItem(itemTag, nameTag, e.name), e);
      assert r == list + [it];
      assert Matches(r[|list|], itemTag, nameTag, e.name);
      LastMatchIs(r, itemTag, nameTag, e.name, |list|);
  }

  /** For a name htmlspecialchars leaves alone, the search as written and the
      corrected search are the same. */
  lemma AgreeOnPlainNames(list: seq<Item>, itemTag: string, nameTag: string, e: Entity)
    requires PlainText(e.name)
    ensures Upsert(list, itemTag, nameTag, e) == UpsertByName(list, itemTag, nameTag, e)
  {
    DecodeEscaped(e.name);
  }

  /** With the corrected search, the list holds an item named as the entity
      after addEntity: the last such item, carrying what the entity describes. */
  lemma UpsertByNameFindsItem(list: seq<Item>, itemTag: string, nameTag: string, e: Entity)
    ensures var r := UpsertByName(list, itemTag, nameTag, e);
            var n := e.name;
            var base := match LastMatch(list, itemTag, nameTag, n)
                        case Some(i) => list[i]
                        case None => NewItem(itemTag, nameTag, n);
            exists pos :: LastMatch(r, itemTag, nameTag, n) == Some(pos) && r[pos] == Describe(base, e)
  {
    var n := e.name;
    var r := UpsertByName(list, itemTag, nameTag, e);
    match LastMatch(list, itemTag, nameTag, n)
    case Some(i) =>
      assert r == list[i := Describe(list[i], e)];
      assert Matches(r[i], itemTag, nameTag, n);
      LastMatchIs(r, itemTag, nameTag, n, i);
      assert LastMatch(r, itemTag, nameTag, n) == Some(i) && r[i] == Describe(list[i], e);
    case None =>
      var it := Describe(NewItem(itemTag, nameTag, n), e);
      assert r == list + [it];
      assert Matches(r[|list|], itemTag, nameTag, n);
      LastMatchIs(r, itemTag, nameTag, n, |list|);
      assert LastMatch(r, itemTag, nameTag, n) == Some(|list|) && r[|list|] == it;
  }

  /** The characterisation of LastMatch determines it. */
  lemma LastMatchIs(list: seq<Item>, itemTag: string, nameTag: string, nameText: string, pos: nat)
    requires pos < |list| && Matches(list[pos], itemTag, nameTag, nameText)
    requires forall j :: pos < j < |list| ==> !Matches(list[j], itemTag, nameTag, nameText)
    ensures LastMatch(list, itemTag, nameTag, nameText) == Some(pos)
  {
    assert LastMatch(list, itemTag, nameTag, nameText).Some?;
  }

  /** With the corrected search, adding the same entity twice leaves the list
      length unchanged the second time. */
  lemma UpsertTwiceSameLength(list: seq<Item>, itemTag: string, nameTag: string, e: Entity, e': Entity)
    requires e'.name == e.name
    ensures |UpsertByName(UpsertByName(list, itemTag, nameTag, e), itemTag, nameTag, e')|
            == |UpsertByName(list, itemTag, nameTag, e)|
  {
    var r := UpsertByName(list, itemTag, nameTag, e);
    UpsertByNameFindsItem(list, itemTag, nameTag, e);
    var n := e.name;
    var pos :| LastMatch(r, itemTag, nameTag, n) == Some(pos);
    assert Matches(r[pos], itemTag, nameTag, n);
  }

  /** The corrected addEntity keeps "no two items of the item tag share a name". */
  lemma UpsertByNameKeepsNamesUnique(list: seq<Item>, itemTag: string, nameTag: string, e: Entity)
    requires UniqueNames(list, itemTag, nameTag)
    ensures UniqueNames(UpsertByName(list, itemTag, nameTag, e), itemTag, nameTag)
  {
    var n := e.name;
    var r := UpsertByName(list, itemTag, nameTag, e);
    match LastMatch(list, itemTag, nameTag, n)
    case Some(k) =>
      forall i, j | 0 <= i < j < |r| && r[i].tag == itemTag && r[j].tag == itemTag
        ensures FieldText(r[i], nameTag) != FieldText(r[j], nameTag)
      {
        assert r[i].tag == list[i].tag && FieldText(r[i], nameTag) == FieldText(list[i], nameTag);
        assert r[j].tag == list[j].tag && FieldText(r[j], nameTag) == FieldText(list[j], nameTag);
      }
    case None =>
      forall i, j | 0 <= i < j < |r| && r[i].tag == itemTag && r[j].tag == itemTag
        ensures FieldText(r[i], nameTag) != FieldText(r[j], nameTag)
      {
        if j == |list| {
          assert FieldText(r[j], nameTag) == n;
          assert !Matches(list[i], itemTag, nameTag, n);
        }
      }
  }

  /** addEntity keeps "no two items of the item tag share a name" for a name
      htmlspecialchars leaves alone (EscapedNameDuplicated shows why not for others). */
  lemma UpsertKeepsNamesUnique(list: seq<Item>, itemTag: string, nameTag: string, e: Entity)
    requires UniqueNames(list, itemTag, nameTag) && PlainText(e.name)
    ensures UniqueNames(Upsert(list, itemTag, nameTag, e), itemTag, nameTag)
  {
    AgreeOnPlainNames(list, itemTag, nameTag, e);
    UpsertByNameKeepsNamesUnique(list, itemTag, nameTag, e);
  }

  /** An entity whose name holds a character htmlspecialchars replaces is
      never found again: each addEntity appends one more item with that name,
      so two calls leave two items with the same name. */
  lemma EscapedNameDuplicated(list: seq<Item>, itemTag: string, nameTag: string, e: Entity, i: nat)
    requires i < |e.name| && Special(e.name[i])
    requires forall j :: 0 <= j < |list| ==> !Matches(list[j], itemTag, nameTag, HtmlSpecialChars(e.name))
    ensures var once := Upsert(list, itemTag, nameTag, e);
            var twice := Upsert(once, itemTag, nameTag, e);
            |once| == |list| + 1 && |twice| == |list| + 2
            && twice[|list|].tag == itemTag && twice[|list| + 1].tag == itemTag
            && FieldText(twice[|list|], nameTag) == e.name && FieldText(twice[|list| + 1], nameTag) == e.name
            && !UniqueNames(twice, itemTag, nameTag)
  {
    var n := HtmlSpecialChars(e.name);
    DecodeEscaped(e.name);
    EscapedLonger(e.name, i);
    assert n != e.name;
    var it := Describe(NewItem(itemTag, nameTag, e.name), e);
    assert LastMatch(list, itemTag, nameTag, n).None?;
    var once := Upsert(list, itemTag, nameTag, e);
    assert once == list + [it];
    assert !Matches(once[|list|], itemTag, nameTag, n);
    assert LastMatch(once, itemTag, nameTag, n).None?;
    var twice := Upsert(once, itemTag, nameTag, e);
    assert twice == once + [it];
    assert twice[|list|] == it && twice[|list| + 1] == it;
  }

  /** The smallest case: "Fish & Chips" added twice to an empty list. */
  lemma FishAndChipsDuplicated(e: Entity)
    requires e.name == "Fish & Chips"
    ensures |Upsert(Upsert([], "item", "name", e), "item", "name", e)| == 2
    ensures |UpsertByName(UpsertByName([], "item", "name", e), "item", "name", e)| == 1
  {
    EscapedNameDuplicated([], "item", "name", e, 5);
    UpsertTwiceSameLength([], "item", "name", e, e);
  }

  /** addEntity touches only its own list, and reuses that list when it exists. */
  lemma AddEntityToFrame(h: Header, listTag: string, itemTag: string, nameTag: string, e: Entity)
    ensures var r := AddEntityTo(h, listTag, itemTag, nameTag, e);
            r.Keys == h.Keys + {listTag}
            && (forall k :: k in h && k != listTag ==> r[k] == h[k])
            && (listTag in h ==> r[listTag] == Upsert(h[listTag], itemTag, nameTag, e))
            && (listTag !in h ==> |r[listTag]| == 1)
  {
  }

  /** Adding a category's records touches only that category's list. */
  lemma {:induction false} AddEntitiesFrame(h: Header, c: Category, es: seq<Entity>)
    ensures var r := AddEntities(h, c, es);
            (forall k :: k in h ==> k in r)
            && (forall k :: k in h && k != ListTag(c) ==> r[k] == h[k])
            && (es != [] ==> r.Keys == h.Keys + {ListTag(c)})
            && (es == [] ==> r == h)
            && |ListOf(h, ListTag(c))| <= |ListOf(r, ListTag(c))| <= |ListOf(h, ListTag(c))| + |es|
    decreases |es|
  {
    if es != [] {
      var prev := AddEntities(h, c, es[..|es| - 1]);
      AddEntitiesFrame(h, c, es[..|es| - 1]);
      AddEntityToFrame(prev, ListTag(c), ItemTag(c), NameTag(c), es[|es| - 1]);
    }
  }

  /** Adding a category's records, none of whose names htmlspecialchars
      changes, keeps that list free of duplicate names. */
  lemma {:induction false} AddEntitiesKeepNamesUnique(h: Header, c: Category, es: seq<Entity>)
    requires UniqueNames(ListOf(h, ListTag(c)), ItemTag(c), NameTag(c))
    requires forall i :: 0 <= i < |es| ==> PlainText(es[i].name)
    ensures UniqueNames(ListOf(AddEntities(h, c, es), ListTag(c)), ItemTag(c), NameTag(c))
    decreases |es|
  {
    if es != [] {
      var prev := AddEntities(h, c, es[..|es| - 1]);
      AddEntitiesKeepNamesUnique(h, c, es[..|es| - 1]);
      UpsertKeepsNamesUnique(ListOf(prev, ListTag(c)), ItemTag(c), NameTag(c), es[|es| - 1]);
    }
  }
}
