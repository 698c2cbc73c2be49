/** TeiEditionsTeiEnhancer: the object that holds a TEI document and a data
    source, anchors the entity mentions of the document and adds the records
    the data source resolves to the document's header. */
module Enhancer {
  import opened PhpBuiltins
  import opened TeiModel
  import opened ReferenceExtraction
  import opened HeaderLists

  /** The parts of a TEI document the enhancer reads or writes, as one value:
      the creation/idno text and root @xml:id (each possibly missing), the
      mentions of the creation zone and of the body in document order, and
      the header lists. */
  datatype Doc = Doc(
    idno: Option<string>,
    xmlId: Option<string>,
    creation: seq<Mention>,
    body: seq<Mention>,
    header: Header)

  /** `$docid`: the creation/idno text when PHP reads it as true, otherwise
      the root @xml:id ("" when that is missing too). An idno of "" or "0",
      or none, falls back to the @xml:id. */
  function DocId(idno: Option<string>, xmlId: Option<string>): (r: string)
    ensures idno.Some? && idno.value != "" && idno.value != "0" ==> r == idno.value
    ensures idno.None? || idno.value == "" || idno.value == "0" ==> r == (if xmlId.Some? then xmlId.value else "")
  {
    var text := StringOf(idno);
    if Truthy(text) then text else StringOf(xmlId)
  }

  /** What one call of getReferences returns and leaves behind. */
  datatype Extraction = Extraction(doc: Doc, refs: map<string, string>, next: nat)

  function Extract(d: Doc, tag: string, idx: nat): (r: Extraction)
    ensures r.doc.header == d.header && r.doc.idno == d.idno && r.doc.xmlId == d.xmlId
    ensures |r.doc.creation| == |d.creation| && |r.doc.body| == |d.body|
    ensures r.next == idx + Count(d.creation, tag) + Count(d.body, tag)
  {
    var docid := DocId(d.idno, d.xmlId);
    var afterCreation := Scan(d.creation, tag, docid, Start(idx));
    var afterBody := Scan(d.body, tag, docid, afterCreation);
    Extraction(
      d.(creation := Mark(d.creation, tag, docid, idx), body := Mark(d.body, tag, docid, afterCreation.idx)),
      Result(afterBody),
      afterBody.idx)
  }

  /** One block of addRefs: extract a tag's references, look them up, add
      every record found to the category's list. */
  datatype Pass = Pass(doc: Doc, next: nat, records: seq<Entity>)

  function RunPass(d: Doc, c: Category, idx: nat, f: Fetcher): Pass
  {
    var x := Extract(d, MentionTag(c), idx);
    var records := Fetch(f, c, x.refs);
    Pass(x.doc.(header := AddEntities(x.doc.header, c, records)), x.next, records)
  }

  /** A block keeps the document's identifiers, merges exactly the records
      it looked up into the header it started from, and advances the counter
      by the number of mentions of its tag without @ref. */
  lemma RunPassEffect(d: Doc, c: Category, idx: nat, f: Fetcher)
    ensures var r := RunPass(d, c, idx, f);
            r.doc.idno == d.idno && r.doc.xmlId == d.xmlId
            && r.records == Fetch(f, c, Extract(d, MentionTag(c), idx).refs)
            && r.doc.header == AddEntities(d.header, c, r.records)
            && r.next == idx + Count(d.creation, MentionTag(c)) + Count(d.body, MentionTag(c))
  {
  }

  /** The document, the number of records added and the counter after the
      blocks for the given categories have run in order. */
  datatype Outcome = Outcome(doc: Doc, added: nat, next: nat)

  function RunAll(d: Doc, cs: seq<Category>, idx: nat, f: Fetcher): (r: Outcome)
    decreases |cs|
  {
    if cs == [] then Outcome(d, 0, idx)
    else
      var p := RunPass(d, cs[0], idx, f);
      var rest := RunAll(p.doc, cs[1..], p.next, f);
      Outcome(rest.doc, |p.records| + rest.added, rest.next)
  }

  /** addRefs: the four categories in their fixed order, the counter starting at 0. */
  function Enhance(d: Doc, f: Fetcher): (r: Outcome)
  {
    RunAll(d, Categories, 0, f)
  }

  /** The TEI document, updated in place. */
  class TeiDocument {
    var idno: Option<string>
    var xmlId: Option<string>
    var creation: seq<Mention>
    var body: seq<Mention>
    var header: Header

    constructor (d: Doc)
      ensures State() == d
    {
      idno, xmlId := d.idno, d.xmlId;
      creation, body, header := d.creation, d.body, d.header;
    }

    function State(): Doc
      reads this
    {
      Doc(idno, xmlId, creation, body, header)
    }
  }

  class TeiEnhancer {
    const tei: TeiDocument
    const dataSrc: Fetcher

    constructor (tei: TeiDocument, src: Fetcher)
      ensures this.tei == tei && dataSrc == src
    {
      this.tei := tei;
      dataSrc := src;
    }

    /** getReferences: anchors every mention of `tagName` without @ref in the
        creation zone and then in the body, and returns the text-to-reference
        map; `next` is the by-reference counter after the call. */
    method GetReferences(tagName: string, idx: nat) returns (refs: map<string, string>, next: nat)
      modifies tei
      ensures tei.State() == Extract(old(tei.State()), tagName, idx).doc
      ensures refs == Extract(old(tei.State()), tagName, idx).refs
      ensures next == Extract(old(tei.State()), tagName, idx).next
    {
      var docid := DocId(tei.idno, tei.xmlId);
      var creation, acc := ScanRegion(tei.creation, tagName, docid, Start(idx));
      tei.creation := creation;
      var body;
      body, acc := ScanRegion(tei.body, tagName, docid, acc);
      tei.body := body;
      refs := acc.names + Flip(acc.urls);
      next := acc.idx;
    }

    /** addEntity: finds the last item of `itemTag` whose `nameTag` holds the
        escaped name, or appends a new one (addChild stores the decoded text
        of the escaped name, that is the entity's own name), and writes the
        entity onto it. */
    method AddEntity(listTag: string, itemTag: string, nameTag: string, entity: Entity)
      modifies tei
      ensures tei.State() == old(tei.State()).(header := AddEntityTo(old(tei.header), listTag, itemTag, nameTag, entity))
    {
      var list := if listTag in tei.header then tei.header[listTag] else [];
      ghost var list0 := list;
      var nameText := HtmlSpecialChars(entity.name);
      var found := FindItem(list, itemTag, nameTag, nameText);
      var pos: nat;
      var item: Item;
      match found {
        case Some(i) =>
          pos, item := i, list[i];
        case None =>
          item := NewItem(itemTag, nameTag, DecodeEntities(nameText));
          list := list + [item];
          pos := |list| - 1;
      }
      item := WriteEntity(item, entity);
      list := list[pos := item];
      assert list == Upsert(list0, itemTag, nameTag, entity);
      tei.header := tei.header[listTag := list];
    }

    /** One of the four blocks of addRefs. */
    method AddCategory(c: Category, idx: nat) returns (next: nat, added: nat)
      modifies tei
      ensures tei.State() == RunPass(old(tei.State()), c, idx, dataSrc).doc
      ensures next == RunPass(old(tei.State()), c, idx, dataSrc).next
      ensures added == |RunPass(old(tei.State()), c, idx, dataSrc).records|
    {
      var refs;
      refs, next := GetReferences(MentionTag(c), idx);
      var records := Fetch(dataSrc, c, refs);
      ghost var d0 := tei.State();
      added := 0;
      var i := 0;
      while i < |records|
        invariant 0 <= i <= |records| && added == i
        invariant tei.State() == d0.(header := AddEntities(d0.header, c, records[..i]))
      {
        AddEntity(ListTag(c), ItemTag(c), NameTag(c), records[i]);
        AddEntitiesSnoc(d0.header, c, records, i);
        added := added + 1;
        i := i + 1;
      }
      assert records[..i] == records;
    }

    /** addRefs: places, terms, persons and organisations in that order, one
        counter shared by all four; returns the number of records added. */
    method AddRefs() returns (added: nat)
      modifies tei
      ensures tei.State() == Enhance(old(tei.State()), dataSrc).doc
      ensures added == Enhance(old(tei.State()), dataSrc).added
    {
      ghost var d0 := tei.State();
      var idx := 0;
      var n;
      added := 0;
      idx, n := AddCategory(Place, idx);
      ghost var p1 := RunPass(d0, Place, 0, dataSrc);
      added := added + n;
      idx, n := AddCategory(Term, idx);
      ghost var p2 := RunPass(p1.doc, Term, p1.next, dataSrc);
      added := added + n;
      idx, n := AddCategory(Person, idx);
      ghost var p3 := RunPass(p2.doc, Person, p2.next, dataSrc);
      added := added + n;
      idx, n := AddCategory(Org, idx);
      ghost var p4 := RunPass(p3.doc, Org, p3.next, dataSrc);
      added := added + n;
      EnhanceOf(d0, dataSrc, p1, p2, p3, p4);
    }
  }

  // ---------------------------------------------------------------------
  // What a whole run does to the mentions.

  /** The mentions of the two searched regions, creation zone first. */
  function Mentions(d: Doc): seq<Mention>
  {
    d.creation + d.body
  }

  function TagsOf(cs: seq<Category>): (tags: seq<string>)
    ensures |tags| == |cs|
  {
    if cs == [] then [] else [MentionTag(cs[0])] + TagsOf(cs[1..])
  }

  const CategoryTags: seq<string> := ["placeName", "term", "persName", "orgName"]

  lemma CategoryTagsDistinct()
    ensures TagsOf(Categories) == CategoryTags
    ensures Distinct(CategoryTags)
  {
    assert Categories[1..][1..][1..][1..] == [];
  }

  /** getReferences marks the two regions as one sequence, advances the
      counter by the number of pending mentions and leaves the identifiers and the header alone. */
  lemma ExtractMarksRegions(d: Doc, tag: string, idx: nat)
    ensures var x := Extract(d, tag, idx);
            var docid := DocId(d.idno, d.xmlId);
            Mentions(x.doc) == Mark(Mentions(d), tag, docid, idx)
            && |x.doc.creation| == |d.creation|
            && x.next == idx + Count(Mentions(d), tag)
            && x.doc.idno == d.idno && x.doc.xmlId == d.xmlId && x.doc.header == d.header
  {
    var docid := DocId(d.idno, d.xmlId);
    MarkAppend(d.creation, d.body, tag, docid, idx);
    CountAppend(d.creation, d.body, tag);
  }

  /** The map getReferences returns is the one References describes, so the
      properties proved of References hold of it. */
  lemma ExtractReturnsReferences(d: Doc, tag: string, idx: nat)
    ensures Extract(d, tag, idx).refs == References(d.creation, d.body, tag, DocId(d.idno, d.xmlId), idx)
  {
  }

  /** One block marks the mentions as getReferences does for its tag and
      advances the counter by the number of them it anchored. */
  lemma RunPassMentions(d: Doc, c: Category, idx: nat, f: Fetcher)
    ensures var p := RunPass(d, c, idx, f);
            Mentions(p.doc) == Mark(Mentions(d), MentionTag(c), DocId(d.idno, d.xmlId), idx)
            && p.next == idx + Count(Mentions(d), MentionTag(c))
            && |p.doc.creation| == |d.creation|
            && p.doc.idno == d.idno && p.doc.xmlId == d.xmlId
  {
    ExtractMarksRegions(d, MentionTag(c), idx);
  }

  lemma RunAllStep(d: Doc, cs: seq<Category>, idx: nat, f: Fetcher)
    requires cs != []
    ensures var p := RunPass(d, cs[0], idx, f);
            RunAll(d, cs, idx, f).doc == RunAll(p.doc, cs[1..], p.next, f).doc
  {
  }

  /** The blocks for several categories mark the mentions as MarkAll over
      their tags does, one counter threaded through them. */
  lemma {:induction false} RunAllMentions(d: Doc, cs: seq<Category>, idx: nat, f: Fetcher)
    ensures var o := RunAll(d, cs, idx, f);
            Mentions(o.doc) == MarkAll(Mentions(d), TagsOf(cs), DocId(d.idno, d.xmlId), idx)
            && |o.doc.creation| == |d.creation|
            && o.doc.idno == d.idno && o.doc.xmlId == d.xmlId
    decreases |cs|
  {
    if cs != [] {
      var docid := DocId(d.idno, d.xmlId);
      var p := RunPass(d, cs[0], idx, f);
      RunPassMentions(d, cs[0], idx, f);
      RunAllMentions(p.doc, cs[1..], p.next, f);
      RunAllStep(d, cs, idx, f);
      var tags := TagsOf(cs);
      assert tags[0] == MentionTag(cs[0]) && tags[1..] == TagsOf(cs[1..]);
      MarkAllStep(Mentions(d), tags, docid, idx, Mentions(p.doc), TagsOf(cs[1..]), p.next);
    } else {
      assert TagsOf(cs) == [];
    }
  }

  /** addRefs marks the mentions as MarkAll over the four mention tags does,
      the counter starting at 0. */
  lemma EnhanceMentions(d: Doc, f: Fetcher)
    ensures var after := Enhance(d, f).doc;
            Mentions(after) == MarkAll(Mentions(d), CategoryTags, DocId(d.idno, d.xmlId), 0)
            && |after.creation| == |d.creation|
            && after.idno == d.idno && after.xmlId == d.xmlId
  {
    RunAllMentions(d, Categories, 0, f);
    CategoryTagsDistinct();
  }

  /** After addRefs every mention of the four tags carries a @ref: a mention
      that lacked one now has an anchor `#<docid>_<n>` with n >= 1, a mention
      that had one keeps it, mentions of other tags are unchanged, and only
      the @ref of a mention ever changes. */
  lemma AddRefsRefsEveryMention(d: Doc, f: Fetcher, k: nat)
    requires k < |Mentions(d)|
    ensures var after := Mentions(Enhance(d, f).doc);
            var m := Mentions(d)[k];
            |after| == |Mentions(d)|
            && after[k] == m.(ref := after[k].ref)
            && (m.tag in CategoryTags ==> after[k].ref.Some?)
            && (m.tag in CategoryTags && m.ref.None? ==>
                  exists n: nat :: n >= 1 && after[k].ref == Some(Anchor(DocId(d.idno, d.xmlId), n)))
            && (m.ref.Some? || m.tag !in CategoryTags ==> after[k] == m)
  {
    var docid := DocId(d.idno, d.xmlId);
    EnhanceMentions(d, f);
    CategoryTagsDistinct();
    MarkAllCompletes(Mentions(d), CategoryTags, docid, 0, k);
  }

  /** Every anchor getReferences writes is a local reference, and the
      identifier it names is `<docid>_<n>`: the @xml:id a header item gets
      when a record comes back with that reference. */
  lemma AnchorIsLocalRef(docid: string, n: nat)
    ensures IsLocalRef(Anchor(docid, n))
    ensures Anchor(docid, n)[1..] == docid + "_" + DecimalString(n)
  {
  }

  /** No two mentions that addRefs anchors receive the same anchor, whatever
      their categories: the counter is shared by the four blocks. */
  lemma AddRefsAnchorsUnique(d: Doc, f: Fetcher, p: nat, q: nat)
    requires p < |Mentions(d)| && q < |Mentions(d)| && p != q
    requires Mentions(d)[p].ref.None? && Mentions(d)[p].tag in CategoryTags
    requires Mentions(d)[q].ref.None? && Mentions(d)[q].tag in CategoryTags
    ensures Mentions(Enhance(d, f).doc)[p].ref != Mentions(Enhance(d, f).doc)[q].ref
  {
    var docid := DocId(d.idno, d.xmlId);
    var ms := Mentions(d);
    EnhanceMentions(d, f);
    CategoryTagsDistinct();
    var cp :| 0 <= cp < |CategoryTags| && CategoryTags[cp] == ms[p].tag;
    var cq :| 0 <= cq < |CategoryTags| && CategoryTags[cq] == ms[q].tag;
    MarkAllAnchorsUnique(ms, CategoryTags, docid, 0, p, q, cp, cq);
  }

  /** Running addRefs again on its own output, with any data source, changes
      no mention: every anchor it wrote is found and reused. */
  lemma AddRefsSecondRunAnchorsNothing(d: Doc, f: Fetcher, f': Fetcher)
    ensures var once := Enhance(d, f).doc;
            var twice := Enhance(once, f').doc;
            twice.creation == once.creation && twice.body == once.body
  {
    var once := Enhance(d, f).doc;
    var twice := Enhance(once, f').doc;
    EnhanceMentions(d, f);
    EnhanceMentions(once, f');
    CategoryTagsDistinct();
    MarkAllIdempotent(Mentions(d), CategoryTags, DocId(d.idno, d.xmlId), 0, DocId(once.idno, once.xmlId), 0);
    assert Mentions(twice) == Mentions(once);
    assert twice.creation == Mentions(twice)[..|once.creation|];
    assert once.creation == Mentions(once)[..|once.creation|];
    assert twice.body == Mentions(twice)[|once.creation|..];
    assert once.body == Mentions(once)[|once.creation|..];
  }

  // ---------------------------------------------------------------------
  // What a whole run does to the header.

  function ListTags(cs: seq<Category>): set<string>
  {
    if cs == [] then {} else {ListTag(cs[0])} + ListTags(cs[1..])
  }

  /** The blocks for several categories touch only those categories' lists. */
  lemma {:induction false} RunAllHeaderFrame(d: Doc, cs: seq<Category>, idx: nat, f: Fetcher)
    ensures var h := RunAll(d, cs, idx, f).doc.header;
            (forall k :: k in d.header ==> k in h)
            && (forall k :: k in d.header && k !in ListTags(cs) ==> h[k] == d.header[k])
            && (forall k :: k in h ==> k in d.header || k in ListTags(cs))
    decreases |cs|
  {
    if cs != [] {
      var p := RunPass(d, cs[0], idx, f);
      var x := Extract(d, MentionTag(cs[0]), idx);
      AddEntitiesFrame(x.doc.header, cs[0], p.records);
      RunAllHeaderFrame(p.doc, cs[1..], p.next, f);
    }
  }

  /** The header lists of the four categories. */
  const CategoryLists: set<string> := {"listPlace", "list", "listPerson", "listOrg"}

  lemma CategoryListTags()
    ensures ListTags(Categories) == CategoryLists
  {
    assert Categories[1..] == [Term, Person, Org];
    assert Categories[1..][1..] == [Person, Org];
    assert Categories[1..][1..][1..] == [Org];
    assert ListTags([Org]) == {"listOrg"};
  }

  /** addRefs changes no header list but listPlace, list, listPerson and
      listOrg, and adds no other. */
  lemma AddRefsHeaderFrame(d: Doc, f: Fetcher)
    ensures var h := Enhance(d, f).doc.header;
            (forall k :: k in d.header ==> k in h)
            && (forall k :: k in d.header && k !in CategoryLists ==> h[k] == d.header[k])
            && (forall k :: k in h ==> k in d.header || k in CategoryLists)
  {
    RunAllHeaderFrame(d, Categories, 0, f);
    CategoryListTags();
  }

  /** In every category's list, no two items share a name. */
  predicate NamesUnique(h: Header)
  {
    forall c: Category :: UniqueNames(ListOf(h, ListTag(c)), ItemTag(c), NameTag(c))
  }

  /** Every record the data source returns has a name htmlspecialchars leaves alone. */
  ghost predicate PlainRecords(f: Fetcher)
  {
    forall c: Category, refs: map<string, string>, i :: 0 <= i < |Fetch(f, c, refs)| ==> PlainText(Fetch(f, c, refs)[i].name)
  }

  /** The records one block merges come from the data source. */
  lemma PassRecordsPlain(d: Doc, c: Category, idx: nat, f: Fetcher)
    requires PlainRecords(f)
    ensures forall i :: 0 <= i < |RunPass(d, c, idx, f).records| ==> PlainText(RunPass(d, c, idx, f).records[i].name)
  {
    var x := Extract(d, MentionTag(c), idx);
    assert RunPass(d, c, idx, f).records == Fetch(f, c, x.refs);
  }

  /** One block keeps every category list free of duplicate names, when the
      records' names need no escaping. */
  lemma RunPassKeepsNamesUnique(d: Doc, c: Category, idx: nat, f: Fetcher)
    requires NamesUnique(d.header) && PlainRecords(f)
    ensures NamesUnique(RunPass(d, c, idx, f).doc.header)
  {
    var p := RunPass(d, c, idx, f);
    PassRecordsPlain(d, c, idx, f);
    AddEntitiesKeepNamesUnique(d.header, c, p.records);
    forall c': Category | c' != c
      ensures UniqueNames(ListOf(p.doc.header, ListTag(c')), ItemTag(c'), NameTag(c'))
    {
      OtherListKept(d.header, c, p.records, c');
    }
  }

  /** The records of one category leave the other categories' lists alone. */
  lemma OtherListKept(h: Header, c: Category, es: seq<Entity>, c': Category)
    requires c' != c
    ensures ListOf(AddEntities(h, c, es), ListTag(c')) == ListOf(h, ListTag(c'))
  {
    AddEntitiesFrame(h, c, es);
    assert ListTag(c') != ListTag(c);
  }

  lemma {:induction false} RunAllKeepsNamesUnique(d: Doc, cs: seq<Category>, idx: nat, f: Fetcher)
    requires NamesUnique(d.header) && PlainRecords(f)
    ensures NamesUnique(RunAll(d, cs, idx, f).doc.header)
    decreases |cs|
  {
    if cs != [] {
      var p := RunPass(d, cs[0], idx, f);
      RunPassKeepsNamesUnique(d, cs[0], idx, f);
      RunAllKeepsNamesUnique(p.doc, cs[1..], p.next, f);
      RunAllStep(d, cs, idx, f);
    }
  }

  /** addRefs never creates two items with the same name in a list that had
      none, as long as no record name holds `&`, `<`, `>` or `"`
      (EscapedNameDuplicated shows what happens otherwise). */
  lemma AddRefsKeepsNamesUnique(d: Doc, f: Fetcher)
    requires NamesUnique(d.header) && PlainRecords(f)
    ensures NamesUnique(Enhance(d, f).doc.header)
  {
    RunAllKeepsNamesUnique(d, Categories, 0, f);
  }

  // ---------------------------------------------------------------------
  // Two runs worked through.

  /** A run is its first block followed by the run over the remaining categories. */
  lemma RunAllCons(d: Doc, cs: seq<Category>, idx: nat, f: Fetcher, p: Pass, rest: seq<Category>, o: Outcome)
    requires cs != [] && p == RunPass(d, cs[0], idx, f) && rest == cs[1..]
    requires o == RunAll(p.doc, rest, p.next, f)
    ensures RunAll(d, cs, idx, f) == Outcome(o.doc, |p.records| + o.added, o.next)
  {
  }

  /** addRefs is its four blocks in order. */
  lemma EnhanceOf(d: Doc, f: Fetcher, p1: Pass, p2: Pass, p3: Pass, p4: Pass)
    requires RunPass(d, Place, 0, f) == p1
    requires RunPass(p1.doc, Term, p1.next, f) == p2
    requires RunPass(p2.doc, Person, p2.next, f) == p3
    requires RunPass(p3.doc, Org, p3.next, f) == p4
    ensures Enhance(d, f) == Outcome(p4.doc, |p1.records| + |p2.records| + |p3.records| + |p4.records|, p4.next)
  {
    var o4 := Outcome(p4.doc, 0, p4.next);
    assert RunAll(p4.doc, [], p4.next, f) == o4;
    var o3 := Outcome(p4.doc, |p4.records|, p4.next);
    RunAllCons(p3.doc, [Org], p3.next, f, p4, [], o4);
    var o2 := Outcome(p4.doc, |p3.records| + |p4.records|, p4.next);
    RunAllCons(p2.doc, [Person, Org], p2.next, f, p3, [Org], o3);
    var o1 := Outcome(p4.doc, |p2.records| + |p3.records| + |p4.records|, p4.next);
    RunAllCons(p1.doc, [Term, Person, Org], p1.next, f, p2, [Person, Org], o2);
    RunAllCons(d, Categories, 0, f, p1, [Term, Person, Org], o1);
  }

  /** A block whose tag occurs nowhere in the document, and whose lookup
      resolves nothing from an empty map, changes nothing. */
  lemma QuietPass(d: Doc, c: Category, idx: nat, f: Fetcher)
    requires forall k :: 0 <= k < |d.creation| ==> d.creation[k].tag != MentionTag(c)
    requires forall k :: 0 <= k < |d.body| ==> d.body[k].tag != MentionTag(c)
    requires Fetch(f, c, map[]) == []
    ensures RunPass(d, c, idx, f) == Pass(d, idx, [])
  {
    var docid := DocId(d.idno, d.xmlId);
    var tag := MentionTag(c);
    ScanNoMention(d.creation, tag, docid, Start(idx));
    ScanNoMention(d.body, tag, docid, Start(idx));
    assert Flip([]) == map[];
    NoPendingNoCount(d.creation, tag);
    NoPendingNoCount(d.body, tag);
    MarkNothingPending(d.creation, tag, docid, idx);
    MarkNothingPending(d.body, tag, docid, idx);
  }

  /** A lookup that resolves nothing. */
  function NoRecords(refs: map<string, string>): seq<Entity>
  {
    []
  }

  /** A lookup that resolves the text "Jane Doe" to a record under the
      reference it was returned with. */
  function JaneDoeAgents(refs: map<string, string>): seq<Entity>
  {
    if "Jane Doe" in refs then [Entity("Jane Doe", None, [], [], refs["Jane Doe"])] else []
  }

  /** The persName block of the Jane Doe run. */
  lemma JaneDoePersonPass(d: Doc, f: Fetcher)
    requires d == Doc(None, Some("doc1"), [], [Mention("persName", "Jane Doe", None)], map[])
    requires f == Fetcher(NoRecords, NoRecords, JaneDoeAgents)
    ensures RunPass(d, Person, 0, f)
            == Pass(d.(body := [Mention("persName", "Jane Doe", Some("#doc1_1"))],
                       header := map["listPerson" := [Item("person", map["persName" := "Jane Doe"], None, Some("doc1_1"), [], [])]]),
                    1, [Entity("Jane Doe", None, [], [], "#doc1_1")])
  {
    var e := Entity("Jane Doe", None, [], [], "#doc1_1");
    JaneDoeExtract(d);
    JaneDoeHeader(e);
  }

  lemma JaneDoeExtract(d: Doc)
    requires d == Doc(None, Some("doc1"), [], [Mention("persName", "Jane Doe", None)], map[])
    ensures Extract(d, "persName", 0)
            == Extraction(d.(body := [Mention("persName", "Jane Doe", Some("#doc1_1"))]), map["Jane Doe" := "#doc1_1"], 1)
  {
    var jane := Mention("persName", "Jane Doe", None);
    assert DocId(d.idno, d.xmlId) == "doc1";
    assert Anchor("doc1", 1) == "#doc1_1";
    assert Mark([jane], "persName", "doc1", 0) == [Mention("persName", "Jane Doe", Some("#doc1_1"))];
  }

  lemma JaneDoeHeader(e: Entity)
    requires e == Entity("Jane Doe", None, [], [], "#doc1_1")
    ensures AddEntities(map[], Person, [e])
            == map["listPerson" := [Item("person", map["persName" := "Jane Doe"], None, Some("doc1_1"), [], [])]]
  {
    AddEntitiesOne(map[], Person, e);
    JaneDoeUpsert(e);
  }

  /** "Jane Doe" needs no escaping, so the new item is found by that name. */
  lemma JaneDoeUpsert(e: Entity)
    requires e == Entity("Jane Doe", None, [], [], "#doc1_1")
    ensures Upsert([], "person", "persName", e) == [Item("person", map["persName" := "Jane Doe"], None, Some("doc1_1"), [], [])]
  {
    var it0 := NewItem("person", "persName", "Jane Doe");
    assert PlainText(e.name);
    AgreeOnPlainNames([], "person", "persName", e);
    assert UpsertByName([], "person", "persName", e) == [Describe(it0, e)];
    assert "#doc1_1"[1..] == "doc1_1";
  }

  /** The placeName, term and orgName blocks of the Jane Doe run find nothing. */
  lemma JaneDoeQuietPasses(d: Doc, d3: Doc, f: Fetcher)
    requires d.creation == [] && d.body == [Mention("persName", "Jane Doe", None)]
    requires d3.creation == [] && d3.body == [Mention("persName", "Jane Doe", Some("#doc1_1"))]
    requires f == Fetcher(NoRecords, NoRecords, JaneDoeAgents)
    ensures RunPass(d, Place, 0, f) == Pass(d, 0, [])
    ensures RunPass(d, Term, 0, f) == Pass(d, 0, [])
    ensures RunPass(d3, Org, 1, f) == Pass(d3, 1, [])
  {
    assert "persName"[1] != "placeName"[1] && "persName"[0] != "term"[0] && "persName"[0] != "orgName"[0];
    assert JaneDoeAgents(map[]) == [];
    QuietPass(d, Place, 0, f);
    QuietPass(d, Term, 0, f);
    QuietPass(d3, Org, 1, f);
  }

  /** One unmarked persName in the body of document "doc1": it is anchored
      as "#doc1_1", the header gains one person item named "Jane Doe" whose
      @xml:id is "doc1_1", and one record is counted. */
  lemma JaneDoeScenario(d: Doc, f: Fetcher)
    requires d == Doc(None, Some("doc1"), [], [Mention("persName", "Jane Doe", None)], map[])
    requires f == Fetcher(NoRecords, NoRecords, JaneDoeAgents)
    ensures var o := Enhance(d, f);
            o.doc.body == [Mention("persName", "Jane Doe", Some("#doc1_1"))]
            && o.doc.header == map["listPerson" := [Item("person", map["persName" := "Jane Doe"], None, Some("doc1_1"), [], [])]]
            && o.added == 1
  {
    var d3 := d.(body := [Mention("persName", "Jane Doe", Some("#doc1_1"))],
                 header := map["listPerson" := [Item("person", map["persName" := "Jane Doe"], None, Some("doc1_1"), [], [])]]);
    JaneDoeQuietPasses(d, d3, f);
    JaneDoePersonPass(d, f);
    EnhanceOf(d, f, Pass(d, 0, []), Pass(d, 0, []), Pass(d3, 1, [Entity("Jane Doe", None, [], [], "#doc1_1")]), Pass(d3, 1, []));
  }

  /** The persName block of a document edited after an earlier run: "A"
      keeps the anchor that run gave it, and "B", added since, is anchored
      from a counter that starts at 0 again. */
  lemma ReusedAnchorPersonPass(d: Doc, f: Fetcher)
    requires d == Doc(None, Some("doc1"), [], [Mention("persName", "A", Some("#doc1_1")), Mention("persName", "B", None)], map[])
    requires f == Fetcher(NoRecords, NoRecords, NoRecords)
    ensures RunPass(d, Person, 0, f)
            == Pass(d.(body := [Mention("persName", "A", Some("#doc1_1")), Mention("persName", "B", Some("#doc1_1"))]), 1, [])
  {
    var a := Mention("persName", "A", Some("#doc1_1"));
    var b := Mention("persName", "B", None);
    assert DocId(d.idno, d.xmlId) == "doc1";
    assert Anchor("doc1", 1) == "#doc1_1";
    assert [a, b][..1] == [a];
    assert Count([a], "persName") == 0;
    assert Mark([a, b], "persName", "doc1", 0) == [a, b.(ref := Some("#doc1_1"))];
    AddEntitiesFrame(d.header, Person, []);
  }

  /** A block for another category than persons finds nothing in a
      document whose only mentions are persNames. */
  lemma PersNamesOnlyQuiet(d: Doc, c: Category, idx: nat, f: Fetcher)
    requires c != Person && d.creation == []
    requires forall k :: 0 <= k < |d.body| ==> d.body[k].tag == "persName"
    requires Fetch(f, c, map[]) == []
    ensures RunPass(d, c, idx, f) == Pass(d, idx, [])
  {
    assert "persName"[1] != "placeName"[1] && "persName"[0] != "term"[0] && "persName"[0] != "orgName"[0];
    QuietPass(d, c, idx, f);
  }

  /** The placeName and term blocks of that run find nothing before it. */
  lemma ReusedAnchorQuietBefore(d: Doc, f: Fetcher)
    requires d.creation == [] && d.body == [Mention("persName", "A", Some("#doc1_1")), Mention("persName", "B", None)]
    requires f == Fetcher(NoRecords, NoRecords, NoRecords)
    ensures RunPass(d, Place, 0, f) == Pass(d, 0, [])
    ensures RunPass(d, Term, 0, f) == Pass(d, 0, [])
  {
    PersNamesOnlyQuiet(d, Place, 0, f);
    PersNamesOnlyQuiet(d, Term, 0, f);
  }

  /** The orgName block of that run finds nothing after it. */
  lemma ReusedAnchorQuietAfter(d3: Doc, f: Fetcher)
    requires d3.creation == [] && d3.body == [Mention("persName", "A", Some("#doc1_1")), Mention("persName", "B", Some("#doc1_1"))]
    requires f == Fetcher(NoRecords, NoRecords, NoRecords)
    ensures RunPass(d3, Org, 1, f) == Pass(d3, 1, [])
  {
    PersNamesOnlyQuiet(d3, Org, 1, f);
  }

  /** addRefs starts its counter at 0 on every call, so a mention added after
      an earlier run can receive an anchor that run already wrote: "B" is
      anchored "#doc1_1", the @ref "A" already carries. */
  lemma ReusedAnchorAfterEdit(d: Doc, f: Fetcher)
    requires d == Doc(None, Some("doc1"), [], [Mention("persName", "A", Some("#doc1_1")), Mention("persName", "B", None)], map[])
    requires f == Fetcher(NoRecords, NoRecords, NoRecords)
    ensures var after := Enhance(d, f).doc.body;
            after == [Mention("persName", "A", Some("#doc1_1")), Mention("persName", "B", Some("#doc1_1"))]
            && after[0].ref == after[1].ref
  {
    var d3 := d.(body := [Mention("persName", "A", Some("#doc1_1")), Mention("persName", "B", Some("#doc1_1"))]);
    ReusedAnchorQuietBefore(d, f);
    ReusedAnchorPersonPass(d, f);
    ReusedAnchorQuietAfter(d3, f);
    EnhanceOf(d, f, Pass(d, 0, []), Pass(d, 0, []), Pass(d3, 1, []), Pass(d3, 1, []));
  }

  /** A lookup that resolves the text "Paris" to a record under the
      reference it was returned with. */
  function ParisPlaces(refs: map<string, string>): seq<Entity>
  {
    if "Paris" in refs then [Entity("Paris", None, [], [], refs["Paris"])] else []
  }

  lemma ParisExtract(d: Doc, paris: Item)
    requires d == Doc(Some("d"), None, [], [Mention("placeName", "Paris", None)], map["listPlace" := [paris]])
    ensures Extract(d, "placeName", 0)
            == Extraction(d.(body := [Mention("placeName", "Paris", Some("#d_1"))]), map["Paris" := "#d_1"], 1)
  {
    var m := Mention("placeName", "Paris", None);
    assert DocId(d.idno, d.xmlId) == "d";
    assert Anchor("d", 1) == "#d_1";
    assert Mark([m], "placeName", "d", 0) == [Mention("placeName", "Paris", Some("#d_1"))];
  }

  /** The placeName block of the Paris run. */
  lemma ParisPlacePass(d: Doc, f: Fetcher, paris: Item)
    requires paris == Item("place", map["placeName" := "Paris"], None, None, [], [])
    requires d == Doc(Some("d"), None, [], [Mention("placeName", "Paris", None)], map["listPlace" := [paris]])
    requires f == Fetcher(ParisPlaces, NoRecords, NoRecords)
    ensures RunPass(d, Place, 0, f)
            == Pass(d.(body := [Mention("placeName", "Paris", Some("#d_1"))],
                       header := map["listPlace" := [paris.(xmlId := Some("d_1"))]]),
                    1, [Entity("Paris", None, [], [], "#d_1")])
  {
    ParisExtract(d, paris);
    ParisHeader(paris, Entity("Paris", None, [], [], "#d_1"));
  }

  lemma ParisHeader(paris: Item, e: Entity)
    requires paris == Item("place", map["placeName" := "Paris"], None, None, [], [])
    requires e == Entity("Paris", None, [], [], "#d_1")
    ensures AddEntities(map["listPlace" := [paris]], Place, [e]) == map["listPlace" := [paris.(xmlId := Some("d_1"))]]
  {
    AddEntitiesOne(map["listPlace" := [paris]], Place, e);
    ParisUpsert(paris, e);
  }

  /** "Paris" needs no escaping, so the listed item is found and described again. */
  lemma ParisUpsert(paris: Item, e: Entity)
    requires paris == Item("place", map["placeName" := "Paris"], None, None, [], [])
    requires e == Entity("Paris", None, [], [], "#d_1")
    ensures Upsert([paris], "place", "placeName", e) == [paris.(xmlId := Some("d_1"))]
  {
    assert PlainText(e.name);
    AgreeOnPlainNames([paris], "place", "placeName", e);
    assert Matches(paris, "place", "placeName", "Paris");
    assert LastMatch([paris], "place", "placeName", "Paris") == Some(0);
    assert "#d_1"[1..] == "d_1";
    assert Describe(paris, e) == paris.(xmlId := Some("d_1"));
  }

  /** The term, persName and orgName blocks of the Paris run find nothing. */
  lemma ParisQuietPasses(d: Doc, f: Fetcher)
    requires d.creation == [] && d.body == [Mention("placeName", "Paris", Some("#d_1"))]
    requires f == Fetcher(ParisPlaces, NoRecords, NoRecords)
    ensures RunPass(d, Term, 1, f) == Pass(d, 1, [])
    ensures RunPass(d, Person, 1, f) == Pass(d, 1, [])
    ensures RunPass(d, Org, 1, f) == Pass(d, 1, [])
  {
    assert "placeName"[0] != "term"[0] && "placeName"[1] != "persName"[1] && "placeName"[0] != "orgName"[0];
    QuietPass(d, Term, 1, f);
    QuietPass(d, Person, 1, f);
    QuietPass(d, Org, 1, f);
  }

  /** A header that already lists "Paris", and a body that mentions "Paris"
      without @ref: the mention is anchored as "#d_1", the lookup returns
      "Paris" again and the listed item takes that anchor as its @xml:id.
      No item is added, yet the record is counted: addRefs counts the records
      it merges, not the items it creates. */
  lemma ExistingPlaceStillCounted(d: Doc, f: Fetcher, paris: Item)
    requires paris == Item("place", map["placeName" := "Paris"], None, None, [], [])
    requires d == Doc(Some("d"), None, [], [Mention("placeName", "Paris", None)], map["listPlace" := [paris]])
    requires f == Fetcher(ParisPlaces, NoRecords, NoRecords)
    ensures var o := Enhance(d, f);
            o.doc.body == [Mention("placeName", "Paris", Some("#d_1"))]
            && o.doc.header == map["listPlace" := [paris.(xmlId := Some("d_1"))]]
            && o.added == 1
  {
    var d1 := d.(body := [Mention("placeName", "Paris", Some("#d_1"))],
                 header := map["listPlace" := [paris.(xmlId := Some("d_1"))]]);
    ParisPlacePass(d, f, paris);
    ParisQuietPasses(d1, f);
    EnhanceOf(d, f, Pass(d1, 1, [Entity("Paris", None, [], [], "#d_1")]), Pass(d1, 1, []), Pass(d1, 1, []), Pass(d1, 1, []));
  }
}
