/** The parts of a TEI document the enhancer reads and writes, the entity
    records the authority services return, and the fixed table of the four
    entity categories. */
module TeiModel {
  import opened PhpBuiltins

  /** One mention element (`placeName`, `term`, `persName`, `orgName`, ...):
      its tag, its first text node ("" when it has none) and its @ref. */
  datatype Mention = Mention(tag: string, text: string, ref: Option<string>)

  /** One `link` of an item's `linkGrp`. */
  datatype Link = Link(kind: string, target: string)

  /** One child of a header list: its tag, the text of its named child
      elements by tag, the text of `location/geo`, its @xml:id, the links of
      its `linkGrp` and the paragraphs of its `note`. */
  datatype Item = Item(
    tag: string,
    fields: map<string, string>,
    geo: Option<string>,
    xmlId: Option<string>,
    links: seq<Link>,
    notes: seq<string>)

  /** The lists under `teiHeader/fileDesc/sourceDesc`, by list tag. */
  type Header = map<string, seq<Item>>

  /** A record returned by an authority service (a TeiEditionsEntity): a
      name, an optional (latitude, longitude), its alternate URLs as ordered
      (type, url) pairs, its notes and the reference it was found under. */
  datatype Entity = Entity(
    name: string,
    geo: Option<(string, string)>,
    urls: seq<(string, string)>,
    notes: seq<string>,
    ref: string)

  /** The four kinds of entity, in the order addRefs handles them. */
  datatype Category = Place | Term | Person | Org

  const Categories: seq<Category> := [Place, Term, Person, Org]

  /** The mention tag searched for in the document. */
  function MentionTag(c: Category): string
  {
    match c
    case Place => "placeName"
    case Term => "term"
    case Person => "persName"
    case Org => "orgName"
  }

  /** The header list, its item tag and the item's name field. */
  function ListTag(c: Category): string
  {
    match c
    case Place => "listPlace"
    case Term => "list"
    case Person => "listPerson"
    case Org => "listOrg"
  }

  function ItemTag(c: Category): string
  {
    match c
    case Place => "place"
    case Term => "item"
    case Person => "person"
    case Org => "org"
  }

  function NameTag(c: Category): string
  {
    match c
    case Place => "placeName"
    case Term => "name"
    case Person => "persName"
    case Org => "orgName"
  }

  /** The data source (TeiEditionsDataFetcher): three lookups from the
      extracted text-to-reference map to the records they could resolve.
      Persons and organisations share the historical-agents lookup. */
  datatype Fetcher = Fetcher(
    places: map<string, string> -> seq<Entity>,
    concepts: map<string, string> -> seq<Entity>,
    agents: map<string, string> -> seq<Entity>)

  function Fetch(f: Fetcher, c: Category, refs: map<string, string>): seq<Entity>
  {
    match c
    case Place => f.places(refs)
    case Term => f.concepts(refs)
    case Person => f.agents(refs)
    case Org => f.agents(refs)
  }
}
