/** The store: the catalog document held in memory, its default contents, the
    patch applied to files written before the portfolio existed, and the lookup
    of a category by its slug id. */
module Catalog {
  import opened Wrappers

  /** A product record. `featured` is optional because records written by
      hand or by older versions may lack the key. */
  datatype Product = Product(
    id: string,
    name: string,
    price: string,
    description: string,
    whatsappCode: string,
    image: string,
    featured: Option<bool>)

  datatype PortfolioItem = PortfolioItem(id: string, title: string, image: string)

  datatype Category = Category(id: string, name: string, icon: string, products: seq<Product>)

  /** Store-wide settings are passed through untouched. */
  type Settings = map<string, string>

  /** The document the editor works on, after loading. */
  datatype Document = Document(settings: Settings, categories: seq<Category>, portfolio: seq<PortfolioItem>)

  /** The document as found in the file: older files have no `portfolio` key. */
  datatype RawDocument = RawDocument(settings: Settings, categories: seq<Category>, portfolio: Option<seq<PortfolioItem>>)

  /** What the data file holds when the editor starts. */
  datatype StoredFile = Missing | Unparsable | Stored(raw: RawDocument)

  const DefaultSettings: Settings :=
    map["storeName" := "Candid Craft", "currency" := "\U{20B9}", "whatsappPhone" := "919876543210"]

  const DefaultDocument: Document := Document(DefaultSettings, [], [])

  /** Saving writes the whole document, `portfolio` included. */
  function Serialize(doc: Document): (r: RawDocument)
    ensures r.portfolio.Some?
  {
    RawDocument(doc.settings, doc.categories, Some(doc.portfolio))
  }

  /** Adds an empty `portfolio` to a document that has none; anything else is left alone. */
  function PatchSchema(raw: RawDocument): (r: RawDocument)
    ensures r.portfolio.Some?
    ensures r.settings == raw.settings && r.categories == raw.categories
    ensures raw.portfolio.Some? ==> r == raw
    ensures raw.portfolio.None? ==> r.portfolio.value == []
  {
    if raw.portfolio.None? then raw.(portfolio := Some([])) else raw
  }

  lemma PatchSchemaIdempotent(raw: RawDocument)
    ensures PatchSchema(PatchSchema(raw)) == PatchSchema(raw)
  {
  }

  /** The document in memory after a successful read of `raw`. */
  function Migrate(raw: RawDocument): (r: Document)
    ensures Serialize(r) == PatchSchema(raw)
  {
    var patched := PatchSchema(raw);
    Document(patched.settings, patched.categories, patched.portfolio.value)
  }

  /** A missing data file is first created with the default document. */
  function EnsureFile(file: StoredFile): (r: StoredFile)
    ensures !r.Missing?
    ensures !file.Missing? ==> r == file
    ensures file.Missing? ==> r.Stored? && Migrate(r.raw) == DefaultDocument
  {
    if file.Missing? then Stored(Serialize(DefaultDocument)) else file
  }

  /** Loading: create the file when missing, read it, patch the schema.
      `None` is a parse failure, after which the editor holds no document. */
  function Load(file: StoredFile): (r: Option<Document>)
    ensures file.Missing? ==> r == Some(DefaultDocument)
    ensures file.Unparsable? <==> r.None?
    ensures file.Stored? ==> r.Some? && Serialize(r.value) == PatchSchema(file.raw)
  {
    match EnsureFile(file)
    case Stored(raw) => Some(Migrate(raw))
    case _ => None
  }

  /** Saving and then loading gives back the same document. */
  lemma SaveThenLoad(doc: Document)
    ensures Load(Stored(Serialize(doc))) == Some(doc)
  {
  }

  /** A file without `portfolio` loads as the same document with an empty portfolio. */
  lemma LegacyFileLoadsWithEmptyPortfolio(settings: Settings, categories: seq<Category>)
    ensures Load(Stored(RawDocument(settings, categories, None))) == Some(Document(settings, categories, []))
  {
  }

  /** Python's `next((c for c in categories if c['id'] == id), None)`, as a position. */
  function FindCategory(categories: seq<Category>, id: string): (r: Option<nat>)
    ensures r.Some? ==> r.value < |categories| && categories[r.value].id == id
    ensures r.Some? ==> forall j :: 0 <= j < r.value ==> categories[j].id != id
    ensures r.None? ==> forall j :: 0 <= j < |categories| ==> categories[j].id != id
  {
    if |categories| == 0 then None
    else if categories[0].id == id then Some(0)
    else match FindCategory(categories[1..], id)
      case None => None
      case Some(k) => Some(k + 1)
  }

  /** The lookup sees only the ids: two category lists with the same ids in the
      same order find the same position. */
  lemma FindCategoryDependsOnIds(a: seq<Category>, b: seq<Category>, id: string)
    requires |a| == |b|
    requires forall j :: 0 <= j < |a| ==> a[j].id == b[j].id
    ensures FindCategory(a, id) == FindCategory(b, id)
  {
  }

  /** Replaces the product list of the category at `k` and nothing else. */
  function WithProducts(doc: Document, k: nat, products: seq<Product>): (r: Document)
    requires k < |doc.categories|
    ensures r.settings == doc.settings && r.portfolio == doc.portfolio
    ensures |r.categories| == |doc.categories|
    ensures forall j :: 0 <= j < |doc.categories| && j != k ==> r.categories[j] == doc.categories[j]
    ensures r.categories[k] == doc.categories[k].(products := products)
    ensures forall id :: FindCategory(r.categories, id) == FindCategory(doc.categories, id)
  {
    var r := doc.(categories := doc.categories[k := doc.categories[k].(products := products)]);
    forall id ensures FindCategory(r.categories, id) == FindCategory(doc.categories, id) {
      FindCategoryDependsOnIds(r.categories, doc.categories, id);
    }
    r
  }
}
