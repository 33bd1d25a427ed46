/** The catalog editor's control layer: which list is on screen, and the
    add / delete / save / upload actions the window's buttons apply to the
    document. Dialog answers, the clock and the picked file are parameters. */
module Editor {
  import opened Wrappers
  import opened Text
  import opened Sequences
  import opened Catalog
  import Assets

  datatype Mode = StoreMode | PortfolioMode

  /** `selection` is the id of the chosen category, or the portfolio sentinel. */
  datatype EditorState = EditorState(mode: Mode, selection: Option<string>)

  const PortfolioSentinel: string := "portfolio"

  /** Before anything is chosen: store mode with no selection. */
  const Initial: EditorState := EditorState(StoreMode, None)

  /** A row of the on-screen list: a product or a portfolio item. */
  datatype Item = ProductEntry(product: Product) | GalleryEntry(entry: PortfolioItem)

  /** Why a handler raised: the selected category is gone (`None['products']`),
      or the index is past the end of the list (IndexError). */
  datatype Fault = MissingCategory | IndexOutOfRange

  const NewCategoryIcon: string := "fa-box"

  function SelectCategory(category: Category): (ed: EditorState)
    ensures ed.mode == StoreMode && ed.selection == Some(category.id)
    ensures forall doc: Document :: SelectedCategory(doc, ed) == FindCategory(doc.categories, category.id)
  {
    EditorState(StoreMode, Some(category.id))
  }

  function SwitchToPortfolio(): (ed: EditorState)
    ensures ed.mode == PortfolioMode && ed.selection == Some(PortfolioSentinel)
    ensures forall doc: Document :: ActiveItems(doc, ed) == GalleryEntries(doc.portfolio)
  {
    EditorState(PortfolioMode, Some(PortfolioSentinel))
  }

  /** The position of the category the editor has selected, if any category has that id. */
  function SelectedCategory(doc: Document, ed: EditorState): (r: Option<nat>)
    ensures r.Some? ==> ed.selection.Some? && r.value < |doc.categories| && doc.categories[r.value].id == ed.selection.value
    ensures r.Some? ==> forall j :: 0 <= j < r.value ==> doc.categories[j].id != ed.selection.value
    ensures r.None? && ed.selection.Some? ==> forall j :: 0 <= j < |doc.categories| ==> doc.categories[j].id != ed.selection.value
  {
    match ed.selection
    case None => None
    case Some(id) => FindCategory(doc.categories, id)
  }

  function ProductEntries(products: seq<Product>): seq<Item> {
    MapSeq(p => ProductEntry(p), products)
  }

  function GalleryEntries(items: seq<PortfolioItem>): seq<Item> {
    MapSeq(g => GalleryEntry(g), items)
  }

  /** The list on screen: the products of the first category whose id is the
      selection (empty when there is none), or the portfolio. */
  function ActiveItems(doc: Document, ed: EditorState): (r: seq<Item>)
    ensures ed.mode == PortfolioMode ==>
              |r| == |doc.portfolio| && forall j :: 0 <= j < |r| ==> r[j] == GalleryEntry(doc.portfolio[j])
    ensures ed.mode == StoreMode && SelectedCategory(doc, ed).None? ==> r == []
    ensures ed.mode == StoreMode && SelectedCategory(doc, ed).Some? ==>
              var ps := doc.categories[SelectedCategory(doc, ed).value].products;
              |r| == |ps| && forall j :: 0 <= j < |r| ==> r[j] == ProductEntry(ps[j])
  {
    match ed.mode
    case PortfolioMode => GalleryEntries(doc.portfolio)
    case StoreMode =>
      match SelectedCategory(doc, ed)
      case None => []
      case Some(k) => ProductEntries(doc.categories[k].products)
  }

  /** Choosing a category shows its products, provided no earlier category has the same id. */
  lemma SelectCategoryShowsItsProducts(doc: Document, k: nat)
    requires k < |doc.categories|
    requires forall j :: 0 <= j < k ==> doc.categories[j].id != doc.categories[k].id
    ensures ActiveItems(doc, SelectCategory(doc.categories[k])) == ProductEntries(doc.categories[k].products)
  {
  }

  /** Ids are not kept unique: choosing a category whose id an earlier category
      shares shows the earlier category's products. */
  lemma DuplicateIdShowsEarlierCategory(doc: Document, i: nat, k: nat)
    requires i < k < |doc.categories|
    requires doc.categories[i].id == doc.categories[k].id
    requires forall j :: 0 <= j < i ==> doc.categories[j].id != doc.categories[i].id
    ensures ActiveItems(doc, SelectCategory(doc.categories[k])) == ProductEntries(doc.categories[i].products)
  {
  }

  /** Before a category or the portfolio is chosen the list is empty. */
  lemma InitialShowsNothing(doc: Document)
    ensures ActiveItems(doc, Initial) == []
  {
  }

  lemma SwitchToPortfolioShowsPortfolio(doc: Document)
    ensures ActiveItems(doc, SwitchToPortfolio()) == GalleryEntries(doc.portfolio)
  {
  }

  /** The id of a new category: lower-cased name with spaces turned into hyphens. */
  function Slug(name: string): (r: string)
    ensures |r| == |name|
    ensures ' ' !in r
    ensures forall i :: 0 <= i < |r| ==> !IsUpperAscii(r[i])
    ensures forall i :: 0 <= i < |r| ==> r[i] == (if name[i] == ' ' then '-' else LowerChar(name[i]))
  {
    ReplaceRemovesAll(Lower(name), ' ', '-');
    Replace(Lower(name), ' ', '-')
  }

  lemma SlugIdempotent(name: string)
    ensures Slug(Slug(name)) == Slug(name)
  {
  }

  /** The "new category" button. `input` is the dialog's answer: `None` when
      cancelled; an empty name is ignored like a cancel. */
  function AddCategory(doc: Document, input: Option<string>): (r: Document)
    ensures input.None? || input.value == [] ==> r == doc
    ensures input.Some? && input.value != [] ==>
              && r.settings == doc.settings && r.portfolio == doc.portfolio
              && |r.categories| == |doc.categories| + 1
              && r.categories[..|doc.categories|] == doc.categories
              && r.categories[|doc.categories|] == Category(Slug(input.value), input.value, NewCategoryIcon, [])
  {
    match input
    case Some(name) =>
      if name == [] then doc
      else doc.(categories := doc.categories + [Category(Slug(name), name, NewCategoryIcon, [])])
    case None => doc
  }

  /** The delete button of row `index`, after the yes/no question was answered `confirmed`. */
  function DeleteItem(doc: Document, ed: EditorState, index: nat, confirmed: bool): (r: Result<Document, Fault>)
    ensures !confirmed ==> r == Success(doc)
    ensures confirmed && ed.mode == StoreMode && SelectedCategory(doc, ed).None? ==> r == Failure(MissingCategory)
    ensures confirmed && r.Failure? && r.error == IndexOutOfRange ==> index >= |ActiveItems(doc, ed)|
    ensures confirmed && index < |ActiveItems(doc, ed)| ==> r.Success?
    ensures && confirmed
            && (ed.mode == PortfolioMode || SelectedCategory(doc, ed).Some?)
            && index >= |ActiveItems(doc, ed)|
            ==> r == Failure(IndexOutOfRange)
    ensures confirmed && r.Success? && ed.mode == PortfolioMode ==>
              r.value.settings == doc.settings && r.value.categories == doc.categories
    ensures confirmed && r.Success? && ed.mode == StoreMode ==>
              var k := SelectedCategory(doc, ed).value;
              && r.value.settings == doc.settings && r.value.portfolio == doc.portfolio
              && |r.value.categories| == |doc.categories|
              && (forall j :: 0 <= j < |doc.categories| && j != k ==> r.value.categories[j] == doc.categories[j])
              && r.value.categories[k].id == doc.categories[k].id
              && r.value.categories[k].name == doc.categories[k].name
              && r.value.categories[k].icon == doc.categories[k].icon
  {
    if !confirmed then Success(doc)
    else match ed.mode
      case StoreMode =>
        (match SelectedCategory(doc, ed)
         case None => Failure(MissingCategory)
         case Some(k) =>
           var ps := doc.categories[k].products;
           if index < |ps| then Success(WithProducts(doc, k, RemoveAt(ps, index))) else Failure(IndexOutOfRange))
      case PortfolioMode =>
        if index < |doc.portfolio| then Success(doc.(portfolio := RemoveAt(doc.portfolio, index)))
        else Failure(IndexOutOfRange)
  }

  /** A confirmed delete removes exactly the row at `index`; the other rows keep their order. */
  lemma DeleteRemovesRow(doc: Document, ed: EditorState, index: nat)
    requires index < |ActiveItems(doc, ed)|
    ensures DeleteItem(doc, ed, index, true).Success?
    ensures ActiveItems(DeleteItem(doc, ed, index, true).value, ed) == RemoveAt(ActiveItems(doc, ed), index)
  {
  }

  /** The editor form's fields. `title` is the product name or the portfolio title. */
  datatype Form = Form(title: string, price: string, description: string, whatsappCode: string, image: string)

  const EmptyForm: Form := Form("", "", "", "", "")

  /** The form as the editor opens it: empty for a new item, otherwise filled
      from the record, a missing key reading as the empty string. */
  function OpenForm(mode: Mode, item: Option<Item>): (f: Form)
    ensures item.None? ==> f == EmptyForm
    ensures item.Some? && item.value.ProductEntry? ==>
              var p := item.value.product;
              && f.title == (if mode == StoreMode then p.name else "")
              && f.price == p.price && f.description == p.description
              && f.whatsappCode == p.whatsappCode && f.image == p.image
    ensures item.Some? && item.value.GalleryEntry? ==>
              var g := item.value.entry;
              f == Form(if mode == PortfolioMode then g.title else "", "", "", "", g.image)
  {
    match item
    case None => EmptyForm
    case Some(ProductEntry(p)) =>
      Form(if mode == StoreMode then p.name else "", p.price, p.description, p.whatsappCode, p.image)
    case Some(GalleryEntry(g)) =>
      Form(if mode == PortfolioMode then g.title else "", "", "", "", g.image)
  }

  /** `item['id']` for either kind of record. */
  function ItemId(item: Item): (id: string)
    ensures item.ProductEntry? ==> id == item.product.id
    ensures item.GalleryEntry? ==> id == item.entry.id
  {
    match item
    case ProductEntry(p) => p.id
    case GalleryEntry(g) => g.id
  }

  /** `item.get('featured', False)`: a portfolio record has no flag, nor does a product without the key. */
  function ItemFeatured(item: Item): (b: bool)
    ensures b <==> item.ProductEntry? && item.product.featured == Some(true)
  {
    match item
    case ProductEntry(p) => p.featured.GetOr(false)
    case GalleryEntry(_) => false
  }

  /** The id of the saved record: the edited record's own, or the clock in whole seconds. */
  function RecordId(item: Option<Item>, clock: nat): (id: string)
    ensures item.Some? ==> id == ItemId(item.value)
    ensures item.None? ==> |id| >= 1 && AllDigits(id) && ParseDigits(id) == clock
    ensures item.None? ==> (id[0] == '0' ==> |id| == 1)
  {
    ParseNatToString(clock);
    match item
    case Some(it) => ItemId(it)
    case None => NatToString(clock)
  }

  /** The product record the store-mode save builds from the form. */
  function NewProduct(item: Option<Item>, form: Form, clock: nat): (p: Product)
    ensures p.id == RecordId(item, clock)
    ensures p.name == form.title && p.price == form.price && p.description == form.description
    ensures p.whatsappCode == form.whatsappCode && p.image == form.image
    ensures item.None? ==> p.featured == Some(false)
    ensures item.Some? ==> p.featured == Some(ItemFeatured(item.value))
  {
    Product(
      RecordId(item, clock), form.title, form.price, form.description, form.whatsappCode, form.image,
      Some(if item.Some? then ItemFeatured(item.value) else false))
  }

  /** The portfolio record the portfolio-mode save builds from the form. */
  function NewPortfolioItem(item: Option<Item>, form: Form, clock: nat): (g: PortfolioItem)
    ensures g.id == RecordId(item, clock) && g.title == form.title && g.image == form.image
  {
    PortfolioItem(RecordId(item, clock), form.title, form.image)
  }

  /** The form's save button. `item` and `index` are the record and row being
      edited (both `None` for a new record); the record replaces row `index`,
      or is appended when there is no index. */
  function SaveItem(doc: Document, ed: EditorState, item: Option<Item>, index: Option<nat>, form: Form, clock: nat): (r: Result<Document, Fault>)
    ensures ed.mode == StoreMode && SelectedCategory(doc, ed).None? ==> r == Failure(MissingCategory)
    ensures r.Failure? && r.error == IndexOutOfRange ==> index.Some? && index.value >= |ActiveItems(doc, ed)|
    ensures && (ed.mode == PortfolioMode || SelectedCategory(doc, ed).Some?)
            && (index.None? || index.value < |ActiveItems(doc, ed)|)
            ==> r.Success?
    ensures && (ed.mode == PortfolioMode || SelectedCategory(doc, ed).Some?)
            && index.Some? && index.value >= |ActiveItems(doc, ed)|
            ==> r == Failure(IndexOutOfRange)
    ensures r.Success? && ed.mode == PortfolioMode ==>
              r.value.settings == doc.settings && r.value.categories == doc.categories
    ensures r.Success? && ed.mode == StoreMode ==>
              var k := SelectedCategory(doc, ed).value;
              && r.value.settings == doc.settings && r.value.portfolio == doc.portfolio
              && |r.value.categories| == |doc.categories|
              && (forall j :: 0 <= j < |doc.categories| && j != k ==> r.value.categories[j] == doc.categories[j])
              && r.value.categories[k].id == doc.categories[k].id
              && r.value.categories[k].name == doc.categories[k].name
              && r.value.categories[k].icon == doc.categories[k].icon
  {
    match ed.mode
    case StoreMode =>
      var p := NewProduct(item, form, clock);
      (match SelectedCategory(doc, ed)
       case None => Failure(MissingCategory)
       case Some(k) =>
         (match Upsert(doc.categories[k].products, index, p)
          case Some(ps) => Success(WithProducts(doc, k, ps))
          case None => Failure(IndexOutOfRange)))
    case PortfolioMode =>
      var g := NewPortfolioItem(item, form, clock);
      match Upsert(doc.portfolio, index, g)
      case Some(gs) => Success(doc.(portfolio := gs))
      case None => Failure(IndexOutOfRange)
  }

  /** Saving an edit of product row `i` keeps the product's id and featured flag,
      takes every other field from the form, and leaves the other rows as they were. */
  lemma EditKeepsIdentity(doc: Document, ed: EditorState, i: nat, form: Form, clock: nat)
    requires ed.mode == StoreMode
    requires i < |ActiveItems(doc, ed)|
    ensures var before := ActiveItems(doc, ed);
            var p := before[i].product;
            var r := SaveItem(doc, ed, Some(before[i]), Some(i), form, clock);
            && r.Success?
            && ActiveItems(r.value, ed) == before[i := ProductEntry(
                 Product(p.id, form.title, form.price, form.description, form.whatsappCode, form.image,
                         Some(p.featured.GetOr(false))))]
  {
  }

  /** Saving a new product appends one row at the end, not featured, whose id is
      the clock reading written in decimal. */
  lemma CreateAppendsProduct(doc: Document, ed: EditorState, form: Form, clock: nat)
    requires ed.mode == StoreMode && SelectedCategory(doc, ed).Some?
    ensures var r := SaveItem(doc, ed, None, None, form, clock);
            && r.Success?
            && ActiveItems(r.value, ed) == ActiveItems(doc, ed) + [ProductEntry(
                 Product(NatToString(clock), form.title, form.price, form.description, form.whatsappCode, form.image,
                         Some(false)))]
  {
  }

  /** In store mode a save writes the product built from the form at row `index`,
      whichever record the form was opened on, or appends it; every other row stays in place. */
  lemma StoreSaveUpserts(doc: Document, ed: EditorState, item: Option<Item>, index: Option<nat>, form: Form, clock: nat)
    requires ed.mode == StoreMode && SelectedCategory(doc, ed).Some?
    requires index.None? || index.value < |ActiveItems(doc, ed)|
    ensures var before := ActiveItems(doc, ed);
            var p := ProductEntry(NewProduct(item, form, clock));
            var r := SaveItem(doc, ed, item, index, form, clock);
            && r.Success?
            && ActiveItems(r.value, ed) == (if index.Some? then before[index.value := p] else before + [p])
  {
  }

  /** In the portfolio a save writes a record of exactly id, title and image:
      at the row being edited, keeping its id, or appended with a clock id. */
  lemma PortfolioSaveUpserts(doc: Document, item: Option<Item>, index: Option<nat>, form: Form, clock: nat)
    requires index.None? || index.value < |doc.portfolio|
    ensures var ed := SwitchToPortfolio();
            var before := ActiveItems(doc, ed);
            var g := GalleryEntry(PortfolioItem(if item.Some? then ItemId(item.value) else NatToString(clock), form.title, form.image));
            var r := SaveItem(doc, ed, item, index, form, clock);
            && r.Success?
            && ActiveItems(r.value, ed) == (if index.Some? then before[index.value := g] else before + [g])
  {
    var ed := SwitchToPortfolio();
    var g := NewPortfolioItem(item, form, clock);
    var after := SaveItem(doc, ed, item, index, form, clock);
    match index
    case Some(i) =>
      assert after == Success(doc.(portfolio := doc.portfolio[i := g]));
      MapUpdate(x => GalleryEntry(x), doc.portfolio, i, g);
    case None =>
      assert after == Success(doc.(portfolio := doc.portfolio + [g]));
      MapAppend(x => GalleryEntry(x), doc.portfolio, g);
  }

  /** Opening a product and saving it untouched writes the record back as it was,
      except that a missing featured flag is written as false. */
  lemma UnchangedProductEditIsNoOp(doc: Document, ed: EditorState, i: nat, clock: nat)
    requires ed.mode == StoreMode
    requires i < |ActiveItems(doc, ed)|
    ensures var item := ActiveItems(doc, ed)[i];
            var p := item.product;
            var r := SaveItem(doc, ed, Some(item), Some(i), OpenForm(StoreMode, Some(item)), clock);
            && r.Success?
            && (p.featured.Some? ==> r.value == doc)
            && (p.featured.None? ==>
                  ActiveItems(r.value, ed) == ActiveItems(doc, ed)[i := ProductEntry(p.(featured := Some(false)))])
  {
    var k := SelectedCategory(doc, ed).value;
    var ps := doc.categories[k].products;
    var item := ActiveItems(doc, ed)[i];
    assert item.product == ps[i];
    EditKeepsIdentity(doc, ed, i, OpenForm(StoreMode, Some(item)), clock);
    if ps[i].featured.Some? {
      assert ps[i := ps[i]] == ps;
      assert doc.categories[k := doc.categories[k]] == doc.categories;
    }
  }

  /** Opening a portfolio item and saving it untouched leaves the document as it was. */
  lemma UnchangedPortfolioEditIsNoOp(doc: Document, i: nat, clock: nat)
    requires i < |doc.portfolio|
    ensures var item := GalleryEntry(doc.portfolio[i]);
            SaveItem(doc, SwitchToPortfolio(), Some(item), Some(i), OpenForm(PortfolioMode, Some(item)), clock) == Success(doc)
  {
    assert doc.portfolio[i := doc.portfolio[i]] == doc.portfolio;
  }

  /** The asset directory an upload goes to. */
  function ImageDir(mode: Mode): (dir: string)
    ensures '\\' !in dir
    ensures mode == StoreMode ==> dir == Assets.ProductImageDir
    ensures mode == PortfolioMode ==> dir == Assets.PortfolioImageDir
  {
    if mode == StoreMode then Assets.ProductImageDir else Assets.PortfolioImageDir
  }

  /** The form's upload button: copy the picked file unless its name is taken,
      and put its relative path in the form's image field. */
  function SelectImage(host: Assets.Host, mode: Mode, files: Assets.Files, picked: string, content: seq<bv8>, form: Form): (r: (Assets.Files, Form))
    ensures picked == [] ==> r == (files, form)
    ensures picked != [] ==>
              var name := Assets.Basename(host, picked);
              && r.1 == form.(image := r.1.image)
              && '\\' !in r.1.image
              && |r.1.image| == |ImageDir(mode)| + 1 + |name|
              && r.1.image[..|ImageDir(mode)| + 1] == ImageDir(mode) + "/"
              && r.1.image[|ImageDir(mode)| + 1..] == Replace(name, '\\', '/')
              && ('\\' !in name ==> r.1.image == ImageDir(mode) + "/" + name)
    ensures r.0 == Assets.UploadImage(host, ImageDir(mode), files, picked, content).files
    ensures forall f :: f in files ==> f in r.0 && r.0[f] == files[f]
  {
    var dir := ImageDir(mode);
    var u := Assets.UploadImage(host, dir, files, picked, content);
    if picked == [] then (u.files, form)
    else
      var name := Assets.Basename(host, picked);
      var path := Assets.RelativePath(dir, name);
      assert u.image == Some(path);
      assert '\\' !in name ==> path == dir + "/" + name;
      (u.files, form.(image := path))
  }
}
