# Candid Craft catalog editor — a Dafny model of its document and CRUD actions

The Candid Craft store manager is a small desktop editor (`editor.py`) for a
shop's catalog. The catalog is one JSON document. It holds store settings, an
ordered list of categories (each with an ordered list of products) and an
ordered portfolio gallery. The window's buttons change this document in memory
and write the whole thing back to disk. This project lifts those changes out of
the widget code as pure functions over immutable datatypes and proves what they
do.

Modules:

- `Catalog` (catalog.dfy) covers the store layer. It has the records (`Product`,
  `PortfolioItem`, `Category`, `Document`), the document as read from the file
  (`RawDocument`, whose `portfolio` may be missing), the default document, the
  schema patch, loading and saving, and the lookup of a category by id.
- `Editor` (editor.dfy) covers the control layer. It holds the mode (store or
  portfolio) and the selection. It also has the list on screen, new category,
  delete with confirmation, the editor form, the save upsert and the upload
  button.
- `Assets` (assets.dfy) covers image upload. That is `os.path.basename` /
  `os.path.join` for POSIX and Windows hosts, the copy-if-absent rule and the
  forward-slash relative path.
- `Text`, `Sequences` and `Wrappers` are helpers. They provide ASCII
  lower-casing, one-character replacement and decimal rendering of a timestamp;
  Python's `list.pop`, item assignment and `append`; and `Option` / `Result`.

Environment inputs are parameters. These are the answer of the yes/no question
(`confirmed`), the name typed into the category dialog (`Option<string>`, where
`None` means cancelled), the file picker's answer (a path, empty when
cancelled), the picked file's bytes, the files already on disk (a map from path
to bytes), the host's path conventions and the clock in whole seconds.

When a handler raises, the model returns `Failure`. This happens when the
selected category no longer exists (the code indexes `None`) or the index is
past the end of the list. Tk reports the exception and the document stays as it
was.

## Model

| member | source | states |
|---|---|---|
| Catalog.PatchSchema | editor.py:96-98 | after the patch `portfolio` is present; settings and categories are untouched; a document that had `portfolio` is returned unchanged, one without gets an empty list |
| Catalog.PatchSchemaIdempotent | editor.py:96-98 | applying the patch twice is the same as applying it once |
| Catalog.Migrate | editor.py:92-98 | the in-memory document is exactly the patched file contents, so saving it writes back the patched document |
| Catalog.Serialize | editor.py:104-107 | a saved file always carries the `portfolio` key |
| Catalog.EnsureFile | editor.py:83-90 | afterwards the file is never missing; a missing file becomes a stored document that loads as the default document; an existing file is left as it is |
| Catalog.Load | editor.py:82-102 | a missing file loads as the default document (placeholder settings, no categories, no portfolio); an unparsable file and only that yields no document; a readable file loads as its patched contents |
| Catalog.SaveThenLoad | editor.py:104-107 | loading a file written by save gives back exactly the saved document |
| Catalog.LegacyFileLoadsWithEmptyPortfolio | editor.py:96-98 | a file without `portfolio` loads as the same settings and categories with an empty portfolio |
| Catalog.FindCategory | editor.py:159 | the result is the first position whose id matches; no match means no category has that id |
| Catalog.FindCategoryDependsOnIds | editor.py:159 | the lookup depends only on the sequence of ids, so changing a category's products never changes which category is selected |
| Catalog.WithProducts | editor.py:247-249 | replacing one category's products changes no other category, not its id/name/icon, not settings or portfolio, and no category lookup |
| Text.Lower | editor.py:146 | lower-casing keeps the length, maps each ASCII capital to its small letter and keeps every other character |
| Text.Replace | editor.py:146 | replacement keeps the length and changes exactly the positions holding the searched character |
| Text.NatToString | editor.py:239 | `str(n)` is a non-empty string of decimal digits with no leading zero |
| Text.ParseNatToString | editor.py:239 | reading the decimal string back gives the number, so the id determines the clock value |
| Text.NatToStringInjective | editor.py:239 | two ids made from the clock are equal exactly when the clock readings are equal |
| Sequences.RemoveAt | editor.py:193-195 | `pop(i)` leaves one element fewer, keeps the elements before `i` in place, shifts the ones after down by one, and removes exactly one occurrence of the element at `i` |
| Sequences.Upsert | editor.py:247-257 | with no index the record is appended after the unchanged list; with an index inside the list only that position changes; an index past the end fails |
| Assets.Basename | editor.py:224 | the file name is a suffix of the picked path, contains no separator of the host, and is preceded by a separator when shorter than the path |
| Assets.JoinShape | editor.py:226 | the destination is the directory, one separator of the host, then the file name |
| Assets.RelativePath | editor.py:232 | the stored path has no backslash and the length of `dir + "/" + name`; a backslash-free directory followed by `/` is its prefix; each character of the name follows, with `\` turned into `/`; it equals `dir + "/" + name` when neither contains a backslash |
| Assets.UploadImage | editor.py:221-233 | a cancelled pick changes nothing; otherwise the destination is added to the files, an existing file is never altered, the picked bytes land only at a free destination, and the image path is the relative path of the base name |
| Assets.UploadSameNameTwice | editor.py:228-233 | uploading a second file with an already present name changes no file and yields the same image path |
| Assets.RelativePathIsNormalisedJoin | editor.py:232 | for any directory the stored path is `dir + "\\" + name` with every backslash turned into a slash |
| Assets.WindowsPathNamesCopiedFile | editor.py:226-232 | on Windows the stored path is the copy's destination with backslashes turned into slashes |
| Assets.PosixPathNamesCopiedFileIff | editor.py:226-232 | on POSIX the stored path equals the copy's destination if and only if the file name contains no backslash |
| Editor.SelectCategory | editor.py:128-130 | choosing a category switches to store mode and selects its id, so on any document the selected position is the lookup of that id |
| Editor.SwitchToPortfolio | editor.py:135-137 | the portfolio button switches to portfolio mode with the portfolio sentinel selected, and on any document the list shown is the portfolio |
| Editor.SelectedCategory | editor.py:159 | a found position is the first one holding a category with the selected id; when none is found no category has that id |
| Editor.ActiveItems | editor.py:157-162 | in portfolio mode the rows are the portfolio in order; in store mode they are the products of the selected category in order, or none when no category matches |
| Editor.SelectCategoryShowsItsProducts | editor.py:157-162 | choosing a category whose id no earlier category shares lists exactly its products |
| Editor.InitialShowsNothing | editor.py:31-32 | before anything is chosen (store mode, no selection) the list is empty |
| Editor.DuplicateIdShowsEarlierCategory | editor.py:159 | when two categories share an id, choosing the later one lists the earlier one's products |
| Editor.SwitchToPortfolioShowsPortfolio | editor.py:161-162 | after the portfolio button the rows are exactly the portfolio |
| Editor.Slug | editor.py:146 | the slug has the name's length, no spaces and no ASCII capitals; each space becomes `-` and each other character is ASCII lower-cased |
| Editor.SlugIdempotent | editor.py:146 | slugging a slug changes nothing |
| Editor.AddCategory | editor.py:142-150 | a cancelled or empty name leaves the document unchanged; otherwise one category is appended after the unchanged list, with the slug as id, the name as given, icon `fa-box` and no products, and settings and portfolio unchanged |
| Editor.DeleteItem | editor.py:189-198 | a declined confirmation changes nothing; a missing selected category fails; when the list exists, an index past its end fails with IndexError and an index inside it succeeds; a success in store mode changes only the selected category's products and in portfolio mode only the portfolio |
| Editor.DeleteRemovesRow | editor.py:189-195 | a confirmed delete of a listed row succeeds and the list on screen becomes the old list without that row, the others in their order |
| Editor.OpenForm | editor.py:213-219 | a new item opens an empty form; an existing one fills title, price, description, WhatsApp code and image from the record, with keys of the other record kind reading as empty |
| Editor.ItemId | editor.py:239 | the id read from the edited record, product or portfolio item |
| Editor.ItemFeatured | editor.py:245 | the edited record counts as featured exactly when it is a product whose flag is present and true |
| Editor.RecordId | editor.py:239 | an edit keeps the record's own id; a new record's id is a digit string without leading zero that reads back as the clock |
| Editor.NewProduct | editor.py:238-246 | the saved product takes every field from the form, keeps the edited record's id and featured flag (false when absent) and is not featured when new |
| Editor.NewPortfolioItem | editor.py:251-255 | the saved portfolio record has the form's title and image and the id rule of products |
| Editor.SaveItem | editor.py:235-257 | a missing selected category fails; when the list exists, an index past its end fails with IndexError and anything else succeeds; a store save changes only the selected category's products and a portfolio save only the portfolio |
| Editor.EditKeepsIdentity | editor.py:239-248 | saving an edit of product row `i` replaces only row `i`, with the old id, the old featured flag (false when absent) and the form's fields |
| Editor.CreateAppendsProduct | editor.py:238-249 | saving a new product appends exactly one row at the end, not featured, whose id is the clock in decimal |
| Editor.StoreSaveUpserts | editor.py:238-249 | a store save with the selected category present and the index inside the list succeeds; the product built from the form lands at row `index` or is appended at the end, whichever record the form was opened on, and every other row stays in place |
| Editor.PortfolioSaveUpserts | editor.py:251-257 | a portfolio save writes an id/title/image record at the edited row or appends it, leaving every other row in place |
| Editor.UnchangedProductEditIsNoOp | editor.py:213-248 | opening a product and saving the form untouched leaves the document exactly as it was when the product has a featured flag; without one, the only change is that the row gains `featured = false` |
| Editor.UnchangedPortfolioEditIsNoOp | editor.py:213-256 | opening a portfolio item and saving the form untouched leaves the document exactly as it was |
| Editor.ImageDir | editor.py:225 | uploads go to the product image directory in store mode and to the portfolio directory otherwise; neither contains a backslash |
| Editor.SelectImage | editor.py:221-233 | a cancelled pick changes nothing; otherwise only the form's image field changes: the mode's directory, `/`, then the file name with each `\` turned into `/`, so no backslash; the files become exactly those of the copy-if-absent upload into that directory, and existing files are never altered |

## Left out

- Widget construction, layout, card rendering, header text and button state (editor.py:17-79, 113-126, 167-186, 263-283) are presentation only.
- Reading and writing the JSON file, `os.makedirs` and `shutil.copy` are I/O. The file is modelled as missing, unparsable or holding a document. The asset files are modelled as a map from path to bytes.
- `messagebox`, `filedialog` and `CTkInputDialog` are foreign UI calls. Their answers are parameters.
- `time.time()` reads the wall clock. It is passed in as a natural number of seconds, already truncated by `int()`.
- Editor.Slug: lower-cases ASCII letters only, through Text.Lower. A category name with non-ASCII capitals gets a slug that Python's `str.lower()` would fold further.
- Text.Lower: folds ASCII letters only. Python's `str.lower()` also folds non-ASCII letters, which would need the Unicode tables.
- Assets.Basename: does not strip a Windows drive prefix (`C:name.png`). Paths returned by the picker have a separator after the drive, so the last-separator rule gives the same name for them. UNC share roots are also not modelled.
- Assets.Join: only covers a directory without a trailing separator joined with a bare file name. That is the only way the editor calls it.
- Saving reports write failures but keeps the in-memory document. The model has no save failure, because the document is the same either way.
- Assets.UploadImage: decides whether to skip the copy by exact comparison of path strings. On Windows `os.path.exists` ignores letter case and treats `/` and `\` alike. There, picking `photo.png` while `Photo.PNG` exists skips the copy, but the model adds a new entry. The case-insensitive file system is not modelled.
- Records with keys beyond the listed ones are not modelled. The save handler builds a new record from the listed keys only, so in the editor an edit drops any other key the record carried. Editor.UnchangedProductEditIsNoOp and Editor.UnchangedPortfolioEditIsNoOp hold for records with exactly the listed keys.
- Files whose top level is not an object, or that lack `settings` or `categories`, are not modelled. A product missing a key other than `featured`, or whose `featured` is not a boolean, is not modelled either.
- Id uniqueness is not enforced by the editor and is not claimed here. `Editor.DuplicateIdShowsEarlierCategory` states what happens instead.
- A Python dictionary that is empty counts as "no item" in the save handler. Records in this model always have their keys, so this case does not arise.
- Negative list indexes are not modelled. Row indexes come from `enumerate` and are never negative.
