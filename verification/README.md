# Catalogue of texts and categories: a Dafny model

This project models the core of a small FastAPI/SQLAlchemy catalogue of literary
texts (`textos`). Each text belongs to a category (`categorias`). The model covers:

- the two tables, their primary keys, the unique category name, the foreign key
  from `textos.categoria_id` to `categorias.id`, and the two-way relationship
  between the tables (`models.dfy`);
- the request and response shapes, and the validation that turns a JSON body
  into a `TextoCreate` or `CategoriaCreate` (`schemas.dfy`);
- the HTTP handlers (`catalogue.dfy`):
  - the read queries are functions over the tables;
  - the create, update and delete handlers are methods of a `Store` class that
    holds both tables and a fresh-id counter for each;
  - every method is tied to a pure table transition, and lemmas describe what
    a lookup by id answers after that transition;
- the keyword search: Python's `str.strip()`, case-insensitive containment in
  `titulo`, `descripcion` or `contenido`, the category attached to each answer,
  and "no matches" when nothing is selected (`strings.dfy`, `catalogue.dfy`);
- the one-off bulk loader (`bulk_insert.dfy`):
  - it commits every category first;
  - it then resolves each relato's `categoria_nombre` to a category id, skips
    and logs the names it cannot resolve, and commits the texts together;
  - an error in a phase rolls back that phase's uncommitted rows.

Tables are sequences of rows in insertion order rather than maps keyed by id.
A query's `.first()` is the first matching row, and `.filter(...).all()`
answers the matching rows in that order.

Two choices belong to the database configuration, which is not part of this model:

- Whether the foreign key is checked when a text is written is the store
  constant `enforceForeignKeys`. When it is set, writing a text whose category
  does not exist answers `Conflict` and changes nothing.
- Ids come from a per-table counter that starts at 1 and never hands out an id
  twice.

Behaviours of the code a reader might not expect:

- `GET /textos/{id}` returns the stored row. It does not attach the text's
  category; only the search does (`app/main.py:136`).
- `GET /textos/categoria/{id}` never answers 404. Its `is None` test cannot
  fire on a list, so an empty category answers an empty list.
- `DELETE /categoria/{id}` removes no text. `Categoria.textos` has no delete
  cascade (`app/models.py:26`), so the flush sets `categoria_id` to NULL on the
  deleted category's texts. `Texto.categoria_id` is therefore nullable
  (`Option<int>`).
- The search declares `List[schemas.Texto]` as its response, and that shape
  requires an integer `categoria_id`. A selected text whose `categoria_id` was
  nulled therefore fails response validation; the model answers
  `ResponseInvalid`.

## Model

| member | source | states |
|---|---|---|
| `Seqs.FirstIndex` | app/main.py:38 | A query's `.first()`: the first row satisfying the filter, and -1 exactly when no row does |
| `Seqs.Keep` | app/main.py:126 | A query's `.filter(...).all()`: a row is kept exactly when it is stored and passes the filter |
| `Seqs.KeepAppend` | app/main.py:126 | Filtering distributes over concatenation, so filtered results keep the stored order |
| `Strings.TrimStart` | app/main.py:138 | Drops exactly the leading whitespace: what remains is a suffix that does not start with whitespace, and everything dropped was whitespace |
| `Strings.TrimEnd` | app/main.py:138 | Drops exactly the trailing whitespace: what remains is a prefix that does not end with whitespace, and everything dropped was whitespace |
| `Strings.Strip` | app/main.py:138 | `palabra.strip()` is no longer than the keyword and neither starts nor ends with whitespace |
| `Strings.StripEmptyIffAllSpace` | app/main.py:137-138 | A keyword strips to "" exactly when it is all whitespace |
| `Strings.StripIdempotent` | app/main.py:138 | Stripping twice is stripping once |
| `Strings.Lower` | app/main.py:141-143 | ILIKE folds case character by character; the length is kept |
| `Strings.LowerIdempotent` | app/main.py:141-143 | Folding case twice is folding once |
| `Strings.IsInfixIff` | app/main.py:141-143 | The `%keyword%` scan succeeds exactly when the keyword occurs at some position of the field |
| `Strings.EmptyKeywordContained` | app/main.py:141-143 | The pattern `%%` matches every field |
| `Strings.ContainsFoldedIgnoresCase` | app/main.py:141-143 | Case-insensitive containment ignores the case of both the field and the keyword |
| `Strings.ContainsFoldedOccurs` | app/main.py:141-143 | A field contains the keyword case-insensitively exactly when the folded keyword occurs at some position of the folded field |
| `Schemas.ParseTextoCreate` | app/schemas.py:4-10 | A body is accepted exactly when all six `TextoBase` fields are present with their types. Otherwise it is rejected, naming exactly the bad fields. An accepted value carries the body's values for those fields |
| `Schemas.ParseCategoriaCreate` | app/schemas.py:12-17 | A body is accepted exactly when `nombre` is a string, and the value carries it; otherwise it is rejected naming `nombre` |
| `Schemas.TextoRoundTrip` | app/schemas.py:24-25 | Validation recovers every `TextoCreate` body a client can send |
| `Schemas.CategoriaRoundTrip` | app/schemas.py:16-17 | Validation recovers every `CategoriaCreate` body a client can send |
| `Schemas.TextoIgnoresOtherKeys` | app/schemas.py:4-10 | Keys outside the six fields (an `id` among them) do not change validation, so a caller cannot choose the stored id |
| `Schemas.CategoriaIgnoresOtherKeys` | app/schemas.py:12-17 | Keys other than `nombre` do not change validation |
| `Schemas.PartialBodyRejected` | app/main.py:48 | PUT requires a full `TextoCreate`: a body missing any one field is rejected, and that field is named |
| `Models.FindCategoria` | app/models.py:14 | The category a foreign key points to: found only with that id, and absent exactly when no stored category has it |
| `Models.NewTexto` | app/main.py:24 | The row the create handler builds from the validated body: its six fields, with a non-null `categoria_id`, under the id the store assigns |
| `Models.TextoIdsUnique` | app/models.py:8 | `id` is the primary key of `textos`: no two stored texts share it |
| `Models.CategoriaIdsUnique` | app/models.py:22 | `id` is the primary key of `categorias`: no two stored categories share it |
| `Models.NombresUnique` | app/models.py:23 | `nombre` is unique: no two stored categories share it |
| `Models.ForeignKeysHold` | app/models.py:14 | Every non-null `categoria_id` names a stored category |
| `Models.CategoriaOf` | app/models.py:17 | `Texto.categoria`: a stored category whose id is the text's `categoria_id`; absent exactly when the column is NULL or no stored category has that id |
| `Models.TextosOf` | app/models.py:26 | `Categoria.textos`: exactly the stored texts whose `categoria_id` is the category's id |
| `Models.FindsStoredCategoria` | app/models.py:22 | With a unique primary key, every stored category is found under its own id |
| `Models.RelationshipInverse` | app/models.py:17-26 | `Texto.categoria` and `Categoria.textos` are inverses: a stored text is in a stored category's `textos` exactly when that category is its `categoria` |
| `Models.OrphanInNoCategory` | app/models.py:14-26 | A text whose `categoria_id` is NULL or names no stored category is in no category's `textos` |
| `Models.ForeignKeysIffResolved` | app/models.py:14-17 | The foreign key holds exactly when every stored text with a non-null `categoria_id` resolves its `categoria` |
| `Catalogue.GetTextoById` | app/main.py:35-43 | Answers a stored row with that id, or NotFound exactly when no row has it |
| `Catalogue.GetCategoriaById` | app/main.py:88-96 | Answers a stored category with that id, or NotFound exactly when no category has it |
| `Catalogue.GetTextoByIdUnique` | app/main.py:38 | With a unique key, the lookup answers `t` exactly when `t` is the stored row holding that id |
| `Catalogue.ListedTextosAreFetchable` | app/main.py:29-43 | Every text `GET /textos` lists is what `GET /textos/{id}` answers for its id |
| `Catalogue.ListedCategoriasAreFetchable` | app/main.py:82-96 | Every category `GET /categorias` lists is what `GET /categorias/{id}` answers for its id |
| `Catalogue.TextosPorCategoria` | app/main.py:123-129 | Always succeeds; a text is listed exactly when it is stored and carries that `categoria_id` |
| `Catalogue.TextosPorCategoriaInOrder` | app/main.py:126 | The category filter keeps the stored order |
| `Catalogue.MatchesIffOccurs` | app/main.py:139-145 | `Matches`: a text matches exactly when the folded keyword occurs in the folded `titulo`, `descripcion` or `contenido` |
| `Catalogue.Selected` | app/main.py:137-145 | A text is selected exactly when there is no keyword or it matches the stripped keyword; the `if palabra:` guard changes nothing for "" |
| `Catalogue.SearchRows` | app/main.py:137-147 | The query returns exactly the stored texts the keyword selects, and no more rows than stored |
| `Catalogue.Serializable` | app/schemas.py:10 | The response shape `Texto` inherits `categoria_id: int`, so only a row with a non-null key has a response |
| `Catalogue.Responses` | app/main.py:150 | The answer `return textos` serialises: each row's response, in row order |
| `Catalogue.ToResponse` | app/main.py:136 | For a row with a `categoria_id`, the response keeps every column. It carries the category with that id, or none exactly when no stored category has it |
| `Catalogue.BuscarTextos` | app/main.py:131-150 | NotFound exactly when the search selects no stored text. ResponseInvalid exactly when a selected text has a NULL `categoria_id`. Otherwise a non-empty answer, no longer than the table |
| `Catalogue.BuscarComplete` | app/main.py:137-147 | When every selected text has a `categoria_id`, every stored text the keyword selects is in the answer, with its category |
| `Catalogue.BuscarSound` | app/main.py:137-147 | Every answer is the response of a stored text the keyword selects |
| `Catalogue.NoKeywordSelectsAll` | app/main.py:137 | Without a keyword, or with "", the search returns every stored text |
| `Catalogue.BlankKeywordSelectsAll` | app/main.py:137-145 | A keyword of whitespace only passes `if palabra:`, strips to "" and so also returns every stored text |
| `Catalogue.SearchRowsInOrder` | app/main.py:139-147 | The search answers in stored order |
| `Catalogue.MatchIgnoresKeywordCase` | app/main.py:141-143 | Matching does not depend on the case of the keyword |
| `Catalogue.OverwriteTexto` | app/main.py:53-58 | The table after `update_texto`; its effect is stated by `OverwriteTextoEffect` |
| `Catalogue.RemoveTexto` | app/main.py:69 | The table after `delete_textos`; its effect is stated by `RemoveTextoEffect` |
| `Catalogue.RenameCategoria` | app/main.py:104 | The table after `update_categoria`; its effect is stated by `RenameCategoriaEffect` |
| `Catalogue.RemoveCategoria` | app/main.py:116 | The table after `delete_categoria`; its effect is stated by `RemoveCategoriaEffect` |
| `Catalogue.SameRowsSameTexto` | app/main.py:38 | Two tables with unique keys that hold the same rows under an id answer the same lookup of it |
| `Catalogue.SameRowsSameCategoria` | app/main.py:91 | Two tables with unique keys that hold the same rows under an id answer the same lookup of it |
| `Catalogue.CreatedTextoFetchable` | app/main.py:21-26 | Appending a row under an unused id keeps the key unique. The new id answers the new row; every other id answers as before |
| `Catalogue.OverwriteTextoEffect` | app/main.py:47-59 | The update keeps the key unique and the table length. The id answers the row with the six input fields, or NotFound if it was missing; other ids answer as before |
| `Catalogue.RemoveTextoEffect` | app/main.py:63-70 | The delete keeps the key unique and the remaining rows in order. The id answers NotFound; other ids answer as before |
| `Catalogue.RemovedTextoKeys` | app/main.py:69 | Removing a row keeps the key unique and every id below the counter |
| `Catalogue.KeepWithoutId` | app/main.py:66-69 | With a unique key, deleting the first row with an id is filtering out every row with it |
| `Catalogue.RenameCategoriaEffect` | app/main.py:98-105 | Renaming keeps the key unique. The id answers the renamed category, or NotFound if it was missing; other ids answer as before |
| `Catalogue.RenameCategoriaKeepsKeys` | app/main.py:104 | Renaming keeps every id, the table length and the foreign keys. A name no other category holds keeps names unique |
| `Catalogue.RemoveCategoriaEffect` | app/main.py:110-117 | The delete keeps both keys unique, and the stored categories are exactly the old ones with a different id. The id answers NotFound; other ids answer as before |
| `Catalogue.RemovedCategoriaRows` | app/main.py:116 | After the delete, a category is stored exactly when it was stored before under a different id |
| `Catalogue.RemovedCategoriaKeys` | app/main.py:116 | Removing a category keeps both keys unique and every id below the counter |
| `Catalogue.DetachTextos` | app/models.py:26 | The texts after the category delete: the same texts in the same order, differing only in `categoria_id`. None refers to the deleted id; those that did are NULL, and every text of another category, or of none, is unchanged |
| `Catalogue.DetachedTextosKeepKeys` | app/main.py:116-117 | Detaching keeps the primary key of `textos` unique and every id below the counter |
| `Catalogue.DetachedTextosFetchable` | app/main.py:116-117 | No text is removed: every id answers a text after the delete exactly when it did before |
| `Catalogue.RemoveCategoriaKeepsForeignKeys` | app/main.py:110-117 | Deleting a category and detaching its texts keeps every foreign key valid, and no text refers to the deleted id |
| `Catalogue.ForeignKeysAfterDetach` | app/main.py:116 | Valid foreign keys stay valid when the category is removed and its texts are detached |
| `Catalogue.CategoriaRenameKeepsInvariants` | app/main.py:104-105 | A rename to a name no other category holds keeps the key, the unique name, the counter bound and the foreign keys |
| `Catalogue.CategoriaDeletionKeepsInvariants` | app/main.py:116-117 | The category delete keeps both keys, the unique name, both counter bounds and the foreign keys, and the deleted id is gone |
| `Catalogue.Store.Valid` | app/models.py:8-23 | The store invariant: both primary keys and the unique name hold, and every id lies below its table's counter |
| `Catalogue.Store.constructor` | app/main.py:19 | An empty database whose id counters both start at 1 |
| `Catalogue.Store.CreateTexto` | app/main.py:21-27 | Appends the text under a fresh id, which no stored text holds. With foreign keys enforced, a missing category answers Conflict and changes nothing. Keys stay unique |
| `Catalogue.Store.UpdateTexto` | app/main.py:47-60 | NotFound and no change for a missing id; Conflict under foreign-key enforcement for a missing category; otherwise overwrites the six fields of that row only |
| `Catalogue.Store.DeleteTexto` | app/main.py:63-71 | NotFound and no change for a missing id; otherwise removes that row and keeps the others in order. Afterwards the id answers NotFound |
| `Catalogue.Store.CreateCategoria` | app/main.py:74-80 | Appends the category under a fresh id; Conflict and no change when the name is already held. Foreign keys that held still hold |
| `Catalogue.Store.UpdateCategoria` | app/main.py:98-106 | NotFound for a missing id; Conflict when another category holds the name; otherwise renames that category only. Ids and foreign keys are kept |
| `Catalogue.Store.DeleteCategoria` | app/main.py:110-118 | NotFound and no change for a missing id. Otherwise removes that category and nulls the `categoria_id` of its texts, removing none. Afterwards the id answers NotFound, and foreign keys that held still hold |
| `BulkInsert.StagedCategorias` | app/scripts/bulk_insert.py:28-30 | The category rows the first loop adds, numbered from the counter in input order |
| `BulkInsert.ResolvedTexto` | app/scripts/bulk_insert.py:36-39 | A resolvable relato becomes a text whose `categoria_id` is the id of a stored category carrying its `categoria_nombre` |
| `BulkInsert.StageOne` | app/scripts/bulk_insert.py:35-42 | One pass of the second loop: raise without `categoria_nombre`, stage the resolved text, or log the name |
| `BulkInsert.StageRelatos` | app/scripts/bulk_insert.py:34-42 | The second loop over the relatos. When it completes, each relato yields one staged text or one logged name, and the staged texts carry consecutive ids from the counter |
| `BulkInsert.StageFailsIffKeyMissing` | app/scripts/bulk_insert.py:34-35 | The text phase raises exactly when some relato lacks `categoria_nombre` |
| `BulkInsert.StagedAreResolvedRelatos` | app/scripts/bulk_insert.py:34-40 | The staged texts are the resolvable relatos, in input order. Each carries its own fields, the id of the first category with its name, and consecutive ids |
| `BulkInsert.LoggedAreUnresolvedRelatos` | app/scripts/bulk_insert.py:41-42 | The names logged as not found are those of the unresolved relatos, in input order |
| `BulkInsert.StageCategoriaRows` | app/scripts/bulk_insert.py:28-30 | The first loop stages one category per record, with consecutive ids, in input order |
| `BulkInsert.StageRelatoRows` | app/scripts/bulk_insert.py:34-42 | The second loop computes exactly the staging of the relatos; the staged rows carry consecutive ids |
| `BulkInsert.BulkInsert` | app/scripts/bulk_insert.py:20-50 | A clashing name fails the category commit and changes nothing. Otherwise the categories are committed; a missing `categoria_nombre` then rolls back all texts, else the resolved texts are appended and the unresolved names reported. Keys stay unique |
| `BulkInsert.CommittedCategoriasKeepKeys` | app/scripts/bulk_insert.py:31 | Categories numbered from the counter keep the key unique and every id below the advanced counter |
| `BulkInsert.AppendedTextosKeepKeys` | app/scripts/bulk_insert.py:43 | Texts numbered from the counter keep the key unique and every id below the advanced counter |

## Left out

- HTTP wiring (FastAPI routes, status codes, `JSONResponse`, `jsonable_encoder`) is left out; outcomes are `Ok`, `NotFound`, `Conflict` and `ResponseInvalid`. The update and delete handlers return an `HTTPException` instead of raising it, so their 404 goes out with status 200; the model reports NotFound either way.
- The session, transactions and concurrency are left out: every handler runs alone, and a commit either succeeds or fails as a whole.
- `app/database.py` is not part of this model. Whether the foreign key is checked on write is the store constant `enforceForeignKeys`.
- Row order: no query has an `order_by` (`app/main.py:32`, `85`, `126`, `147`), so the database may return rows in any order. The model fixes insertion order for every answer, and `.first()` takes the first row in that order.
- Integer width: ids and `categoria_id` are unbounded integers. The `Integer` columns (`app/models.py:8`, `14`, `22`) are bounded, so a `categoria_id` that validation accepts but the column cannot hold fails the commit (`app/main.py:26`, `59`). The model stores it.
- Catalogue.Store.CreateTexto: the id counter never reuses an id. SQLite without AUTOINCREMENT may reuse the largest id after that row is deleted; the model does not capture this.
- Catalogue.Matches: ILIKE treats `%` and `_` in the keyword as wildcards; the model reads the keyword literally. Its case folding is ASCII only; a database collation may fold more characters.
- Schemas.ParseTextoCreate: pydantic's lax mode coerces some values (a numeric string to `int`, for instance); the model accepts only a JSON string for a `str` field and a JSON integer for an `int` field. Its rejected field list does not capture pydantic's error messages.
- The list handlers `GET /textos` and `GET /categorias` return the tables as stored; they are the `textos` and `categorias` fields and need no operation of their own. Their answers, like `GET /textos/{id}`, carry no resolved category.
- The second handler at `app/main.py:124` reuses the Python name `get_texto_by_id`. It shadows the first one at module level, but both routes stay registered; the model keeps them apart as `GetTextoById` and `TextosPorCategoria`.
- The root route at `app/main.py:153-155` returns a constant greeting and is left out.
- `cargar_json`, the printed messages and `db.close()` of the bulk loader are I/O. The model takes the parsed records as parameters. A completed run reports the names the loader printed as not found.
- BulkInsert.BulkInsert: `TextPhaseFailed` carries no names. The loader has already printed the unresolved names that came before the relato whose `pop` raised; the model does not report them.
- BulkInsert.BulkInsert: `categoria_nombre` is either missing (None) or a name. A JSON `null` there, which the loader would look up and log as not found, is not modelled.
- BulkInsert.BulkInsert: the only errors modelled are a clashing name at the category commit and a missing `categoria_nombre`. An extra key in a category record makes `Categoria(**...)` raise in the first loop, before the category commit, so the staged categories roll back and the text phase never runs. An extra key in a relato makes `Texto(**...)` raise, and a text commit can fail for other reasons; both roll back the texts only. None of these is modelled.
- BulkInsert.BulkInsert: a category record carries exactly `nombre`, and a relato exactly the five text fields and `categoria_nombre`, never an `id`. `Categoria(**...)` and `Texto(**...)` accept any subset of the column keywords: a record without `autor`, say, stores a NULL there without error, and a record with its own `id` bypasses the id counter, so a clash fails the commit at `app/scripts/bulk_insert.py:31` or `:43`. Neither is modelled.
- `static/script.py` (image conversion and directory listing) is file I/O over a foreign library and is not part of this model.
