/** The catalogue operations behind the HTTP handlers: read queries as functions
    over the two tables, and the store whose create, update and delete handlers
    change those tables. */
module Catalogue {
  import opened Outcomes
  import opened Seqs
  import opened Strings
  import opened Schemas
  import opened Models

  // ---------------------------------------------------------------- reads

  /** GET /textos/{id}: the text with this id, or NotFound. */
  function GetTextoById(ts: seq<Texto>, id: int): (r: Outcome<Texto>)
    ensures r.Ok? || r.NotFound?
    ensures r.Ok? ==> r.value in ts && r.value.id == id
    ensures r.NotFound? <==> forall t :: t in ts ==> t.id != id
  {
    var i := TextoIndex(ts, id);
    if i == -1 then NotFound else Ok(ts[i])
  }

  /** GET /categorias/{id}: the category with this id, or NotFound. */
  function GetCategoriaById(cs: seq<Categoria>, id: int): (r: Outcome<Categoria>)
    ensures r.Ok? || r.NotFound?
    ensures r.Ok? ==> r.value in cs && r.value.id == id
    ensures r.NotFound? <==> forall c :: c in cs ==> c.id != id
  {
    match FindCategoria(cs, id)
    case None => NotFound
    case Some(c) => Ok(c)
  }

  /** With a unique primary key, a lookup by id answers with the one row holding that id. */
  lemma GetTextoByIdUnique(ts: seq<Texto>, id: int, t: Texto)
    requires TextoIdsUnique(ts)
    ensures GetTextoById(ts, id) == Ok(t) <==> t in ts && t.id == id
  {
    if t in ts && t.id == id {
      var j :| 0 <= j < |ts| && ts[j] == t;
      assert HasTextoId(id)(ts[j]);
    }
  }

  /** GET /textos lists every stored text, and each listed text is what GET /textos/{id} returns for its id. */
  lemma ListedTextosAreFetchable(ts: seq<Texto>)
    requires TextoIdsUnique(ts)
    ensures forall t :: t in ts ==> GetTextoById(ts, t.id) == Ok(t)
  {
    forall t | t in ts ensures GetTextoById(ts, t.id) == Ok(t) {
      GetTextoByIdUnique(ts, t.id, t);
    }
  }

  /** GET /categorias lists every stored category, and each is what GET /categorias/{id} returns for its id. */
  lemma ListedCategoriasAreFetchable(cs: seq<Categoria>)
    requires CategoriaIdsUnique(cs)
    ensures forall c :: c in cs ==> GetCategoriaById(cs, c.id) == Ok(c)
  {
    forall c | c in cs ensures GetCategoriaById(cs, c.id) == Ok(c) {
      FindsStoredCategoria(cs, c);
    }
  }

  /** GET /textos/categoria/{categoria_id}: the texts of that category. The
      handler's `is None` test never fires, so an empty category answers Ok([]). */
  function TextosPorCategoria(ts: seq<Texto>, categoria_id: int): (r: Outcome<seq<Texto>>)
    ensures r.Ok?
    ensures forall t :: t in r.value <==> t in ts && t.categoria_id == Some(categoria_id)
  {
    Ok(Keep(ts, InCategoria(categoria_id)))
  }

  /** The category filter keeps the stored order: filtering two stretches of the
      table and concatenating equals filtering the whole table. */
  lemma TextosPorCategoriaInOrder(a: seq<Texto>, b: seq<Texto>, categoria_id: int)
    ensures TextosPorCategoria(a + b, categoria_id).value
         == TextosPorCategoria(a, categoria_id).value + TextosPorCategoria(b, categoria_id).value
  {
    KeepAppend(a, b, InCategoria(categoria_id));
  }

  // ---------------------------------------------------------------- search

  /** A text matches a keyword when its titulo, descripcion or contenido
      contains it case-insensitively (autor and region are not searched). */
  predicate Matches(t: Texto, keyword: string) {
    || ContainsFolded(t.titulo, keyword)
    || ContainsFolded(t.descripcion, keyword)
    || ContainsFolded(t.contenido, keyword)
  }

  /** A text matches exactly when the folded keyword occurs at some position of its
      folded titulo, descripcion or contenido. */
  lemma MatchesIffOccurs(t: Texto, keyword: string)
    ensures Matches(t, keyword) <==> || (exists i :: OccursAt(Lower(keyword), Lower(t.titulo), i))
                                     || (exists i :: OccursAt(Lower(keyword), Lower(t.descripcion), i))
                                     || (exists i :: OccursAt(Lower(keyword), Lower(t.contenido), i))
  {
    ContainsFoldedOccurs(t.titulo, keyword);
    ContainsFoldedOccurs(t.descripcion, keyword);
    ContainsFoldedOccurs(t.contenido, keyword);
  }

  function MatchesKeyword(keyword: string): Texto -> bool { (t: Texto) => Matches(t, keyword) }

  /** Whether the search keeps text `t`: `if palabra:` applies the filter only
      for a present, non-empty keyword, and then matches its stripped form. The
      empty keyword would match every text anyway, so only an absent one is special. */
  predicate Selected(t: Texto, palabra: Option<string>): (b: bool)
    ensures b <==> palabra.None? || Matches(t, Strip(palabra.value))
  {
    EmptyKeywordContained(t.titulo);
    palabra.None? || palabra.value == "" || Matches(t, Strip(palabra.value))
  }

  /** The rows the search query returns, in stored order. */
  function SearchRows(ts: seq<Texto>, palabra: Option<string>): (r: seq<Texto>)
    ensures |r| <= |ts|
    ensures forall t :: t in r <==> t in ts && Selected(t, palabra)
  {
    if palabra.None? || palabra.value == "" then ts
    else Keep(ts, MatchesKeyword(Strip(palabra.value)))
  }

  /** The response row without its resolved category. */
  function ResponseRow(r: TextoResponse): Texto {
    Texto(r.id, r.titulo, r.autor, r.descripcion, r.contenido, r.region, Some(r.categoria_id))
  }

  /** The `Texto` response model declares `categoria_id: int`, so a row whose
      `categoria_id` is NULL has no response shape. */
  predicate Serializable(t: Texto) {
    t.categoria_id.Some?
  }

  lemma EveryRowSerializable(rows: seq<Texto>)
    requires forall t :: t in rows ==> Serializable(t)
    ensures forall i :: 0 <= i < |rows| ==> Serializable(rows[i])
  {
    forall i | 0 <= i < |rows| ensures Serializable(rows[i]) {
      assert rows[i] in rows;
    }
  }

  /** The `Texto` response shape of a row, with `categoria` attached by id (the joined load). */
  function ToResponse(t: Texto, cs: seq<Categoria>): (r: TextoResponse)
    requires Serializable(t)
    ensures ResponseRow(r) == t
    ensures r.categoria.None? <==> forall c :: c in cs ==> c.id != r.categoria_id
    ensures r.categoria.Some? ==> exists c :: c in cs && c.id == r.categoria_id
                                             && r.categoria.value == CategoriaResponse(c.id, c.nombre)
  {
    var categoria := match CategoriaOf(t, cs)
      case None => None
      case Some(c) => Some(CategoriaResponse(c.id, c.nombre));
    TextoResponse(t.id, t.titulo, t.autor, t.descripcion, t.contenido, t.region, t.categoria_id.value, categoria)
  }

  function Responses(ts: seq<Texto>, cs: seq<Categoria>): seq<TextoResponse>
    requires forall i :: 0 <= i < |ts| ==> Serializable(ts[i])
  {
    seq(|ts|, i requires 0 <= i < |ts| => ToResponse(ts[i], cs))
  }

  /** GET /textos/buscar/?palabra=: the selected texts with their categories; NotFound
      when none is selected; ResponseInvalid when a selected text has a NULL
      `categoria_id`, which the declared `List[schemas.Texto]` response rejects. */
  function BuscarTextos(ts: seq<Texto>, cs: seq<Categoria>, palabra: Option<string>): (r: Outcome<seq<TextoResponse>>)
    ensures !r.Conflict?
    ensures r.NotFound? <==> forall t :: t in ts ==> !Selected(t, palabra)
    ensures r.ResponseInvalid? <==> exists t :: t in ts && Selected(t, palabra) && !Serializable(t)
    ensures r.Ok? ==> 0 < |r.value| <= |ts|
  {
    var rows := SearchRows(ts, palabra);
    if rows == [] then NotFound
    else if exists t | t in rows :: !Serializable(t) then
      ResponseInvalid
    else
      assert rows[0] in rows;
      EveryRowSerializable(rows);
      Ok(Responses(rows, cs))
  }

  /** When every selected text has a category id, every stored text the search
      selects is in the answer. */
  lemma BuscarComplete(ts: seq<Texto>, cs: seq<Categoria>, palabra: Option<string>, t: Texto)
    requires t in ts && Selected(t, palabra)
    requires forall u :: u in ts && Selected(u, palabra) ==> Serializable(u)
    ensures BuscarTextos(ts, cs, palabra).Ok?
    ensures ToResponse(t, cs) in BuscarTextos(ts, cs, palabra).value
  {
    BuscarAnswersRows(ts, cs, palabra, t);
    ResponsesComplete(SearchRows(ts, palabra), cs, t);
  }

  /** Every row of the list has its response in the list. */
  lemma ResponsesComplete(rows: seq<Texto>, cs: seq<Categoria>, t: Texto)
    requires forall i :: 0 <= i < |rows| ==> Serializable(rows[i])
    requires t in rows
    ensures Serializable(t) && ToResponse(t, cs) in Responses(rows, cs)
  {
    var i :| 0 <= i < |rows| && rows[i] == t;
    assert Responses(rows, cs)[i] == ToResponse(t, cs);
  }

  lemma BuscarAnswersRows(ts: seq<Texto>, cs: seq<Categoria>, palabra: Option<string>, t: Texto)
    requires t in ts && Selected(t, palabra)
    requires forall u :: u in ts && Selected(u, palabra) ==> Serializable(u)
    ensures t in SearchRows(ts, palabra)
    ensures forall i :: 0 <= i < |SearchRows(ts, palabra)| ==> Serializable(SearchRows(ts, palabra)[i])
    ensures BuscarTextos(ts, cs, palabra) == Ok(Responses(SearchRows(ts, palabra), cs))
  {
    var rows := SearchRows(ts, palabra);
    forall i | 0 <= i < |rows| ensures Serializable(rows[i]) {
      assert rows[i] in rows;
    }
  }

  /** Every answer is the response of a stored text the search selects. */
  lemma BuscarSound(ts: seq<Texto>, cs: seq<Categoria>, palabra: Option<string>, x: TextoResponse)
    requires BuscarTextos(ts, cs, palabra).Ok? && x in BuscarTextos(ts, cs, palabra).value
    ensures ResponseRow(x) in ts && Selected(ResponseRow(x), palabra) && x == ToResponse(ResponseRow(x), cs)
  {
    var rows := SearchRows(ts, palabra);
    BuscarOkAnswersRows(ts, cs, palabra);
    InResponses(rows, cs, x);
  }

  lemma BuscarOkAnswersRows(ts: seq<Texto>, cs: seq<Categoria>, palabra: Option<string>)
    requires BuscarTextos(ts, cs, palabra).Ok?
    ensures forall i :: 0 <= i < |SearchRows(ts, palabra)| ==> Serializable(SearchRows(ts, palabra)[i])
    ensures BuscarTextos(ts, cs, palabra) == Ok(Responses(SearchRows(ts, palabra), cs))
  {
  }

  /** Every response in the list is that of one of its rows. */
  lemma InResponses(rows: seq<Texto>, cs: seq<Categoria>, x: TextoResponse)
    requires forall i :: 0 <= i < |rows| ==> Serializable(rows[i])
    requires x in Responses(rows, cs)
    ensures ResponseRow(x) in rows && x == ToResponse(ResponseRow(x), cs)
  {
    var i :| 0 <= i < |rows| && Responses(rows, cs)[i] == x;
  }

  /** Without a keyword, or with the empty one, the search answers every stored text. */
  lemma NoKeywordSelectsAll(ts: seq<Texto>, palabra: Option<string>)
    requires palabra.None? || palabra == Some("")
    ensures SearchRows(ts, palabra) == ts
  {
  }

  /** A keyword of only whitespace strips to "" and so also selects every stored text. */
  lemma BlankKeywordSelectsAll(ts: seq<Texto>, w: string)
    requires forall i :: 0 <= i < |w| ==> IsSpace(w[i])
    ensures SearchRows(ts, Some(w)) == ts
  {
    if w != "" {
      StripEmptyIffAllSpace(w);
      forall j | 0 <= j < |ts| ensures MatchesKeyword(Strip(w))(ts[j]) {
        EmptyKeywordContained(ts[j].titulo);
      }
      KeepAll(ts, MatchesKeyword(Strip(w)));
    }
  }

  /** The search answers in stored order. */
  lemma SearchRowsInOrder(a: seq<Texto>, b: seq<Texto>, palabra: Option<string>)
    ensures SearchRows(a + b, palabra) == SearchRows(a, palabra) + SearchRows(b, palabra)
  {
    if !(palabra.None? || palabra.value == "") {
      KeepAppend(a, b, MatchesKeyword(Strip(palabra.value)));
    }
  }

  /** Matching does not depend on the case of the keyword. */
  lemma MatchIgnoresKeywordCase(t: Texto, keyword: string)
    ensures Matches(t, keyword) <==> Matches(t, Lower(keyword))
  {
    LowerIdempotent(keyword);
  }

  // ---------------------------------------------------------------- table changes

  /** The table after `update_texto` overwrote the six editable fields of the text with this id. */
  function OverwriteTexto(ts: seq<Texto>, id: int, input: TextoCreate): seq<Texto> {
    var i := TextoIndex(ts, id);
    if i == -1 then ts else ts[i := NewTexto(id, input)]
  }

  /** The table after `delete_textos` removed the text with this id. */
  function RemoveTexto(ts: seq<Texto>, id: int): seq<Texto> {
    var i := TextoIndex(ts, id);
    if i == -1 then ts else ts[..i] + ts[i + 1..]
  }

  /** The table after `update_categoria` renamed the category with this id. */
  function RenameCategoria(cs: seq<Categoria>, id: int, nombre: string): seq<Categoria> {
    var i := CategoriaIndex(cs, id);
    if i == -1 then cs else cs[i := Categoria(id, nombre)]
  }

  /** The table after `delete_categoria` removed the category with this id. */
  function RemoveCategoria(cs: seq<Categoria>, id: int): seq<Categoria> {
    var i := CategoriaIndex(cs, id);
    if i == -1 then cs else cs[..i] + cs[i + 1..]
  }

  /** Two tables with unique keys that hold the same rows under `id` answer the same lookup of `id`. */
  lemma SameRowsSameTexto(ts: seq<Texto>, us: seq<Texto>, id: int)
    requires TextoIdsUnique(ts) && TextoIdsUnique(us)
    requires forall t: Texto :: t.id == id ==> (t in ts <==> t in us)
    ensures GetTextoById(ts, id) == GetTextoById(us, id)
  {
    var r := GetTextoById(ts, id);
    if r.Ok? {
      GetTextoByIdUnique(us, id, r.value);
    }
  }

  /** Two tables with unique keys that hold the same rows under `id` answer the same lookup of `id`. */
  lemma SameRowsSameCategoria(cs: seq<Categoria>, ds: seq<Categoria>, id: int)
    requires CategoriaIdsUnique(cs) && CategoriaIdsUnique(ds)
    requires forall c: Categoria :: c.id == id ==> (c in cs <==> c in ds)
    ensures GetCategoriaById(cs, id) == GetCategoriaById(ds, id)
  {
    var r := GetCategoriaById(cs, id);
    if r.Ok? {
      FindsStoredCategoria(ds, r.value);
    }
  }

  /** After `create_textos` appends a row under an unused id, that id answers the new row
      and every other id answers as before. */
  lemma CreatedTextoFetchable(ts: seq<Texto>, id: int, input: TextoCreate)
    requires TextoIdsUnique(ts)
    requires forall t :: t in ts ==> t.id != id
    ensures TextoIdsUnique(ts + [NewTexto(id, input)])
    ensures GetTextoById(ts + [NewTexto(id, input)], id) == Ok(NewTexto(id, input))
    ensures forall j :: j != id ==> GetTextoById(ts + [NewTexto(id, input)], j) == GetTextoById(ts, j)
  {
    var us := ts + [NewTexto(id, input)];
    assert forall k :: 0 <= k < |ts| ==> us[k] == ts[k] && us[k] in ts;
    GetTextoByIdUnique(us, id, NewTexto(id, input));
    forall j | j != id ensures GetTextoById(us, j) == GetTextoById(ts, j) {
      SameRowsSameTexto(ts, us, j);
    }
  }

  /** `update_texto` on a stored id makes that id answer the overwritten row (same id, the
      six input fields); on a missing id it changes nothing; every other id answers as before. */
  lemma OverwriteTextoEffect(ts: seq<Texto>, id: int, input: TextoCreate)
    requires TextoIdsUnique(ts)
    ensures TextoIdsUnique(OverwriteTexto(ts, id, input))
    ensures |OverwriteTexto(ts, id, input)| == |ts|
    ensures GetTextoById(OverwriteTexto(ts, id, input), id)
         == if GetTextoById(ts, id).Ok? then Ok(NewTexto(id, input)) else NotFound
    ensures forall j :: j != id ==> GetTextoById(OverwriteTexto(ts, id, input), j) == GetTextoById(ts, j)
  {
    var i := TextoIndex(ts, id);
    if i != -1 {
      var us := OverwriteTexto(ts, id, input);
      assert forall k :: 0 <= k < |us| ==> us[k].id == ts[k].id;
      assert us[i] == NewTexto(id, input);
      assert forall t: Texto :: t.id != id ==> (t in us <==> t in ts) by {
        forall t: Texto | t.id != id ensures t in us <==> t in ts {
          if t in ts {
            var k :| 0 <= k < |ts| && ts[k] == t;
            assert us[k] == t;
          }
        }
      }
      GetTextoByIdUnique(us, id, NewTexto(id, input));
      forall j | j != id ensures GetTextoById(us, j) == GetTextoById(ts, j) {
        SameRowsSameTexto(ts, us, j);
      }
    }
  }

  function LacksTextoId(id: int): Texto -> bool { (t: Texto) => t.id != id }

  /** After `delete_textos` on a stored id, that id answers NotFound, the other rows keep
      their order, and every other id answers as before. */
  lemma RemoveTextoEffect(ts: seq<Texto>, id: int)
    requires TextoIdsUnique(ts)
    ensures TextoIdsUnique(RemoveTexto(ts, id))
    ensures RemoveTexto(ts, id) == Keep(ts, LacksTextoId(id))
    ensures GetTextoById(RemoveTexto(ts, id), id) == NotFound
    ensures forall j :: j != id ==> GetTextoById(RemoveTexto(ts, id), j) == GetTextoById(ts, j)
  {
    var us := RemoveTexto(ts, id);
    KeepWithoutId(ts, id);
    RemovedTextoKeys(ts, id, 0);
    forall j | j != id ensures GetTextoById(us, j) == GetTextoById(ts, j) {
      SameRowsSameTexto(ts, us, j);
    }
  }

  /** Removing a row keeps the key unique and every id below the counter. */
  lemma RemovedTextoKeys(ts: seq<Texto>, id: int, n: int)
    requires TextoIdsUnique(ts)
    ensures TextoIdsUnique(RemoveTexto(ts, id))
    ensures TextoIdsBelow(ts, n) ==> TextoIdsBelow(RemoveTexto(ts, id), n)
  {
    var i := TextoIndex(ts, id);
    var us := RemoveTexto(ts, id);
    if i != -1 {
      assert forall a :: 0 <= a < |us| ==> us[a] == ts[if a < i then a else a + 1];
    }
  }

  /** With unique keys, removing the first row holding `id` is filtering out every row holding `id`. */
  lemma KeepWithoutId(ts: seq<Texto>, id: int)
    requires TextoIdsUnique(ts)
    ensures RemoveTexto(ts, id) == Keep(ts, LacksTextoId(id))
  {
    var p := LacksTextoId(id);
    var i := TextoIndex(ts, id);
    if i == -1 {
      KeepAll(ts, p);
    } else {
      var before, after := ts[..i], ts[i + 1..];
      forall k | 0 <= k < |before| ensures p(before[k]) {
        assert before[k] == ts[k];
      }
      forall k | 0 <= k < |after| ensures p(after[k]) {
        assert after[k] == ts[i + 1 + k];
      }
      KeepAll(before, p);
      KeepAll(after, p);
      assert Keep([ts[i]], p) == [];
      KeepAppend(before, [ts[i]], p);
      var front := before + [ts[i]];
      assert Keep(front, p) == before;
      KeepAppend(front, after, p);
      SplitAt(ts, i);
    }
  }

  /** `update_categoria` on a stored id changes only that category's `nombre`;
      on a missing id it changes nothing; every other id answers as before. */
  lemma RenameCategoriaEffect(cs: seq<Categoria>, id: int, nombre: string)
    requires CategoriaIdsUnique(cs)
    ensures CategoriaIdsUnique(RenameCategoria(cs, id, nombre))
    ensures GetCategoriaById(RenameCategoria(cs, id, nombre), id)
         == if GetCategoriaById(cs, id).Ok? then Ok(Categoria(id, nombre)) else NotFound
    ensures forall j :: j != id ==> GetCategoriaById(RenameCategoria(cs, id, nombre), j) == GetCategoriaById(cs, j)
  {
    var i := CategoriaIndex(cs, id);
    if i != -1 {
      var ds := RenameCategoria(cs, id, nombre);
      OverwrittenCategoriaRows(cs, i, Categoria(id, nombre));
      assert ds[i] == Categoria(id, nombre);
      FindsStoredCategoria(ds, Categoria(id, nombre));
      forall j | j != id ensures GetCategoriaById(ds, j) == GetCategoriaById(cs, j) {
        SameRowsSameCategoria(cs, ds, j);
      }
    }
  }

  /** Overwriting a row with one under the same id keeps the key unique and every row
      under another id. */
  lemma OverwrittenCategoriaRows(cs: seq<Categoria>, i: int, c: Categoria)
    requires CategoriaIdsUnique(cs) && 0 <= i < |cs| && cs[i].id == c.id
    ensures CategoriaIdsUnique(cs[i := c])
    ensures forall d: Categoria :: d.id != c.id ==> (d in cs[i := c] <==> d in cs)
  {
    var ds := cs[i := c];
    assert forall k :: 0 <= k < |ds| ==> ds[k].id == cs[k].id;
    forall d: Categoria | d.id != c.id ensures d in ds <==> d in cs {
      if d in cs {
        var k :| 0 <= k < |cs| && cs[k] == d;
        assert ds[k] == d;
      }
    }
  }

  /** Renaming keeps every id, so the foreign keys that held still hold; and a name no
      other category holds keeps names unique. */
  lemma RenameCategoriaKeepsKeys(ts: seq<Texto>, cs: seq<Categoria>, id: int, nombre: string)
    requires CategoriaIdsUnique(cs) && NombresUnique(cs)
    requires forall c :: c in cs && c.nombre == nombre ==> c.id == id
    ensures NombresUnique(RenameCategoria(cs, id, nombre))
    ensures |RenameCategoria(cs, id, nombre)| == |cs|
    ensures forall k :: 0 <= k < |cs| ==> RenameCategoria(cs, id, nombre)[k].id == cs[k].id
    ensures ForeignKeysHold(ts, cs) ==> ForeignKeysHold(ts, RenameCategoria(cs, id, nombre))
  {
    var i := CategoriaIndex(cs, id);
    var ds := RenameCategoria(cs, id, nombre);
    if i != -1 {
      assert |ds| == |cs|;
      forall a, b | 0 <= a < b < |ds| ensures ds[a].nombre != ds[b].nombre {
        if a == i {
          assert cs[b] in cs && cs[b].id != id;
        } else if b == i {
          assert cs[a] in cs && cs[a].id != id;
        } else {
          assert ds[a] == cs[a] && ds[b] == cs[b];
        }
      }
      forall c | c in cs ensures exists d :: d in ds && d.id == c.id {
        var k :| 0 <= k < |cs| && cs[k] == c;
        assert ds[k] in ds && ds[k].id == c.id;
      }
    }
  }

  /** After `delete_categoria` on a stored id, that id answers NotFound and every
      other id answers as before. */
  lemma RemoveCategoriaEffect(cs: seq<Categoria>, id: int)
    requires CategoriaIdsUnique(cs)
    ensures CategoriaIdsUnique(RemoveCategoria(cs, id))
    ensures NombresUnique(cs) ==> NombresUnique(RemoveCategoria(cs, id))
    ensures forall c :: c in RemoveCategoria(cs, id) <==> c in cs && c.id != id
    ensures GetCategoriaById(RemoveCategoria(cs, id), id) == NotFound
    ensures forall j :: j != id ==> GetCategoriaById(RemoveCategoria(cs, id), j) == GetCategoriaById(cs, j)
  {
    var ds := RemoveCategoria(cs, id);
    RemovedCategoriaRows(cs, id);
    RemovedCategoriaKeys(cs, id, 0);
    forall j | j != id ensures GetCategoriaById(ds, j) == GetCategoriaById(cs, j) {
      SameRowsSameCategoria(cs, ds, j);
    }
  }

  lemma RemovedCategoriaRows(cs: seq<Categoria>, id: int)
    requires CategoriaIdsUnique(cs)
    ensures forall c :: c in RemoveCategoria(cs, id) <==> c in cs && c.id != id
  {
    var i := CategoriaIndex(cs, id);
    var ds := RemoveCategoria(cs, id);
    if i != -1 {
      assert forall a :: 0 <= a < |ds| ==> ds[a] == cs[if a < i then a else a + 1];
      forall c ensures c in ds <==> c in cs && c.id != id {
        if c in ds {
          var a :| 0 <= a < |ds| && ds[a] == c;
          assert c == cs[if a < i then a else a + 1];
        }
        if c in cs && c.id != id {
          var k :| 0 <= k < |cs| && cs[k] == c;
          if k < i { assert ds[k] == c; } else { assert ds[k - 1] == c; }
        }
      }
    }
  }

  /** Removing a row keeps both keys unique and every id below the counter. */
  lemma RemovedCategoriaKeys(cs: seq<Categoria>, id: int, n: int)
    requires CategoriaIdsUnique(cs)
    ensures CategoriaIdsUnique(RemoveCategoria(cs, id))
    ensures NombresUnique(cs) ==> NombresUnique(RemoveCategoria(cs, id))
    ensures CategoriaIdsBelow(cs, n) ==> CategoriaIdsBelow(RemoveCategoria(cs, id), n)
  {
    var i := CategoriaIndex(cs, id);
    var ds := RemoveCategoria(cs, id);
    if i != -1 {
      assert forall a :: 0 <= a < |ds| ==> ds[a] == cs[if a < i then a else a + 1];
    }
  }

  /** The texts after `delete_categoria`: the relationship `Categoria.textos` has no
      delete cascade, so the flush sets the `categoria_id` of the deleted category's
      texts to NULL and removes none of them. */
  function DetachTextos(ts: seq<Texto>, id: int): (r: seq<Texto>)
    ensures |r| == |ts|
    ensures forall k :: 0 <= k < |ts| ==> r[k].(categoria_id := ts[k].categoria_id) == ts[k]
    ensures forall k :: 0 <= k < |ts| ==> r[k].categoria_id != Some(id)
    ensures forall k :: 0 <= k < |ts| ==> r[k] == ts[k] || r[k].categoria_id.None?
    ensures forall k :: 0 <= k < |ts| && ts[k].categoria_id != Some(id) ==> r[k] == ts[k]
  {
    seq(|ts|, k requires 0 <= k < |ts| =>
      if ts[k].categoria_id == Some(id) then ts[k].(categoria_id := None) else ts[k])
  }

  /** Detaching texts changes no id, so both key invariants on `textos` carry over. */
  lemma DetachedTextosKeepKeys(ts: seq<Texto>, id: int, n: int)
    requires TextoIdsUnique(ts)
    ensures TextoIdsUnique(DetachTextos(ts, id))
    ensures TextoIdsBelow(ts, n) ==> TextoIdsBelow(DetachTextos(ts, id), n)
  {
    var us := DetachTextos(ts, id);
    assert forall k :: 0 <= k < |us| ==> us[k].id == ts[k].id;
  }

  /** No text is removed by detaching: every id answers a text exactly when it did before. */
  lemma DetachedTextosFetchable(ts: seq<Texto>, id: int)
    ensures forall j :: GetTextoById(DetachTextos(ts, id), j).Ok? <==> GetTextoById(ts, j).Ok?
  {
    var us := DetachTextos(ts, id);
    forall j ensures GetTextoById(us, j).Ok? <==> GetTextoById(ts, j).Ok? {
      if GetTextoById(ts, j).Ok? {
        var k :| 0 <= k < |ts| && ts[k] == GetTextoById(ts, j).value;
        assert us[k] in us && us[k].id == j;
      }
      if GetTextoById(us, j).Ok? {
        var k :| 0 <= k < |us| && us[k] == GetTextoById(us, j).value;
        assert ts[k] in ts && ts[k].id == j;
      }
    }
  }

  /** Deleting a category, with its texts detached, keeps every foreign key valid, and
      no text refers to the deleted id any more. */
  lemma RemoveCategoriaKeepsForeignKeys(ts: seq<Texto>, cs: seq<Categoria>, id: int)
    requires CategoriaIdsUnique(cs)
    ensures ForeignKeysHold(ts, cs) ==> ForeignKeysHold(DetachTextos(ts, id), RemoveCategoria(cs, id))
    ensures forall t :: t in DetachTextos(ts, id) ==> t.categoria_id != Some(id)
  {
    var us, ds := DetachTextos(ts, id), RemoveCategoria(cs, id);
    RemovedCategoriaRows(cs, id);
    if ForeignKeysHold(ts, cs) {
      ForeignKeysAfterDetach(ts, cs, id);
    }
  }

  lemma ForeignKeysAfterDetach(ts: seq<Texto>, cs: seq<Categoria>, id: int)
    requires CategoriaIdsUnique(cs) && ForeignKeysHold(ts, cs)
    requires forall c :: c in RemoveCategoria(cs, id) <==> c in cs && c.id != id
    ensures ForeignKeysHold(DetachTextos(ts, id), RemoveCategoria(cs, id))
  {
    var us, ds := DetachTextos(ts, id), RemoveCategoria(cs, id);
    forall u | u in us && u.categoria_id.Some? ensures exists c :: c in ds && c.id == u.categoria_id.value {
      var k :| 0 <= k < |us| && us[k] == u;
      assert ts[k] == u && ts[k] in ts;
      var c :| c in cs && c.id == u.categoria_id.value;
      assert c in ds;
    }
  }

  /** Everything `update_categoria` keeps when no other category holds the new name:
      the primary key, the unique name, the counter's bound and the foreign keys. */
  lemma CategoriaRenameKeepsInvariants(ts: seq<Texto>, cs: seq<Categoria>, id: int, nombre: string, nc: int)
    requires CategoriaIdsUnique(cs) && NombresUnique(cs) && CategoriaIdsBelow(cs, nc)
    requires forall c :: c in cs && c.nombre == nombre ==> c.id == id
    ensures CategoriaIdsUnique(RenameCategoria(cs, id, nombre)) && NombresUnique(RenameCategoria(cs, id, nombre))
    ensures CategoriaIdsBelow(RenameCategoria(cs, id, nombre), nc)
    ensures ForeignKeysHold(ts, cs) ==> ForeignKeysHold(ts, RenameCategoria(cs, id, nombre))
  {
    RenameCategoriaKeepsKeys(ts, cs, id, nombre);
    RenameCategoriaEffect(cs, id, nombre);
  }

  /** Everything `delete_categoria` keeps: both primary keys, the unique name, the
      counters' bounds and the foreign keys; and the deleted id is gone. */
  lemma CategoriaDeletionKeepsInvariants(ts: seq<Texto>, cs: seq<Categoria>, id: int, nt: int, nc: int)
    requires TextoIdsUnique(ts) && CategoriaIdsUnique(cs) && NombresUnique(cs)
    requires TextoIdsBelow(ts, nt) && CategoriaIdsBelow(cs, nc)
    ensures TextoIdsUnique(DetachTextos(ts, id)) && TextoIdsBelow(DetachTextos(ts, id), nt)
    ensures CategoriaIdsUnique(RemoveCategoria(cs, id)) && NombresUnique(RemoveCategoria(cs, id))
    ensures CategoriaIdsBelow(RemoveCategoria(cs, id), nc)
    ensures GetCategoriaById(RemoveCategoria(cs, id), id) == NotFound
    ensures ForeignKeysHold(ts, cs) ==> ForeignKeysHold(DetachTextos(ts, id), RemoveCategoria(cs, id))
  {
    RemoveCategoriaEffect(cs, id);
    RemovedCategoriaKeys(cs, id, nc);
    DetachedTextosKeepKeys(ts, id, nt);
    RemoveCategoriaKeepsForeignKeys(ts, cs, id);
  }

  // ---------------------------------------------------------------- the store

  /** The two tables as the database holds them, in insertion order, with a
      fresh-id counter per table. `enforceForeignKeys` is the database's choice
      of checking `categoria_id` against `categorias.id` when a text is written. */
  class Store {
    const enforceForeignKeys: bool
    var textos: seq<Texto>
    var categorias: seq<Categoria>
    var nextTextoId: int
    var nextCategoriaId: int

    /** Primary keys and the unique name hold, and every stored id is below its counter,
        so the counter never hands out an id in use. */
    ghost predicate Valid()
      reads this
    {
      && TextoIdsUnique(textos) && CategoriaIdsUnique(categorias) && NombresUnique(categorias)
      && 1 <= nextTextoId && 1 <= nextCategoriaId
      && TextoIdsBelow(textos, nextTextoId) && CategoriaIdsBelow(categorias, nextCategoriaId)
    }

    /** An empty database; both id sequences start at 1. */
    constructor (enforceForeignKeys: bool)
      ensures Valid()
      ensures this.enforceForeignKeys == enforceForeignKeys
      ensures textos == [] && categorias == [] && nextTextoId == 1 && nextCategoriaId == 1
    {
      this.enforceForeignKeys := enforceForeignKeys;
      textos, categorias := [], [];
      nextTextoId, nextCategoriaId := 1, 1;
    }

    /** POST /textos/: stores one new text with the six input fields under a fresh id. */
    method CreateTexto(input: TextoCreate) returns (r: Outcome<int>)
      requires Valid()
      modifies this
      ensures Valid()
      ensures categorias == old(categorias) && nextCategoriaId == old(nextCategoriaId)
      ensures if enforceForeignKeys && FindCategoria(categorias, input.categoria_id).None? then
                r == Conflict && textos == old(textos) && nextTextoId == old(nextTextoId)
              else
                && r == Ok(old(nextTextoId))
                && textos == old(textos) + [NewTexto(r.value, input)]
                && nextTextoId == old(nextTextoId) + 1
      ensures r.Ok? ==> forall t :: t in old(textos) ==> t.id != r.value
      ensures enforceForeignKeys && old(ForeignKeysHold(textos, categorias)) ==> ForeignKeysHold(textos, categorias)
    {
      if enforceForeignKeys && FindCategoria(categorias, input.categoria_id).None? {
        return Conflict;
      }
      var id := nextTextoId;
      textos := textos + [NewTexto(id, input)];
      nextTextoId := nextTextoId + 1;
      r := Ok(id);
    }

    /** PUT /textos/{id}: overwrites titulo, autor, descripcion, contenido, region and
        categoria_id of the text with this id; NotFound when there is none. */
    method UpdateTexto(id: int, input: TextoCreate) returns (r: Outcome<()>)
      requires Valid()
      modifies this
      ensures Valid()
      ensures categorias == old(categorias) && nextTextoId == old(nextTextoId) && nextCategoriaId == old(nextCategoriaId)
      ensures if old(GetTextoById(textos, id)).NotFound? then
                r == NotFound && textos == old(textos)
              else if enforceForeignKeys && FindCategoria(categorias, input.categoria_id).None? then
                r == Conflict && textos == old(textos)
              else
                r == Ok(()) && textos == OverwriteTexto(old(textos), id, input)
      ensures enforceForeignKeys && old(ForeignKeysHold(textos, categorias)) ==> ForeignKeysHold(textos, categorias)
    {
      var i := TextoIndex(textos, id);
      if i == -1 {
        return NotFound;
      }
      if enforceForeignKeys && FindCategoria(categorias, input.categoria_id).None? {
        return Conflict;
      }
      var row := textos[i];
      row := row.(titulo := input.titulo);
      row := row.(autor := input.autor);
      row := row.(descripcion := input.descripcion);
      row := row.(contenido := input.contenido);
      row := row.(region := input.region);
      row := row.(categoria_id := Some(input.categoria_id));
      OverwriteTextoEffect(textos, id, input);
      textos := textos[i := row];
      r := Ok(());
    }

    /** DELETE /textosborrar/{id}: removes the text with this id; NotFound when there is none. */
    method DeleteTexto(id: int) returns (r: Outcome<()>)
      requires Valid()
      modifies this
      ensures Valid()
      ensures categorias == old(categorias) && nextTextoId == old(nextTextoId) && nextCategoriaId == old(nextCategoriaId)
      ensures if old(GetTextoById(textos, id)).NotFound? then
                r == NotFound && textos == old(textos)
              else
                r == Ok(()) && textos == RemoveTexto(old(textos), id)
      ensures GetTextoById(textos, id) == NotFound
    {
      var i := TextoIndex(textos, id);
      RemoveTextoEffect(textos, id);
      RemovedTextoKeys(textos, id, nextTextoId);
      if i == -1 {
        return NotFound;
      }
      textos := textos[..i] + textos[i + 1..];
      r := Ok(());
    }

    /** POST /categoria/: stores one new category under a fresh id; Conflict when the
        name is already held (the unique constraint on `nombre`). */
    method CreateCategoria(input: CategoriaCreate) returns (r: Outcome<int>)
      requires Valid()
      modifies this
      ensures Valid()
      ensures textos == old(textos) && nextTextoId == old(nextTextoId)
      ensures if exists c :: c in old(categorias) && c.nombre == input.nombre then
                r == Conflict && categorias == old(categorias) && nextCategoriaId == old(nextCategoriaId)
              else
                && r == Ok(old(nextCategoriaId))
                && categorias == old(categorias) + [Categoria(r.value, input.nombre)]
                && nextCategoriaId == old(nextCategoriaId) + 1
      ensures r.Ok? ==> forall c :: c in old(categorias) ==> c.id != r.value
      ensures old(ForeignKeysHold(textos, categorias)) ==> ForeignKeysHold(textos, categorias)
    {
      var j := NombreIndex(categorias, input.nombre);
      if j != -1 {
        assert categorias[j] in categorias;
        return Conflict;
      }
      var id := nextCategoriaId;
      categorias := categorias + [Categoria(id, input.nombre)];
      nextCategoriaId := nextCategoriaId + 1;
      r := Ok(id);
    }

    /** PUT /categorias/{id}: sets `nombre` of the category with this id; NotFound when
        there is none, Conflict when another category already holds the name. */
    method UpdateCategoria(id: int, input: CategoriaCreate) returns (r: Outcome<()>)
      requires Valid()
      modifies this
      ensures Valid()
      ensures textos == old(textos) && nextTextoId == old(nextTextoId) && nextCategoriaId == old(nextCategoriaId)
      ensures if old(GetCategoriaById(categorias, id)).NotFound? then
                r == NotFound && categorias == old(categorias)
              else if exists c :: c in old(categorias) && c.nombre == input.nombre && c.id != id then
                r == Conflict && categorias == old(categorias)
              else
                r == Ok(()) && categorias == RenameCategoria(old(categorias), id, input.nombre)
      ensures old(ForeignKeysHold(textos, categorias)) ==> ForeignKeysHold(textos, categorias)
    {
      var i := CategoriaIndex(categorias, id);
      if i == -1 {
        return NotFound;
      }
      var j := NombreIndex(categorias, input.nombre);
      if j != -1 && categorias[j].id != id {
        assert categorias[j] in categorias;
        return Conflict;
      }
      assert forall c :: c in categorias && c.nombre == input.nombre ==> c.id == id by {
        if j != -1 { FindsStoredCategoria(categorias, categorias[j]); }
      }
      CategoriaRenameKeepsInvariants(textos, categorias, id, input.nombre, nextCategoriaId);
      assert categorias[i].id == id;
      categorias := categorias[i := categorias[i].(nombre := input.nombre)];
      r := Ok(());
    }

    /** DELETE /categoria/{id}: removes the category with this id; NotFound when there
        is none. No text is removed: the texts of that category get a NULL `categoria_id`. */
    method DeleteCategoria(id: int) returns (r: Outcome<()>)
      requires Valid()
      modifies this
      ensures Valid()
      ensures nextTextoId == old(nextTextoId) && nextCategoriaId == old(nextCategoriaId)
      ensures if old(GetCategoriaById(categorias, id)).NotFound? then
                r == NotFound && categorias == old(categorias) && textos == old(textos)
              else
                && r == Ok(())
                && categorias == RemoveCategoria(old(categorias), id)
                && textos == DetachTextos(old(textos), id)
      ensures GetCategoriaById(categorias, id) == NotFound
      ensures old(ForeignKeysHold(textos, categorias)) ==> ForeignKeysHold(textos, categorias)
    {
      var i := CategoriaIndex(categorias, id);
      if i == -1 {
        return NotFound;
      }
      CategoriaDeletionKeepsInvariants(textos, categorias, id, nextTextoId, nextCategoriaId);
      categorias := categorias[..i] + categorias[i + 1..];
      textos := DetachTextos(textos, id);
      r := Ok(());
    }
  }
}
