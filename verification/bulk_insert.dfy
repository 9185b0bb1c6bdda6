/** The one-off bulk loader: it inserts and commits every category, then inserts
    the texts, each resolving its category by name, and commits them together. */
module BulkInsert {
  import opened Outcomes
  import opened Seqs
  import opened Schemas
  import opened Models
  import opened Catalogue

  /** One record of the texts file: the text fields and, under `categoria_nombre`,
      the name of its category (None when the record lacks that key). */
  datatype Relato = Relato(
    titulo: string, autor: string, descripcion: string, contenido: string, region: string,
    categoria_nombre: Option<string>)

  /** What the loader logs: success with the names it could not resolve, or the
      phase whose error rolled back the uncommitted work. */
  datatype Report = Completed(notFound: seq<string>) | CategoryPhaseFailed | TextPhaseFailed

  /** The texts staged so far and the names logged as not found. */
  datatype Staging = Staging(rows: seq<Texto>, notFound: seq<string>)

  /** The category rows the first loop adds, numbered from `firstId` in input order. */
  function StagedCategorias(cs: seq<CategoriaCreate>, firstId: int): seq<Categoria> {
    seq(|cs|, k requires 0 <= k < |cs| => Categoria(firstId + k, cs[k].nombre))
  }

  /** The relato names a stored category. */
  predicate Resolvable(cats: seq<Categoria>, r: Relato) {
    r.categoria_nombre.Some? && NombreIndex(cats, r.categoria_nombre.value) != -1
  }

  /** The relato has a name, but no stored category carries it. */
  predicate Unresolved(cats: seq<Categoria>, r: Relato) {
    r.categoria_nombre.Some? && NombreIndex(cats, r.categoria_nombre.value) == -1
  }

  function ResolvableIn(cats: seq<Categoria>): Relato -> bool { (r: Relato) => Resolvable(cats, r) }

  function UnresolvedIn(cats: seq<Categoria>): Relato -> bool { (r: Relato) => Unresolved(cats, r) }

  /** The text a resolvable relato becomes: its own fields, the id the store assigns,
      and the id of the first category with its name in place of the name. */
  function ResolvedTexto(cats: seq<Categoria>, id: int, r: Relato): (t: Texto)
    requires Resolvable(cats, r)
    ensures exists c :: c in cats && c.nombre == r.categoria_nombre.value && t.categoria_id == Some(c.id)
  {
    var k := NombreIndex(cats, r.categoria_nombre.value);
    Texto(id, r.titulo, r.autor, r.descripcion, r.contenido, r.region, Some(cats[k].id))
  }

  function NombreOf(r: Relato): string {
    match r.categoria_nombre
    case Some(n) => n
    case None => ""
  }

  function Nombres(rs: seq<Relato>): seq<string> {
    seq(|rs|, k requires 0 <= k < |rs| => NombreOf(rs[k]))
  }

  /** One pass of the second loop: a relato without `categoria_nombre` raises, an
      unresolved one is logged and skipped, a resolved one is staged. */
  function StageOne(st: Staging, r: Relato, cats: seq<Categoria>, firstId: int): Option<Staging> {
    match r.categoria_nombre
    case None => None
    case Some(nombre) =>
      var k := NombreIndex(cats, nombre);
      if k == -1 then Some(st.(notFound := st.notFound + [nombre]))
      else Some(st.(rows := st.rows + [Texto(firstId + |st.rows|, r.titulo, r.autor, r.descripcion,
                                             r.contenido, r.region, Some(cats[k].id))]))
  }

  /** The second loop over a prefix of the relatos; None once a relato has raised. */
  function StageRelatos(rs: seq<Relato>, cats: seq<Categoria>, firstId: int): (r: Option<Staging>)
    ensures r.Some? ==> |r.value.rows| + |r.value.notFound| == |rs|
    ensures r.Some? ==> forall k :: 0 <= k < |r.value.rows| ==> r.value.rows[k].id == firstId + k
    decreases |rs|
  {
    if rs == [] then Some(Staging([], []))
    else match StageRelatos(rs[..|rs| - 1], cats, firstId)
      case None => None
      case Some(st) => StageOne(st, rs[|rs| - 1], cats, firstId)
  }

  /** The text phase raises exactly when some relato lacks `categoria_nombre`. */
  lemma {:induction false} StageFailsIffKeyMissing(rs: seq<Relato>, cats: seq<Categoria>, firstId: int)
    ensures StageRelatos(rs, cats, firstId).None? <==> exists k :: 0 <= k < |rs| && rs[k].categoria_nombre.None?
    decreases |rs|
  {
    if rs != [] {
      var init := rs[..|rs| - 1];
      StageFailsIffKeyMissing(init, cats, firstId);
      assert forall k :: 0 <= k < |init| ==> init[k] == rs[k];
      if exists k :: 0 <= k < |rs| && rs[k].categoria_nombre.None? {
        var k :| 0 <= k < |rs| && rs[k].categoria_nombre.None?;
        if k < |init| { assert init[k].categoria_nombre.None?; }
      }
    }
  }

  /** `rows` are the texts the resolvable relatos `ks` become, numbered from `firstId`. */
  predicate StagedFrom(rows: seq<Texto>, ks: seq<Relato>, cats: seq<Categoria>, firstId: int) {
    && |rows| == |ks|
    && forall k :: 0 <= k < |ks| ==> Resolvable(cats, ks[k]) && rows[k] == ResolvedTexto(cats, firstId + k, ks[k])
  }

  /** When the text phase completes, the staged texts are exactly the resolvable relatos
      in input order, each with its own fields, the category id its name resolves to and
      consecutive ids from `firstId`. */
  lemma {:induction false} StagedAreResolvedRelatos(rs: seq<Relato>, cats: seq<Categoria>, firstId: int)
    requires StageRelatos(rs, cats, firstId).Some?
    ensures StagedFrom(StageRelatos(rs, cats, firstId).value.rows, Keep(rs, ResolvableIn(cats)), cats, firstId)
    decreases |rs|
  {
    if rs != [] {
      var init, last := rs[..|rs| - 1], rs[|rs| - 1];
      SplitLast(rs);
      StagedAreResolvedRelatos(init, cats, firstId);
      var st0 := StageRelatos(init, cats, firstId).value;
      assert StageRelatos(rs, cats, firstId) == StageOne(st0, last, cats, firstId);
      KeepSnoc(init, last, ResolvableIn(cats));
      StagedStep(st0, Keep(init, ResolvableIn(cats)), last, cats, firstId);
    }
  }

  /** One pass of the second loop stages the relato exactly when it resolves. */
  lemma StagedStep(st: Staging, ks: seq<Relato>, r: Relato, cats: seq<Categoria>, firstId: int)
    requires StageOne(st, r, cats, firstId).Some?
    requires StagedFrom(st.rows, ks, cats, firstId)
    ensures StagedFrom(StageOne(st, r, cats, firstId).value.rows, if Resolvable(cats, r) then ks + [r] else ks, cats, firstId)
  {
    if Resolvable(cats, r) {
      var rows, ks' := st.rows + [ResolvedTexto(cats, firstId + |st.rows|, r)], ks + [r];
      assert StageOne(st, r, cats, firstId).value.rows == rows;
      forall k | 0 <= k < |ks'| ensures Resolvable(cats, ks'[k]) && rows[k] == ResolvedTexto(cats, firstId + k, ks'[k]) {
        if k < |ks| {
          assert ks'[k] == ks[k] && rows[k] == st.rows[k];
        }
      }
    } else {
      assert StageOne(st, r, cats, firstId).value.rows == st.rows;
    }
  }

  /** When the text phase completes, the names it logged are those of the unresolved
      relatos, in input order. */
  lemma {:induction false} LoggedAreUnresolvedRelatos(rs: seq<Relato>, cats: seq<Categoria>, firstId: int)
    requires StageRelatos(rs, cats, firstId).Some?
    ensures StageRelatos(rs, cats, firstId).value.notFound == Nombres(Keep(rs, UnresolvedIn(cats)))
    decreases |rs|
  {
    if rs != [] {
      var init, last := rs[..|rs| - 1], rs[|rs| - 1];
      SplitLast(rs);
      LoggedAreUnresolvedRelatos(init, cats, firstId);
      var st0 := StageRelatos(init, cats, firstId).value;
      assert StageRelatos(rs, cats, firstId) == StageOne(st0, last, cats, firstId);
      KeepSnoc(init, last, UnresolvedIn(cats));
      if Unresolved(cats, last) {
        NombresSnoc(Keep(init, UnresolvedIn(cats)), last);
      }
    }
  }

  lemma NombresSnoc(rs: seq<Relato>, r: Relato)
    ensures Nombres(rs + [r]) == Nombres(rs) + [NombreOf(r)]
  {
    assert forall k :: 0 <= k < |rs| ==> (rs + [r])[k] == rs[k];
  }

  /** The second loop over one more relato whose name resolves stages its text. */
  lemma StagedOneMore(rs: seq<Relato>, cats: seq<Categoria>, firstId: int, j: int,
                      rows: seq<Texto>, notFound: seq<string>, t: Texto)
    requires 0 <= j < |rs| && Resolvable(cats, rs[j])
    requires StageRelatos(rs[..j], cats, firstId) == Some(Staging(rows, notFound))
    requires t == Texto(firstId + |rows|, rs[j].titulo, rs[j].autor, rs[j].descripcion, rs[j].contenido,
                        rs[j].region, Some(cats[NombreIndex(cats, rs[j].categoria_nombre.value)].id))
    ensures StageRelatos(rs[..j + 1], cats, firstId) == Some(Staging(rows + [t], notFound))
  {
    assert rs[..j + 1][..j] == rs[..j];
  }

  /** The second loop over one more relato whose name resolves to no category logs the name. */
  lemma LoggedOneMore(rs: seq<Relato>, cats: seq<Categoria>, firstId: int, j: int,
                      rows: seq<Texto>, notFound: seq<string>)
    requires 0 <= j < |rs| && Unresolved(cats, rs[j])
    requires StageRelatos(rs[..j], cats, firstId) == Some(Staging(rows, notFound))
    ensures StageRelatos(rs[..j + 1], cats, firstId) == Some(Staging(rows, notFound + [rs[j].categoria_nombre.value]))
  {
    assert rs[..j + 1][..j] == rs[..j];
  }

  /** A relato without `categoria_nombre` makes the whole text phase fail. */
  lemma FailsAtMissingKey(rs: seq<Relato>, cats: seq<Categoria>, firstId: int, j: int)
    requires 0 <= j < |rs| && rs[j].categoria_nombre.None?
    ensures StageRelatos(rs, cats, firstId).None?
  {
    StageFailsIffKeyMissing(rs, cats, firstId);
  }

  /** The first loop: one category row per input record, numbered from `firstId`. */
  method StageCategoriaRows(categorias: seq<CategoriaCreate>, firstId: int) returns (staged: seq<Categoria>)
    ensures staged == StagedCategorias(categorias, firstId)
  {
    staged := [];
    var i := 0;
    while i < |categorias|
      invariant 0 <= i <= |categorias|
      invariant |staged| == i
      invariant forall k :: 0 <= k < i ==> staged[k] == Categoria(firstId + k, categorias[k].nombre)
    {
      staged := staged + [Categoria(firstId + i, categorias[i].nombre)];
      i := i + 1;
    }
  }

  /** The second loop: pops each relato's `categoria_nombre`, stages the resolved ones
      with ids from `firstId`, logs the unresolved ones, and stops at the first relato
      that lacks the key. */
  method StageRelatoRows(relatos: seq<Relato>, cats: seq<Categoria>, firstId: int) returns (r: Option<Staging>)
    ensures r == StageRelatos(relatos, cats, firstId)
    ensures r.Some? ==> forall k :: 0 <= k < |r.value.rows| ==> r.value.rows[k].id == firstId + k
  {
    var rows: seq<Texto> := [];
    var notFound: seq<string> := [];
    var j := 0;
    while j < |relatos|
      invariant 0 <= j <= |relatos|
      invariant StageRelatos(relatos[..j], cats, firstId) == Some(Staging(rows, notFound))
    {
      var relato := relatos[j];
      if relato.categoria_nombre.None? {
        FailsAtMissingKey(relatos, cats, firstId, j);
        return None;
      }
      var nombre := relato.categoria_nombre.value;
      var k := NombreIndex(cats, nombre);
      if k != -1 {
        var texto := Texto(firstId + |rows|, relato.titulo, relato.autor, relato.descripcion,
                           relato.contenido, relato.region, Some(cats[k].id));
        StagedOneMore(relatos, cats, firstId, j, rows, notFound, texto);
        rows := rows + [texto];
      } else {
        LoggedOneMore(relatos, cats, firstId, j, rows, notFound);
        notFound := notFound + [nombre];
      }
      j := j + 1;
    }
    assert relatos[..j] == relatos;
    r := Some(Staging(rows, notFound));
  }

  /** `bulk_insert`: every category is committed before the first relato is read, so a
      relato may name a category from the same run; a relato naming a missing category
      is skipped and the later ones are still processed; an error in the text phase
      rolls back all of its texts but not the committed categories. */
  method BulkInsert(db: Store, categorias: seq<CategoriaCreate>, relatos: seq<Relato>) returns (report: Report)
    requires db.Valid()
    modifies db
    ensures db.Valid()
    ensures var staged := StagedCategorias(categorias, old(db.nextCategoriaId));
      if !NombresUnique(old(db.categorias) + staged) then
        && report == CategoryPhaseFailed
        && db.categorias == old(db.categorias) && db.nextCategoriaId == old(db.nextCategoriaId)
        && db.textos == old(db.textos) && db.nextTextoId == old(db.nextTextoId)
      else
        && db.categorias == old(db.categorias) + staged
        && db.nextCategoriaId == old(db.nextCategoriaId) + |categorias|
        && match StageRelatos(relatos, db.categorias, old(db.nextTextoId))
           case None =>
             report == TextPhaseFailed && db.textos == old(db.textos) && db.nextTextoId == old(db.nextTextoId)
           case Some(st) =>
             && report == Completed(st.notFound)
             && db.textos == old(db.textos) + st.rows
             && db.nextTextoId == old(db.nextTextoId) + |st.rows|
  {
    var staged := StageCategoriaRows(categorias, db.nextCategoriaId);
    if !NombresUnique(db.categorias + staged) {
      // The unique constraint on `nombre` fails the commit; the rollback drops every staged row.
      return CategoryPhaseFailed;
    }
    CommittedCategoriasKeepKeys(db.categorias, staged, db.nextCategoriaId);
    db.categorias := db.categorias + staged;
    db.nextCategoriaId := db.nextCategoriaId + |staged|;

    var staging := StageRelatoRows(relatos, db.categorias, db.nextTextoId);
    if staging.None? {
      // `pop('categoria_nombre')` raised; the rollback drops every staged text.
      return TextPhaseFailed;
    }
    var rows := staging.value.rows;
    AppendedTextosKeepKeys(db.textos, rows, db.nextTextoId);
    db.textos := db.textos + rows;
    db.nextTextoId := db.nextTextoId + |rows|;
    report := Completed(staging.value.notFound);
  }

  /** Category rows numbered from the counter keep ids unique and below the advanced counter. */
  lemma CommittedCategoriasKeepKeys(cs: seq<Categoria>, staged: seq<Categoria>, firstId: int)
    requires CategoriaIdsUnique(cs) && CategoriaIdsBelow(cs, firstId) && 1 <= firstId
    requires forall k :: 0 <= k < |staged| ==> staged[k].id == firstId + k
    ensures CategoriaIdsUnique(cs + staged)
    ensures CategoriaIdsBelow(cs + staged, firstId + |staged|)
  {
    var all := cs + staged;
    assert forall k :: 0 <= k < |all| ==> all[k] == if k < |cs| then cs[k] else staged[k - |cs|];
  }

  /** Text rows numbered from the counter keep ids unique and below the advanced counter. */
  lemma AppendedTextosKeepKeys(ts: seq<Texto>, rows: seq<Texto>, firstId: int)
    requires TextoIdsUnique(ts) && TextoIdsBelow(ts, firstId) && 1 <= firstId
    requires forall k :: 0 <= k < |rows| ==> rows[k].id == firstId + k
    ensures TextoIdsUnique(ts + rows)
    ensures TextoIdsBelow(ts + rows, firstId + |rows|)
  {
    var all := ts + rows;
    assert forall k :: 0 <= k < |all| ==> all[k] == if k < |ts| then ts[k] else rows[k - |ts|];
  }
}
