/** The two tables (`textos`, `categorias`), their keys, the unique category
    name, the foreign key and the two-way relationship between them. */
module Models {
  import opened Outcomes
  import opened Seqs
  import opened Schemas

  /** A row of `textos`. The `categoria_id` column is nullable: None is SQL NULL. */
  datatype Texto = Texto(
    id: int, titulo: string, autor: string, descripcion: string,
    contenido: string, region: string, categoria_id: Option<int>)

  /** A row of `categorias`. */
  datatype Categoria = Categoria(id: int, nombre: string)

  /** The row `Texto(**texto.model_dump())` builds, once the store gives it an id. */
  function NewTexto(id: int, input: TextoCreate): Texto {
    Texto(id, input.titulo, input.autor, input.descripcion, input.contenido, input.region, Some(input.categoria_id))
  }

  /** `id` is the primary key of `textos`. */
  predicate TextoIdsUnique(ts: seq<Texto>) {
    forall i, j :: 0 <= i < j < |ts| ==> ts[i].id != ts[j].id
  }

  /** `id` is the primary key of `categorias`. */
  predicate CategoriaIdsUnique(cs: seq<Categoria>) {
    forall i, j :: 0 <= i < j < |cs| ==> cs[i].id != cs[j].id
  }

  /** `nombre` carries a unique constraint. */
  predicate NombresUnique(cs: seq<Categoria>) {
    forall i, j :: 0 <= i < j < |cs| ==> cs[i].nombre != cs[j].nombre
  }

  /** Every text's non-null `categoria_id` names a stored category (the foreign key to `categorias.id`). */
  predicate ForeignKeysHold(ts: seq<Texto>, cs: seq<Categoria>) {
    forall t :: t in ts && t.categoria_id.Some? ==> exists c :: c in cs && c.id == t.categoria_id.value
  }

  /** Every text id lies in [1, n): below the next id the counter hands out. */
  predicate TextoIdsBelow(ts: seq<Texto>, n: int) {
    forall k :: 0 <= k < |ts| ==> 1 <= ts[k].id < n
  }

  /** Every category id lies in [1, n): below the next id the counter hands out. */
  predicate CategoriaIdsBelow(cs: seq<Categoria>, n: int) {
    forall k :: 0 <= k < |cs| ==> 1 <= cs[k].id < n
  }

  function HasTextoId(id: int): Texto -> bool { (t: Texto) => t.id == id }

  function HasCategoriaId(id: int): Categoria -> bool { (c: Categoria) => c.id == id }

  function HasNombre(nombre: string): Categoria -> bool { (c: Categoria) => c.nombre == nombre }

  function InCategoria(categoria_id: int): Texto -> bool { (t: Texto) => t.categoria_id == Some(categoria_id) }

  /** Position of the text with this id, or -1. */
  function TextoIndex(ts: seq<Texto>, id: int): int {
    FirstIndex(ts, HasTextoId(id))
  }

  /** Position of the category with this id, or -1. */
  function CategoriaIndex(cs: seq<Categoria>, id: int): int {
    FirstIndex(cs, HasCategoriaId(id))
  }

  /** Position of the first category with this name, or -1 (`filter_by(nombre=...).first()`). */
  function NombreIndex(cs: seq<Categoria>, nombre: string): int {
    FirstIndex(cs, HasNombre(nombre))
  }

  /** The category with this id, if stored. */
  function FindCategoria(cs: seq<Categoria>, id: int): (r: Option<Categoria>)
    ensures r.Some? ==> r.value in cs && r.value.id == id
    ensures r.None? <==> forall c :: c in cs ==> c.id != id
  {
    var i := CategoriaIndex(cs, id);
    if i == -1 then None else Some(cs[i])
  }

  /** `Texto.categoria`: the category whose id is the text's `categoria_id`; None when
      the column is NULL or no stored category has that id. */
  function CategoriaOf(t: Texto, cs: seq<Categoria>): (r: Option<Categoria>)
    ensures r.Some? ==> r.value in cs && t.categoria_id == Some(r.value.id)
    ensures r.None? <==> t.categoria_id.None? || forall c :: c in cs ==> c.id != t.categoria_id.value
  {
    match t.categoria_id
    case None => None
    case Some(id) => FindCategoria(cs, id)
  }

  /** `Categoria.textos`: the texts whose `categoria_id` is the category's id, in stored order. */
  function TextosOf(c: Categoria, ts: seq<Texto>): (r: seq<Texto>)
    ensures |r| <= |ts|
    ensures forall t :: t in r <==> t in ts && t.categoria_id == Some(c.id)
  {
    Keep(ts, InCategoria(c.id))
  }

  /** With unique primary keys, a stored category is found under its own id. */
  lemma FindsStoredCategoria(cs: seq<Categoria>, c: Categoria)
    requires CategoriaIdsUnique(cs) && c in cs
    ensures FindCategoria(cs, c.id) == Some(c)
  {
    var i := CategoriaIndex(cs, c.id);
    var j :| 0 <= j < |cs| && cs[j] == c;
    assert i != -1 by { assert HasCategoriaId(c.id)(cs[j]); }
  }

  /** The two sides of the relationship are inverses: a stored text is in a stored
      category's `textos` exactly when that category is the text's `categoria`. */
  lemma RelationshipInverse(ts: seq<Texto>, cs: seq<Categoria>, t: Texto, c: Categoria)
    requires CategoriaIdsUnique(cs) && t in ts && c in cs
    ensures t in TextosOf(c, ts) <==> CategoriaOf(t, cs) == Some(c)
  {
    FindsStoredCategoria(cs, c);
  }

  /** A text whose `categoria_id` is NULL or names no stored category belongs to no category's `textos`. */
  lemma OrphanInNoCategory(ts: seq<Texto>, cs: seq<Categoria>, t: Texto, c: Categoria)
    requires t in ts && c in cs && CategoriaOf(t, cs).None?
    ensures t !in TextosOf(c, ts)
  {
  }

  /** The foreign key holds exactly when every stored text with a non-null `categoria_id`
      resolves its `categoria`. */
  lemma ForeignKeysIffResolved(ts: seq<Texto>, cs: seq<Categoria>)
    ensures ForeignKeysHold(ts, cs) <==> forall t :: t in ts && t.categoria_id.Some? ==> CategoriaOf(t, cs).Some?
  {
  }
}
