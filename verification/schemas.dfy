/** The request and response shapes (the pydantic models) and the validation
    that turns a JSON request body into a typed create record. */
module Schemas {
  import opened Outcomes

  /** A JSON value as far as validation distinguishes it. */
  datatype Json = JString(str: string) | JInt(num: int) | JOther

  /** A JSON object: the request body. */
  type Payload = map<string, Json>

  /** `TextoCreate` (= `TextoBase`): the six required fields of a text; no id. */
  datatype TextoCreate = TextoCreate(
    titulo: string, autor: string, descripcion: string,
    contenido: string, region: string, categoria_id: int)

  /** `CategoriaCreate` (= `CategoriaBase`): the one required field of a category; no id. */
  datatype CategoriaCreate = CategoriaCreate(nombre: string)

  /** The `Categoria` response shape: the create fields plus the stored id. */
  datatype CategoriaResponse = CategoriaResponse(id: int, nombre: string)

  /** The `Texto` response shape: the create fields, the stored id and the
      resolved category, which is absent when no category has that id. */
  datatype TextoResponse = TextoResponse(
    id: int, titulo: string, autor: string, descripcion: string,
    contenido: string, region: string, categoria_id: int,
    categoria: Option<CategoriaResponse>)

  /** The fields of `TextoCreate`, in declaration order. */
  const TextoFields: seq<string> := ["titulo", "autor", "descripcion", "contenido", "region", "categoria_id"]

  predicate IsStr(p: Payload, k: string) { k in p && p[k].JString? }

  predicate IsInt(p: Payload, k: string) { k in p && p[k].JInt? }

  /** Field `k` of `TextoCreate` is present in `p` with the declared type. */
  predicate TextoFieldOk(p: Payload, k: string) {
    if k == "categoria_id" then IsInt(p, k) else IsStr(p, k)
  }

  /** The fields of `TextoCreate` that `p` lacks or gives the wrong type, in declaration order. */
  function TextoErrors(p: Payload): seq<string> {
    (if IsStr(p, "titulo") then [] else ["titulo"])
    + (if IsStr(p, "autor") then [] else ["autor"])
    + (if IsStr(p, "descripcion") then [] else ["descripcion"])
    + (if IsStr(p, "contenido") then [] else ["contenido"])
    + (if IsStr(p, "region") then [] else ["region"])
    + (if IsInt(p, "categoria_id") then [] else ["categoria_id"])
  }

  /** Validates a body as `TextoCreate`: accepted exactly when all six fields
      are present with their types; otherwise rejected, naming exactly the bad fields. */
  function ParseTextoCreate(p: Payload): (r: Parsed<TextoCreate>)
    ensures r.Accepted? <==> forall k :: k in TextoFields ==> TextoFieldOk(p, k)
    ensures r.Rejected? ==> r.fields != [] && forall k :: k in r.fields <==> k in TextoFields && !TextoFieldOk(p, k)
    ensures r.Accepted? ==> TextoPayload(r.value) == map k | k in p && k in TextoFields :: p[k]
  {
    var errors := TextoErrors(p);
    if errors == [] then
      Accepted(TextoCreate(p["titulo"].str, p["autor"].str, p["descripcion"].str,
                           p["contenido"].str, p["region"].str, p["categoria_id"].num))
    else
      assert errors[0] in TextoFields && !TextoFieldOk(p, errors[0]);
      Rejected(errors)
  }

  /** Validates a body as `CategoriaCreate`: accepted exactly when `nombre` is a string. */
  function ParseCategoriaCreate(p: Payload): (r: Parsed<CategoriaCreate>)
    ensures r.Accepted? <==> IsStr(p, "nombre")
    ensures r.Accepted? ==> r.value.nombre == p["nombre"].str
    ensures r.Rejected? ==> r.fields == ["nombre"]
  {
    if IsStr(p, "nombre") then Accepted(CategoriaCreate(p["nombre"].str)) else Rejected(["nombre"])
  }

  /** The JSON body a client sends for a text. */
  function TextoPayload(t: TextoCreate): Payload {
    map["titulo" := JString(t.titulo), "autor" := JString(t.autor),
        "descripcion" := JString(t.descripcion), "contenido" := JString(t.contenido),
        "region" := JString(t.region), "categoria_id" := JInt(t.categoria_id)]
  }

  /** The JSON body a client sends for a category. */
  function CategoriaPayload(c: CategoriaCreate): Payload {
    map["nombre" := JString(c.nombre)]
  }

  /** Validation recovers every text body a client can send. */
  lemma TextoRoundTrip(t: TextoCreate)
    ensures ParseTextoCreate(TextoPayload(t)) == Accepted(t)
  {
  }

  /** Validation recovers every category body a client can send. */
  lemma CategoriaRoundTrip(c: CategoriaCreate)
    ensures ParseCategoriaCreate(CategoriaPayload(c)) == Accepted(c)
  {
  }

  /** A key outside the six declared fields (an `id` in particular) is ignored:
      the caller cannot choose the stored id. */
  lemma TextoIgnoresOtherKeys(p: Payload, k: string, v: Json)
    requires k !in TextoFields
    ensures ParseTextoCreate(p[k := v]) == ParseTextoCreate(p)
  {
    assert TextoErrors(p[k := v]) == TextoErrors(p);
  }

  /** A key other than `nombre` (an `id` in particular) is ignored. */
  lemma CategoriaIgnoresOtherKeys(p: Payload, k: string, v: Json)
    requires k != "nombre"
    ensures ParseCategoriaCreate(p[k := v]) == ParseCategoriaCreate(p)
  {
  }

  /** A partial update body is rejected rather than leaving fields unchanged:
      removing any one declared field makes validation fail and name that field. */
  lemma PartialBodyRejected(p: Payload, k: string)
    requires k in TextoFields
    ensures ParseTextoCreate(p - {k}).Rejected?
    ensures k in ParseTextoCreate(p - {k}).fields
  {
    assert !TextoFieldOk(p - {k}, k);
  }
}
