/** Normalizing a request schema: references resolved once along a path, read-only
    properties dropped, depth bounded. */
module RequestSchema {
  import opened Bytes
  import opened Json

  const MAX_DEPTH: nat := 16

  /** The document, as what each JSON pointer into it finds. */
  type Document = map<string, Json>

  // ---------------------------------------------------------------------- references

  /** The source's `resolve_local_schema`: one hop, or the schema itself. */
  function Resolve(doc: Document, s: Json): Json {
    var r := Get(s, "$ref");
    if r.Some? && r.value.Str? && |r.value.s| > 0 && r.value.s[0] == '#' && r.value.s[1..] in doc
    then doc[r.value.s[1..]] else s
  }

  /** A reference that is followed at most once along a path. */
  function LocalReference(s: Json): Option<string> {
    var r := Get(s, "$ref");
    if r.Some? && r.value.Str? && |r.value.s| >= 2 && r.value.s[0] == '#' && r.value.s[1] == '/'
    then Some(r.value.s) else None
  }

  predicate ReadOnly(doc: Document, property: Json) {
    Get(Resolve(doc, property), "readOnly") == Some(Bool(true))
  }

  // -------------------------------------------------------------------- the contract

  /** What a keyword is to the contract. */
  datatype Keyword =
    | Constraint | MultipleOf | Required | Additional | Composition | Properties | Items | Dropped

  function KeywordOf(k: string): Keyword {
    if k == "required" then Required
    else if k == "properties" then Properties
    else if k == "items" then Items
    else if k == "additionalProperties" then Additional
    else if k == "multipleOf" then MultipleOf
    else if k == "allOf" || k == "oneOf" || k == "anyOf" then Composition
    else if k == "type" || k == "writeOnly" || k == "enum" || k == "format" || k == "nullable"
      || k == "minimum" || k == "maximum" || k == "exclusiveMinimum" || k == "exclusiveMaximum"
      || k == "minLength" || k == "maxLength" || k == "minItems" || k == "maxItems" || k == "uniqueItems"
      || k == "minProperties" || k == "maxProperties" then Constraint
    else Dropped
  }

  lemma NotKeywords()
    ensures KeywordOf("$ref") == Dropped && KeywordOf("readOnly") == Dropped
  {
    assert "$ref"[0] == '$' && "readOnly"[2] == 'a';
  }

  /** The required entries that do not name a read-only property. */
  function Writable(doc: Document, properties: Option<Json>, required: seq<Json>): seq<Json>
    decreases |required|
  {
    if required == [] then []
    else (if Keeps(doc, properties, required[0]) then [required[0]] else []) + Writable(doc, properties, required[1..])
  }

  predicate Keeps(doc: Document, properties: Option<Json>, entry: Json) {
    var property := if entry.Str? && properties.Some? then Get(properties.value, entry.s) else None;
    property.None? || !ReadOnly(doc, property.value)
  }

  /** What the contract says under keyword `k` of the resolved schema, if anything. */
  function Field(doc: Document, s: Json, depth: nat, active: set<string>, k: string): Option<Json>
    requires s.Obj? && k in s.fields && depth <= MAX_DEPTH
    decreases MAX_DEPTH - depth, 0, 0
  {
    var w := s.fields[k];
    match KeywordOf(k)
    case Constraint => Some(w)
    case MultipleOf => if w.Num? && w.n > 0.0 then Some(w) else None
    case Required => if w.Arr? then Some(Arr(Writable(doc, Get(s, "properties"), w.items))) else None
    case Additional =>
      if !w.Obj? then Some(w)
      else if depth < MAX_DEPTH then Some(Normal(doc, w, depth + 1, active))
      else Some(Obj(map[]))
    case Composition =>
      if depth < MAX_DEPTH && w.Arr? then Some(Arr(NormalAll(doc, w.items, depth + 1, active))) else None
    case Properties =>
      if depth < MAX_DEPTH && w.Obj? then Some(Obj(NormalProperties(doc, w.fields, depth + 1, active))) else None
    case Items => if depth < MAX_DEPTH then Some(Normal(doc, w, depth + 1, active)) else None
    case Dropped => None
  }

  /** The writable properties, normalized. */
  function NormalProperties(doc: Document, properties: Fields, depth: nat, active: set<string>): Fields
    requires depth <= MAX_DEPTH
    decreases MAX_DEPTH - depth, 3, 0
  {
    map n | n in properties && !ReadOnly(doc, properties[n]) :: Normal(doc, properties[n], depth, active)
  }

  function Contract(doc: Document, s: Json, depth: nat, active: set<string>): Fields
    requires depth <= MAX_DEPTH
    decreases MAX_DEPTH - depth, 1, 0
  {
    if s.Obj? then
      map k | k in s.fields && Field(doc, s, depth, active, k).Some? :: Field(doc, s, depth, active, k).value
    else map[]
  }

  /** The source's `normalize_request_schema_contract`, as a function. */
  function Normal(doc: Document, s: Json, depth: nat, active: set<string>): (r: Json)
    requires depth <= MAX_DEPTH
    ensures r.Obj?
    decreases MAX_DEPTH - depth, 2, 0
  {
    var reference := LocalReference(s);
    if reference.Some? && reference.value in active then Obj(map[])
    else
      Obj(Contract(doc, Resolve(doc, s), depth, Path(s, active)))
  }

  /** The references under way once the schema's own is entered. */
  function Path(s: Json, active: set<string>): set<string> {
    var reference := LocalReference(s);
    if reference.Some? then active + {reference.value} else active
  }

  function NormalAll(doc: Document, members: seq<Json>, depth: nat, active: set<string>): (r: seq<Json>)
    requires depth <= MAX_DEPTH
    ensures |r| == |members|
    ensures forall i | 0 <= i < |members| :: r[i] == Normal(doc, members[i], depth, active)
    decreases MAX_DEPTH - depth, 3, |members|
  {
    if members == [] then []
    else [Normal(doc, members[0], depth, active)] + NormalAll(doc, members[1..], depth, active)
  }

  // -------------------------------------------------------------------- no references

  /** No schema node reached from here is a reference. */
  predicate ReferenceFree(j: Json)
    decreases j, 1
  {
    j.Obj? ==> "$ref" !in j.fields && forall k | k in j.fields :: FreeUnder(j, k)
  }

  predicate FreeUnder(j: Json, k: string)
    requires j.Obj? && k in j.fields
    decreases j, 0
  {
    var w := j.fields[k];
    match KeywordOf(k)
    case Additional => ReferenceFree(w)
    case Items => ReferenceFree(w)
    case Composition => w.Arr? ==> forall i | 0 <= i < |w.items| :: ReferenceFree(w.items[i])
    case Properties => w.Obj? ==> forall n | n in w.fields :: ReferenceFree(w.fields[n])
    case _ => true
  }

  /** Only known keywords reach the contract. */
  lemma UnknownDropped(doc: Document, s: Json, depth: nat, active: set<string>)
    requires depth <= MAX_DEPTH
    ensures "$ref" !in Normal(doc, s, depth, active).fields && "readOnly" !in Normal(doc, s, depth, active).fields
  {
    hide KeywordOf;
    NotKeywords();
    var resolved, path := Resolve(doc, s), Path(s, active);
    forall k | k in {"$ref", "readOnly"} && resolved.Obj? && k in resolved.fields
      ensures Field(doc, resolved, depth, path, k) == None
    {
    }
  }

  /** A normalized schema has no reference on any of its nodes, however cyclic the
      document. */
  lemma {:induction false} NormalIsReferenceFree(doc: Document, s: Json, depth: nat, active: set<string>)
    requires depth <= MAX_DEPTH
    ensures ReferenceFree(Normal(doc, s, depth, active))
    decreases MAX_DEPTH - depth, 1
  {
    var n := Normal(doc, s, depth, active);
    UnknownDropped(doc, s, depth, active);
    var resolved, path := Resolve(doc, s), Path(s, active);
    forall k | k in n.fields ensures FreeUnder(n, k) {
      assert n.fields[k] == Field(doc, resolved, depth, path, k).value;
      FieldIsReferenceFree(doc, resolved, depth, path, n, k);
    }
  }

  lemma {:induction false} FieldIsReferenceFree(doc: Document, s: Json, depth: nat, active: set<string>, n: Json,
                                                k: string)
    requires s.Obj? && k in s.fields && depth <= MAX_DEPTH
    requires n.Obj? && k in n.fields && Field(doc, s, depth, active, k) == Some(n.fields[k])
    ensures FreeUnder(n, k)
    decreases MAX_DEPTH - depth, 0
  {
    hide KeywordOf, Contract, ReadOnly;
    var w := s.fields[k];
    if depth < MAX_DEPTH {
      match KeywordOf(k)
      case Additional =>
        if w.Obj? {
          NormalIsReferenceFree(doc, w, depth + 1, active);
        }
      case Items => NormalIsReferenceFree(doc, w, depth + 1, active);
      case Composition =>
        forall i | 0 <= i < |w.items| ensures ReferenceFree(n.fields[k].items[i]) {
          NormalIsReferenceFree(doc, w.items[i], depth + 1, active);
        }
      case Properties =>
        forall name | name in n.fields[k].fields ensures ReferenceFree(n.fields[k].fields[name]) {
          NormalIsReferenceFree(doc, w.fields[name], depth + 1, active);
        }
      case _ =>
    }
  }

  // ---------------------------------------------------------------------- idempotence

  /** A reference-free schema is its own resolution. */
  lemma FreeResolvesToItself(doc: Document, j: Json)
    requires Get(j, "$ref") == None
    ensures Resolve(doc, j) == j && LocalReference(j) == None
  {
  }

  /** A normalized property is not read-only. */
  lemma NormalIsWritable(doc: Document, s: Json, depth: nat, active: set<string>)
    requires depth <= MAX_DEPTH
    ensures !ReadOnly(doc, Normal(doc, s, depth, active))
  {
    UnknownDropped(doc, s, depth, active);
    FreeResolvesToItself(doc, Normal(doc, s, depth, active));
  }

  lemma {:induction false} WritableIsStable(doc: Document, properties: Option<Json>, required: seq<Json>)
    requires forall e | e in required :: Keeps(doc, properties, e)
    ensures Writable(doc, properties, required) == required
    decreases |required|
  {
    if required != [] {
      WritableIsStable(doc, properties, required[1..]);
      assert required == [required[0]] + required[1..];
    }
  }

  /** Exactly the entries to keep are kept. */
  lemma {:induction false} WritableMeaning(doc: Document, properties: Option<Json>, required: seq<Json>)
    ensures forall e :: e in Writable(doc, properties, required) <==> e in required && Keeps(doc, properties, e)
    decreases |required|
  {
    if required != [] {
      WritableMeaning(doc, properties, required[1..]);
      assert required == [required[0]] + required[1..];
    }
  }

  /** They are kept in order, each as often as it is listed. */
  lemma {:induction false} WritableInOrder(doc: Document, properties: Option<Json>, a: seq<Json>, b: seq<Json>)
    ensures Writable(doc, properties, a + b) == Writable(doc, properties, a) + Writable(doc, properties, b)
    decreases |a|
  {
    hide Keeps;
    if a == [] {
      assert a + b == b;
    } else {
      WritableInOrder(doc, properties, a[1..], b);
      assert (a + b)[1..] == a[1..] + b;
    }
  }

  /** Only the name of a read-only property is dropped. */
  lemma WritableOne(doc: Document, properties: Option<Json>, e: Json)
    ensures Writable(doc, properties, [e]) ==
              if e.Str? && properties.Some? && properties.value.Obj? && e.s in properties.value.fields &&
                 ReadOnly(doc, properties.value.fields[e.s])
              then [] else [e]
  {
    hide ReadOnly;
    assert [e][1..] == [];
  }

  /** Normalizing a normalized schema at the same depth changes nothing, whatever
      references are under way. */
  lemma {:induction false} NormalIsIdempotent(doc: Document, s: Json, depth: nat, active: set<string>,
                                              other: set<string>)
    requires depth <= MAX_DEPTH
    ensures Normal(doc, Normal(doc, s, depth, active), depth, other) == Normal(doc, s, depth, active)
    decreases MAX_DEPTH - depth, 1
  {
    var n := Normal(doc, s, depth, active);
    UnknownDropped(doc, s, depth, active);
    FreeResolvesToItself(doc, n);
    var resolved, path := Resolve(doc, s), Path(s, active);
    forall k | k in n.fields ensures Field(doc, n, depth, other, k) == Some(n.fields[k]) {
      assert n.fields[k] == Field(doc, resolved, depth, path, k).value;
      assert n.fields == Contract(doc, resolved, depth, path);
      FieldIsIdempotent(doc, resolved, depth, path, n, k, other);
    }
    hide Field;
    assert Contract(doc, n, depth, other) == n.fields;
  }

  lemma {:induction false} FieldIsIdempotent(doc: Document, s: Json, depth: nat, active: set<string>, n: Json,
                                             k: string, other: set<string>)
    requires s.Obj? && k in s.fields && depth <= MAX_DEPTH
    requires n == Obj(Contract(doc, s, depth, active)) && k in n.fields
    requires Field(doc, s, depth, active, k) == Some(n.fields[k])
    ensures Field(doc, n, depth, other, k) == Some(n.fields[k])
    decreases MAX_DEPTH - depth, 0
  {
    hide KeywordOf, Contract, ReadOnly, Writable;
    var w := s.fields[k];
    match KeywordOf(k)
    case Required => RequiredIsStable(doc, s, depth, active, n, w.items);
    case Additional =>
      if w.Obj? && depth < MAX_DEPTH {
        NormalIsIdempotent(doc, w, depth + 1, active, other);
      }
    case Items => NormalIsIdempotent(doc, w, depth + 1, active, other);
    case Composition =>
      var members, again := n.fields[k].items, NormalAll(doc, n.fields[k].items, depth + 1, other);
      forall i | 0 <= i < |members| ensures again[i] == members[i] {
        NormalIsIdempotent(doc, w.items[i], depth + 1, active, other);
      }
      assert again == members;
    case Properties =>
      PropertiesAreStable(doc, w.fields, depth + 1, active, other);
    case _ =>
  }

  lemma {:induction false} PropertiesAreStable(doc: Document, properties: Fields, depth: nat, active: set<string>,
                                               other: set<string>)
    requires 0 < depth <= MAX_DEPTH
    ensures var once := NormalProperties(doc, properties, depth, active);
            NormalProperties(doc, once, depth, other) == once
    decreases MAX_DEPTH - depth, 2
  {
    hide ReadOnly, Normal;
    var once := NormalProperties(doc, properties, depth, active);
    forall n | n in once ensures !ReadOnly(doc, once[n]) && Normal(doc, once[n], depth, other) == once[n] {
      NormalIsWritable(doc, properties[n], depth, active);
      NormalIsIdempotent(doc, properties[n], depth, active, other);
    }
  }

  lemma RequiredIsStable(doc: Document, s: Json, depth: nat, active: set<string>, n: Json, required: seq<Json>)
    requires s.Obj? && depth <= MAX_DEPTH && n == Obj(Contract(doc, s, depth, active))
    ensures var kept := Writable(doc, Get(s, "properties"), required);
            Writable(doc, Get(n, "properties"), kept) == kept
  {
    hide ReadOnly, KeywordOf, Normal;
    var kept := Writable(doc, Get(s, "properties"), required);
    forall e | e in kept ensures Keeps(doc, Get(n, "properties"), e) {
      NoReadOnlyLeft(doc, s, depth, active, n, e);
    }
    WritableIsStable(doc, Get(n, "properties"), kept);
  }

  /** The properties a contract describes. */
  lemma ContractProperties(doc: Document, s: Json, depth: nat, active: set<string>)
    requires s.Obj? && depth <= MAX_DEPTH
    ensures Get(Obj(Contract(doc, s, depth, active)), "properties") ==
              if depth < MAX_DEPTH && "properties" in s.fields && s.fields["properties"].Obj?
              then Some(Obj(NormalProperties(doc, s.fields["properties"].fields, depth + 1, active)))
              else None
  {
    assert KeywordOf("properties") == Properties;
    hide KeywordOf, NormalProperties;
  }

  lemma NoReadOnlyLeft(doc: Document, s: Json, depth: nat, active: set<string>, n: Json, e: Json)
    requires s.Obj? && depth <= MAX_DEPTH && n == Obj(Contract(doc, s, depth, active))
    ensures Keeps(doc, Get(n, "properties"), e)
  {
    hide ReadOnly, Normal, Contract;
    ContractProperties(doc, s, depth, active);
    if e.Str? && depth < MAX_DEPTH && "properties" in s.fields && s.fields["properties"].Obj? {
      var properties := s.fields["properties"].fields;
      if e.s in NormalProperties(doc, properties, depth + 1, active) {
        NormalIsWritable(doc, properties[e.s], depth + 1, active);
      }
    }
  }

  // --------------------------------------------------------------- read-only properties

  /** The property `name` of a schema, as the source looks it up. */
  function Property(s: Json, name: string): Option<Json> {
    var properties := Get(s, "properties");
    if properties.Some? then Get(properties.value, name) else None
  }

  predicate Requires(s: Json, name: string) {
    Str(name) in GetArray(s, "required")
  }

  /** The contract requires a name exactly when the schema does and the name is not
      one of its read-only properties; above the depth bound it describes exactly the
      properties that are not read-only. So no dropped property is ever required. */
  lemma ReadOnlyIsNeverRequired(doc: Document, s: Json, depth: nat, active: set<string>, name: string)
    requires depth <= MAX_DEPTH && (LocalReference(s).Some? ==> LocalReference(s).value !in active)
    ensures var n, resolved := Normal(doc, s, depth, active), Resolve(doc, s);
            var property := Property(resolved, name);
            && (Requires(n, name) <==> Requires(resolved, name) && (property.None? || !ReadOnly(doc, property.value)))
            && (depth < MAX_DEPTH ==> (Property(n, name).Some? <==> property.Some? && !ReadOnly(doc, property.value)))
  {
    var n, resolved, path := Normal(doc, s, depth, active), Resolve(doc, s), Path(s, active);
    NormalUnfolds(doc, s, depth, active);
    if resolved.Obj? {
      ContractProperties(doc, resolved, depth, path);
      ContractRequired(doc, resolved, depth, path);
      hide ReadOnly, Normal, Contract;
      if "required" in resolved.fields {
        WritableMeaning(doc, Get(resolved, "properties"), GetArray(resolved, "required"));
      }
    }
  }

  lemma ContractRequired(doc: Document, s: Json, depth: nat, active: set<string>)
    requires s.Obj? && depth <= MAX_DEPTH
    ensures GetArray(Obj(Contract(doc, s, depth, active)), "required") ==
              Writable(doc, Get(s, "properties"), GetArray(s, "required"))
  {
    assert KeywordOf("required") == Required;
    hide KeywordOf, Keeps;
  }

  lemma NormalUnfolds(doc: Document, s: Json, depth: nat, active: set<string>)
    requires depth <= MAX_DEPTH && (LocalReference(s).Some? ==> LocalReference(s).value !in active)
    ensures Normal(doc, s, depth, active) == Obj(Contract(doc, Resolve(doc, s), depth, Path(s, active)))
  {
  }

  // ------------------------------------------------- the contract, node by node

  /** The schema says `$ref: r`. */
  predicate RefersTo(s: Json, r: string) {
    s.Obj? && "$ref" in s.fields && s.fields["$ref"] == Str(r)
  }

  /** A reference into the document leads to what its pointer finds, and only such a
      reference leads anywhere; it is followed once along a path if its pointer is not
      empty. */
  lemma ReferencesExactly(doc: Document, s: Json)
    ensures forall p :: RefersTo(s, "#" + p) ==> Resolve(doc, s) == if p in doc then doc[p] else s
    ensures (forall p :: !RefersTo(s, "#" + p)) ==> Resolve(doc, s) == s
    ensures forall r :: LocalReference(s) == Some(r) <==> RefersTo(s, r) && "#/" <= r
    ensures ReadOnly(doc, s) <==>
              Resolve(doc, s).Obj? && ("readOnly", Bool(true)) in Resolve(doc, s).fields.Items
  {
    forall p | RefersTo(s, "#" + p) ensures Resolve(doc, s) == if p in doc then doc[p] else s {
      assert ("#" + p)[1..] == p;
    }
    if s.Obj? && "$ref" in s.fields && s.fields["$ref"].Str? {
      var r := s.fields["$ref"].s;
      if |r| > 0 && r[0] == '#' {
        assert r == "#" + r[1..];
        assert RefersTo(s, "#" + r[1..]);
      }
    }
  }

  /** One way down a schema. */
  datatype Turn = Item | Further | Member(keyword: string, index: nat) | Named(name: string)

  /** The schema one turn down; a property that is not read-only. */
  function Below(doc: Document, s: Json, turn: Turn): Option<Json> {
    match turn
    case Item => Get(s, "items")
    case Further =>
      var w := Get(s, "additionalProperties");
      if w.Some? && w.value.Obj? then w else None
    case Member(k, i) =>
      if k in {"allOf", "oneOf", "anyOf"} && i < |GetArray(s, k)| then Some(GetArray(s, k)[i]) else None
    case Named(n) =>
      var property := Property(s, n);
      if property.Some? && !ReadOnly(doc, property.value) then property else None
  }

  /** The keywords a contract keeps as they are. */
  const KEPT: set<string> := {
    "type", "writeOnly", "enum", "format", "nullable", "minimum", "maximum", "exclusiveMinimum",
    "exclusiveMaximum", "minLength", "maxLength", "minItems", "maxItems", "uniqueItems", "minProperties",
    "maxProperties"
  }

  /** What a contract node says at a depth of the resolved schema it describes. */
  ghost predicate Describes(doc: Document, depth: nat, n: Json, s: Json) {
    && n.Obj? && KnownOnly(depth, n) && DescribesValues(n, s) && DescribesRequired(doc, n, s)
    && DescribesFurther(depth, n, s)
    && (depth < 16 ==>
          && (Get(n, "items").Some? <==> Get(s, "items").Some?)
          && DescribesMembers(n, s, "allOf") && DescribesMembers(n, s, "oneOf") && DescribesMembers(n, s, "anyOf")
          && DescribesProperties(doc, n, s))
  }

  ghost predicate KnownOnly(depth: nat, n: Json)
    requires n.Obj?
  {
    forall k | k in n.fields ::
      k in KEPT || k in {"multipleOf", "required", "additionalProperties"} ||
      (depth < 16 && k in {"allOf", "oneOf", "anyOf", "properties", "items"})
  }

  ghost predicate DescribesValues(n: Json, s: Json) {
    && (forall k | k in KEPT :: Get(n, k) == Get(s, k))
    && (var w := Get(s, "multipleOf");
        Get(n, "multipleOf") == if w.Some? && w.value.Num? && w.value.n > 0.0 then w else None)
  }

  ghost predicate DescribesRequired(doc: Document, n: Json, s: Json) {
    var w := Get(s, "required");
    Get(n, "required") == if w.Some? && w.value.Arr?
                          then Some(Arr(Writable(doc, Get(s, "properties"), w.value.items))) else None
  }

  ghost predicate DescribesFurther(depth: nat, n: Json, s: Json) {
    var w, x := Get(s, "additionalProperties"), Get(n, "additionalProperties");
    if w.Some? && w.value.Obj? then x.Some? && x.value.Obj? && (depth == 16 ==> x == Some(Obj(map[]))) else x == w
  }

  ghost predicate DescribesMembers(n: Json, s: Json, k: string) {
    var w := Get(s, k);
    if w.Some? && w.value.Arr?
    then Get(n, k).Some? && Get(n, k).value.Arr? && |Get(n, k).value.items| == |w.value.items|
    else Get(n, k) == None
  }

  ghost predicate DescribesProperties(doc: Document, n: Json, s: Json) {
    var w := Get(s, "properties");
    if w.Some? && w.value.Obj?
    then Get(n, "properties").Some? && Get(n, "properties").value.Obj? &&
         forall name :: name in Get(n, "properties").value.fields <==>
                          name in w.value.fields && !ReadOnly(doc, w.value.fields[name])
    else Get(n, "properties") == None
  }

  /** Where a path down a document leads. */
  datatype Place =
    | Schema(s: Json)   // to a schema, resolved
    | Cycle             // to a reference that is already under way
    | Nowhere

  function Reached(doc: Document, s: Json, active: set<string>, path: seq<Turn>): Place
    decreases |path|
  {
    var reference := LocalReference(s);
    if reference.Some? && reference.value in active then if path == [] then Cycle else Nowhere
    else
      var resolved := Resolve(doc, s);
      if path == [] then Schema(resolved)
      else
        var next := Below(doc, resolved, path[0]);
        if next.None? then Nowhere
        else Reached(doc, next.value, if reference.Some? then active + {reference.value} else active, path[1..])
  }

  /** What a contract has at the end of the same path. */
  function Found(doc: Document, n: Json, path: seq<Turn>): Option<Json>
    decreases |path|
  {
    if path == [] then Some(n)
    else
      var next := Below(doc, n, path[0]);
      if next.None? then None else Found(doc, next.value, path[1..])
  }

  lemma KeptIsConstraint(k: string)
    requires k in KEPT
    ensures KeywordOf(k) == Constraint
  {
  }

  lemma Keywords()
    ensures KeywordOf("multipleOf") == MultipleOf && KeywordOf("required") == Required
    ensures KeywordOf("additionalProperties") == Additional
    ensures KeywordOf("items") == Items && KeywordOf("properties") == Properties
    ensures forall k | k in {"allOf", "oneOf", "anyOf"} :: KeywordOf(k) == Composition
  {
  }

  lemma KeywordsOnly(k: string)
    ensures KeywordOf(k).Constraint? ==> k in KEPT
    ensures KeywordOf(k).Composition? ==> k in {"allOf", "oneOf", "anyOf"}
    ensures KeywordOf(k).MultipleOf? ==> k == "multipleOf"
    ensures KeywordOf(k).Required? ==> k == "required"
    ensures KeywordOf(k).Additional? ==> k == "additionalProperties"
    ensures KeywordOf(k).Properties? ==> k == "properties"
    ensures KeywordOf(k).Items? ==> k == "items"
  {
  }

  lemma GetContract(doc: Document, s: Json, depth: nat, active: set<string>, k: string)
    requires depth <= MAX_DEPTH
    ensures Get(Obj(Contract(doc, s, depth, active)), k) ==
              if s.Obj? && k in s.fields then Field(doc, s, depth, active, k) else None
  {
    hide Field;
  }

  lemma ContractKnownOnly(doc: Document, s: Json, depth: nat, active: set<string>)
    requires depth <= 16
    ensures KnownOnly(depth, Obj(Contract(doc, s, depth, active)))
  {
    hide KeywordOf, Writable, ReadOnly, Contract, Normal, NormalProperties, NormalAll;
    var n := Obj(Contract(doc, s, depth, active));
    forall k | k in n.fields
      ensures k in KEPT || k in {"multipleOf", "required", "additionalProperties"} ||
              (depth < 16 && k in {"allOf", "oneOf", "anyOf", "properties", "items"})
    {
      GetContract(doc, s, depth, active, k);
      KeywordsOnly(k);
    }
  }

  lemma ContractValues(doc: Document, s: Json, depth: nat, active: set<string>)
    requires depth <= 16
    ensures DescribesValues(Obj(Contract(doc, s, depth, active)), s)
  {
    hide KeywordOf, Writable, ReadOnly, Contract, Normal, NormalProperties, NormalAll;
    var n := Obj(Contract(doc, s, depth, active));
    forall k | k in KEPT ensures Get(n, k) == Get(s, k) {
      GetContract(doc, s, depth, active, k);
      KeptIsConstraint(k);
    }
    GetContract(doc, s, depth, active, "multipleOf");
    Keywords();
  }

  lemma ContractStructure(doc: Document, s: Json, depth: nat, active: set<string>)
    requires depth <= 16
    ensures var n := Obj(Contract(doc, s, depth, active));
            && DescribesRequired(doc, n, s) && DescribesFurther(depth, n, s)
            && (depth < 16 ==>
                  && (Get(n, "items").Some? <==> Get(s, "items").Some?) && DescribesProperties(doc, n, s)
                  && forall k | k in {"allOf", "oneOf", "anyOf"} :: DescribesMembers(n, s, k))
  {
    hide KeywordOf, Writable, ReadOnly, Contract, Normal, NormalProperties;
    Keywords();
    GetContract(doc, s, depth, active, "required");
    GetContract(doc, s, depth, active, "additionalProperties");
    GetContract(doc, s, depth, active, "items");
    GetContract(doc, s, depth, active, "properties");
    forall k | k in {"allOf", "oneOf", "anyOf"} && depth < 16
      ensures DescribesMembers(Obj(Contract(doc, s, depth, active)), s, k)
    {
      GetContract(doc, s, depth, active, k);
    }
    if depth < 16 && s.Obj? && "properties" in s.fields && s.fields["properties"].Obj? {
      PropertyNamesKept(doc, s.fields["properties"].fields, depth + 1, active);
    }
  }

  lemma ContractDescribes(doc: Document, s: Json, depth: nat, active: set<string>)
    requires depth <= 16
    ensures Describes(doc, depth, Obj(Contract(doc, s, depth, active)), s)
  {
    hide Contract, KnownOnly, DescribesValues, DescribesRequired, DescribesFurther, DescribesMembers;
    hide DescribesProperties;
    ContractKnownOnly(doc, s, depth, active);
    ContractValues(doc, s, depth, active);
    ContractStructure(doc, s, depth, active);
  }

  lemma PropertyNamesKept(doc: Document, properties: Fields, depth: nat, active: set<string>)
    requires depth <= MAX_DEPTH
    ensures forall n :: n in NormalProperties(doc, properties, depth, active) <==>
                          n in properties && !ReadOnly(doc, properties[n])
  {
    hide ReadOnly, Normal;
  }

  /** One turn down the contract is the contract one turn down. */
  lemma TurnIsNormal(doc: Document, s: Json, depth: nat, active: set<string>, turn: Turn)
    requires depth < 16
    ensures Below(doc, Obj(Contract(doc, s, depth, active)), turn) ==
              var next := Below(doc, s, turn);
              if next.None? then None else Some(Normal(doc, next.value, depth + 1, active))
  {
    hide KeywordOf, ReadOnly, Contract, Normal;
    Keywords();
    match turn
    case Item => GetContract(doc, s, depth, active, "items");
    case Further => GetContract(doc, s, depth, active, "additionalProperties");
    case Member(k, i) => GetContract(doc, s, depth, active, k);
    case Named(name) =>
      GetContract(doc, s, depth, active, "properties");
      var property := Property(s, name);
      if property.Some? {
        NormalIsWritable(doc, property.value, depth + 1, active);
      }
  }

  /** Down to the depth bound, at the end of every path the contract says of the
      schema there exactly what `Describes` lists; it has nothing where the path leads
      nowhere, and an empty contract where a reference comes back to itself. */
  lemma {:induction false} ContractAtEveryPath(doc: Document, s: Json, depth: nat, active: set<string>, path: seq<Turn>)
    requires depth + |path| <= 16
    ensures var n := Found(doc, Normal(doc, s, depth, active), path);
            match Reached(doc, s, active, path)
            case Nowhere => n == None
            case Cycle => n == Some(Obj(map[]))
            case Schema(x) => n.Some? && Describes(doc, depth + |path|, n.value, x)
    decreases |path|
  {
    hide Describes, KeywordOf, ReadOnly, Contract, Below;
    var reference := LocalReference(s);
    if reference.Some? && reference.value in active {
      if path != [] {
        NothingBelow(doc, path[0]);
      }
    } else {
      var resolved, under := Resolve(doc, s), Path(s, active);
      NormalUnfolds(doc, s, depth, active);
      if path == [] {
        ContractDescribes(doc, resolved, depth, under);
      } else {
        TurnIsNormal(doc, resolved, depth, under, path[0]);
        var next := Below(doc, resolved, path[0]);
        if next.Some? {
          ContractAtEveryPath(doc, next.value, depth + 1, under, path[1..]);
        }
      }
    }
  }

  lemma NothingBelow(doc: Document, turn: Turn)
    ensures Below(doc, Obj(map[]), turn) == None
  {
  }

  // ------------------------------------------------------------------------- the program

  const CONSTRAINTS: seq<string> := [
    "type", "writeOnly", "enum", "format", "nullable", "minimum", "maximum",
    "exclusiveMinimum", "exclusiveMaximum", "minLength", "maxLength",
    "minItems", "maxItems", "uniqueItems", "minProperties", "maxProperties"
  ]

  const COMPOSITIONS: seq<string> := ["allOf", "oneOf", "anyOf"]

  lemma Listed(k: string)
    ensures KeywordOf(k).Constraint? ==> k in CONSTRAINTS
    ensures KeywordOf(k).Composition? ==> k in COMPOSITIONS
    ensures KeywordOf(k).MultipleOf? ==> k == "multipleOf"
    ensures KeywordOf(k).Required? ==> k == "required"
    ensures KeywordOf(k).Additional? ==> k == "additionalProperties"
    ensures KeywordOf(k).Properties? ==> k == "properties"
    ensures KeywordOf(k).Items? ==> k == "items"
  {
  }

  /** The part of the contract written so far. */
  function Written(doc: Document, s: Json, depth: nat, active: set<string>, done: set<string>): Fields
    requires depth <= MAX_DEPTH
  {
    if s.Obj? then
      map k | k in s.fields && k in done && Field(doc, s, depth, active, k).Some? ::
        Field(doc, s, depth, active, k).value
    else map[]
  }

  lemma WriteNext(doc: Document, s: Json, depth: nat, active: set<string>, done: set<string>, k: string)
    requires depth <= MAX_DEPTH
    ensures Written(doc, s, depth, active, done + {k}) ==
              if s.Obj? && k in s.fields && Field(doc, s, depth, active, k).Some?
              then Written(doc, s, depth, active, done)[k := Field(doc, s, depth, active, k).value]
              else Written(doc, s, depth, active, done)
  {
    hide Field;
  }

  /** Every keyword has been dealt with. */
  ghost predicate Complete(done: set<string>) {
    forall k :: !KeywordOf(k).Dropped? ==> k in done
  }

  lemma AllWritten(doc: Document, s: Json, depth: nat, active: set<string>, done: set<string>)
    requires depth <= MAX_DEPTH && Complete(done)
    ensures Written(doc, s, depth, active, done) == Contract(doc, s, depth, active)
  {
    hide KeywordOf;
    if s.Obj? {
      forall k | k in s.fields && Field(doc, s, depth, active, k).Some? ensures k in done {
        assert !KeywordOf(k).Dropped?;
      }
    }
  }

  /** The source's `copy_request_schema_value_constraints`. */
  method CopyConstraints(doc: Document, s: Json, ghost depth: nat, ghost active: set<string>)
    returns (fields: Fields, ghost done: set<string>)
    requires depth <= MAX_DEPTH
    ensures fields == Written(doc, s, depth, active, done)
    ensures (forall k :: k in CONSTRAINTS ==> k in done) && "multipleOf" in done
  {
    fields, done := map[], {};
    for i := 0 to |CONSTRAINTS|
      invariant fields == Written(doc, s, depth, active, done)
      invariant forall j :: 0 <= j < i ==> CONSTRAINTS[j] in done
    {
      var k := CONSTRAINTS[i];
      WriteNext(doc, s, depth, active, done, k);
      ConstraintField(doc, s, depth, active, i);
      var value := Get(s, k);
      if value.Some? {
        fields := fields[k := value.value];
      }
      done := done + {k};
    }
    MultipleOfField(doc, s, depth, active);
    WriteNext(doc, s, depth, active, done, "multipleOf");
    var multiple := Get(s, "multipleOf");
    if multiple.Some? && multiple.value.Num? && multiple.value.n > 0.0 {
      fields := fields["multipleOf" := multiple.value];
    }
    done := done + {"multipleOf"};
  }

  lemma ConstraintField(doc: Document, s: Json, depth: nat, active: set<string>, i: nat)
    requires depth <= MAX_DEPTH && i < |CONSTRAINTS|
    ensures s.Obj? && CONSTRAINTS[i] in s.fields ==>
              Field(doc, s, depth, active, CONSTRAINTS[i]) == Some(s.fields[CONSTRAINTS[i]])
  {
    hide KeywordOf;
    KeptIsConstraint(CONSTRAINTS[i]);
  }

  lemma MultipleOfField(doc: Document, s: Json, depth: nat, active: set<string>)
    requires depth <= MAX_DEPTH
    ensures s.Obj? && "multipleOf" in s.fields ==>
              Field(doc, s, depth, active, "multipleOf") ==
              var w := s.fields["multipleOf"]; if w.Num? && w.n > 0.0 then Some(w) else None
  {
  }

  method KeepWritable(doc: Document, properties: Option<Json>, required: seq<Json>) returns (kept: seq<Json>)
    ensures kept == Writable(doc, properties, required)
  {
    hide Keeps;
    kept := [];
    for i := 0 to |required|
      invariant kept + Writable(doc, properties, required[i..]) == Writable(doc, properties, required)
    {
      KeepNext(doc, properties, required, i, kept);
      if Keeps(doc, properties, required[i]) {
        kept := kept + [required[i]];
      }
    }
  }

  lemma KeepNext(doc: Document, properties: Option<Json>, required: seq<Json>, i: nat, kept: seq<Json>)
    requires i < |required|
    ensures var now := if Keeps(doc, properties, required[i]) then kept + [required[i]] else kept;
            now + Writable(doc, properties, required[i + 1..]) == kept + Writable(doc, properties, required[i..])
  {
    hide Keeps;
    assert required[i..][1..] == required[i + 1..];
  }

  /** The source's `copy_request_schema_required`. */
  method CopyRequired(doc: Document, s: Json, ghost depth: nat, ghost active: set<string>, fields: Fields,
                      ghost done: set<string>)
    returns (out: Fields)
    requires depth <= MAX_DEPTH && fields == Written(doc, s, depth, active, done)
    ensures out == Written(doc, s, depth, active, done + {"required"})
  {
    WriteNext(doc, s, depth, active, done, "required");
    out := fields;
    var required := Get(s, "required");
    if required.Some? && required.value.Arr? {
      var kept := KeepWritable(doc, Get(s, "properties"), required.value.items);
      out := out["required" := Arr(kept)];
    }
  }

  method CopyAdditional(doc: Document, s: Json, depth: nat, active: set<string>, fields: Fields,
                        ghost done: set<string>)
    returns (out: Fields, after: set<string>)
    requires depth <= MAX_DEPTH && fields == Written(doc, s, depth, active, done)
    ensures out == Written(doc, s, depth, active, done + {"additionalProperties"}) && after == active
    decreases MAX_DEPTH - depth, 1, 0
  {
    WriteNext(doc, s, depth, active, done, "additionalProperties");
    out, after := fields, active;
    var additional := Get(s, "additionalProperties");
    if additional.Some? {
      var value := additional.value;
      if value.Obj? {
        if depth < MAX_DEPTH {
          value, after := Normalize(doc, value, depth + 1, after);
        } else {
          value := Obj(map[]);
        }
      }
      out := out["additionalProperties" := value];
    }
  }

  method NormalizeMembers(doc: Document, members: seq<Json>, depth: nat, active: set<string>)
    returns (out: seq<Json>, after: set<string>)
    requires depth <= MAX_DEPTH
    ensures out == NormalAll(doc, members, depth, active) && after == active
    decreases MAX_DEPTH - depth, 3, 0
  {
    out, after := [], active;
    for i := 0 to |members|
      invariant |out| == i && after == active
      invariant forall j :: 0 <= j < i ==> out[j] == Normal(doc, members[j], depth, active)
    {
      var member;
      member, after := Normalize(doc, members[i], depth, after);
      out := out + [member];
    }
    assert out == NormalAll(doc, members, depth, active);
  }

  method CopyCompositions(doc: Document, s: Json, depth: nat, active: set<string>, fields: Fields,
                          ghost done: set<string>)
    returns (out: Fields, after: set<string>, ghost now: set<string>)
    requires depth < MAX_DEPTH && fields == Written(doc, s, depth, active, done)
    ensures out == Written(doc, s, depth, active, now) && after == active
    ensures done <= now && forall k :: k in COMPOSITIONS ==> k in now
    decreases MAX_DEPTH - depth, 1, 0
  {
    hide KeywordOf, Written;
    Keywords();
    out, after, now := fields, active, done;
    for i := 0 to |COMPOSITIONS|
      invariant out == Written(doc, s, depth, active, now) && after == active
      invariant done <= now && forall j :: 0 <= j < i ==> COMPOSITIONS[j] in now
    {
      var k := COMPOSITIONS[i];
      assert k in {"allOf", "oneOf", "anyOf"};
      WriteNext(doc, s, depth, active, now, k);
      var value := Get(s, k);
      if value.Some? && value.value.Arr? {
        var members;
        members, after := NormalizeMembers(doc, value.value.items, depth + 1, after);
        out := out[k := Arr(members)];
      }
      now := now + {k};
    }
  }

  /** The writable properties but those in `left`, normalized. */
  function SomeProperties(doc: Document, properties: Fields, left: set<string>, depth: nat, active: set<string>): Fields
    requires depth <= MAX_DEPTH
  {
    map n | n in properties && n !in left && !ReadOnly(doc, properties[n]) :: Normal(doc, properties[n], depth, active)
  }

  lemma NextProperty(doc: Document, properties: Fields, left: set<string>, depth: nat, active: set<string>, n: string)
    requires depth <= MAX_DEPTH && n in left && n in properties
    ensures SomeProperties(doc, properties, left - {n}, depth, active) ==
              var so_far := SomeProperties(doc, properties, left, depth, active);
              if ReadOnly(doc, properties[n]) then so_far else so_far[n := Normal(doc, properties[n], depth, active)]
  {
    hide ReadOnly, Normal;
  }

  /** The loop over the properties, in whatever order. */
  method NormalizeWritable(doc: Document, properties: Fields, depth: nat, active: set<string>)
    returns (out: Fields, after: set<string>)
    requires depth <= MAX_DEPTH
    ensures out == NormalProperties(doc, properties, depth, active) && after == active
    decreases MAX_DEPTH - depth, 3, 0
  {
    hide ReadOnly, Normal;
    var names := properties.Keys;
    out, after := map[], active;
    while names != {}
      invariant names <= properties.Keys && after == active
      invariant out == SomeProperties(doc, properties, names, depth, active)
      decreases |names|
    {
      var name :| name in names;
      NextProperty(doc, properties, names, depth, active, name);
      if !ReadOnly(doc, properties[name]) {
        var property;
        property, after := Normalize(doc, properties[name], depth, after);
        out := out[name := property];
      }
      names := names - {name};
    }
  }

  method CopyProperties(doc: Document, s: Json, depth: nat, active: set<string>, fields: Fields,
                        ghost done: set<string>)
    returns (out: Fields, after: set<string>)
    requires depth < MAX_DEPTH && fields == Written(doc, s, depth, active, done)
    ensures out == Written(doc, s, depth, active, done + {"properties"}) && after == active
    decreases MAX_DEPTH - depth, 1, 0
  {
    hide Written, NormalProperties;
    assert KeywordOf("properties") == Properties;
    hide KeywordOf;
    WriteNext(doc, s, depth, active, done, "properties");
    out, after := fields, active;
    var properties := Get(s, "properties");
    if properties.Some? && properties.value.Obj? {
      var writable;
      writable, after := NormalizeWritable(doc, properties.value.fields, depth + 1, after);
      out := out["properties" := Obj(writable)];
    }
  }

  method CopyItems(doc: Document, s: Json, depth: nat, active: set<string>, fields: Fields, ghost done: set<string>)
    returns (out: Fields, after: set<string>)
    requires depth < MAX_DEPTH && fields == Written(doc, s, depth, active, done)
    ensures out == Written(doc, s, depth, active, done + {"items"}) && after == active
    decreases MAX_DEPTH - depth, 1, 0
  {
    hide Written, Normal;
    assert KeywordOf("items") == Items;
    hide KeywordOf;
    WriteNext(doc, s, depth, active, done, "items");
    out, after := fields, active;
    var items := Get(s, "items");
    if items.Some? {
      var normal;
      normal, after := Normalize(doc, items.value, depth + 1, after);
      out := out["items" := normal];
    }
  }

  /** The source's `normalize_request_schema_contract`: it ends on every document,
      and hands back the references under way as it found them. */
  method Normalize(doc: Document, s: Json, depth: nat, active: set<string>) returns (contract: Json, after: set<string>)
    requires depth <= MAX_DEPTH
    ensures contract == Normal(doc, s, depth, active) && after == active
    decreases MAX_DEPTH - depth, 2, 0
  {
    hide Written, Field, KeywordOf;
    var reference := LocalReference(s);
    after := active;
    if reference.Some? {
      if reference.value in active {
        return Obj(map[]), active;
      }
      after := active + {reference.value};
    }
    ghost var path := after;
    var resolved := Resolve(doc, s);
    ghost var done;
    var fields;
    fields, done := CopyConstraints(doc, resolved, depth, path);
    fields := CopyRequired(doc, resolved, depth, path, fields, done);
    done := done + {"required"};
    fields, after := CopyAdditional(doc, resolved, depth, after, fields, done);
    done := done + {"additionalProperties"};
    if depth < MAX_DEPTH {
      fields, after, done := CopyCompositions(doc, resolved, depth, after, fields, done);
      fields, after := CopyProperties(doc, resolved, depth, after, fields, done);
      done := done + {"properties"};
      fields, after := CopyItems(doc, resolved, depth, after, fields, done);
      done := done + {"items"};
      ListedIsComplete(done);
      AllWritten(doc, resolved, depth, path, done);
    } else {
      DeepWritten(doc, resolved, path, done);
    }
    contract := Obj(fields);
    NormalUnfolds(doc, s, depth, active);
    if reference.Some? {
      after := after - {reference.value};
    }
  }

  lemma ListedIsComplete(done: set<string>)
    requires (forall k :: k in CONSTRAINTS ==> k in done) && (forall k :: k in COMPOSITIONS ==> k in done)
    requires {"multipleOf", "required", "additionalProperties", "properties", "items"} <= done
    ensures Complete(done)
  {
    hide KeywordOf;
    forall k | !KeywordOf(k).Dropped? ensures k in done {
      Listed(k);
    }
  }

  /** At the depth bound nothing below is written. */
  lemma DeepWritten(doc: Document, s: Json, active: set<string>, done: set<string>)
    requires (forall k :: k in CONSTRAINTS ==> k in done)
    requires {"multipleOf", "required", "additionalProperties"} <= done
    ensures Written(doc, s, MAX_DEPTH, active, done) == Contract(doc, s, MAX_DEPTH, active)
  {
    hide KeywordOf;
    if s.Obj? {
      forall k | k in s.fields && Field(doc, s, MAX_DEPTH, active, k).Some? ensures k in done {
        Listed(k);
      }
    }
  }

  // ------------------------------------------------------------------------ request bodies

  datatype BodyError = NotAString | TooDeep | Unsupported | Unresolved | NotABody

  /** The source's `resolve_request_body`. */
  function ResolveBody(doc: Document, body: Json, depth: nat): Result<Json, BodyError>
    requires depth <= MAX_DEPTH
    decreases MAX_DEPTH - depth
  {
    var reference := Get(body, "$ref");
    if reference.None? then Ok(body)
    else if !reference.value.Str? then Err(NotAString)
    else if depth == MAX_DEPTH then Err(TooDeep)
    else if LocalReference(body).None? then Err(Unsupported)
    else if reference.value.s[1..] !in doc then Err(Unresolved)
    else ResolveBody(doc, doc[reference.value.s[1..]], depth + 1)
  }

  /** The node `n` local references away, if there is one. */
  function Hops(doc: Document, body: Json, n: nat): Option<Json>
    decreases n
  {
    if n == 0 then Some(body)
    else
      var reference := LocalReference(body);
      if reference.None? || reference.value[1..] !in doc then None
      else Hops(doc, doc[reference.value[1..]], n - 1)
  }

  predicate Ends(doc: Document, body: Json, n: nat, x: Json) {
    Hops(doc, body, n) == Some(x) && Get(x, "$ref").None?
  }

  /** A body resolves to `x` exactly when at most sixteen local references lead from
      it to `x`, and `x` is no reference: whatever the cycles, and never otherwise. */
  lemma {:induction false} ResolvesWithinBound(doc: Document, body: Json, depth: nat, x: Json)
    requires depth <= MAX_DEPTH
    ensures ResolveBody(doc, body, depth) == Ok(x) <==> exists n :: 0 <= n <= MAX_DEPTH - depth && Ends(doc, body, n, x)
    decreases MAX_DEPTH - depth
  {
    var reference := LocalReference(body);
    if Get(body, "$ref").None? {
      assert Ends(doc, body, 0, body);
      assert forall n :: n > 0 ==> Hops(doc, body, n).None?;
    } else if reference.Some? && reference.value[1..] in doc && depth < MAX_DEPTH {
      var next := doc[reference.value[1..]];
      ResolvesWithinBound(doc, next, depth + 1, x);
      if n :| 0 <= n <= MAX_DEPTH - depth - 1 && Ends(doc, next, n, x) {
        assert Ends(doc, body, n + 1, x);
      }
      if n :| 0 <= n <= MAX_DEPTH - depth && Ends(doc, body, n, x) {
        assert Ends(doc, next, n - 1, x);
      }
    }
  }

  /** The source's `request_schema_contract`. */
  function RequestContract(doc: Document, operation: Json): Result<Option<Json>, BodyError> {
    var found := Get(operation, "requestBody");
    if found.None? then Ok(None)
    else
      var body := ResolveBody(doc, found.value, 0);
      if body.Err? then Err(body.error)
      else
        var content, required := Get(body.value, "content"), Get(body.value, "required");
        if content.None? || !content.value.Obj? || (required.Some? && !required.value.Bool?) then Err(NotABody)
        else
          var media := Get(content.value, "application/json");
          var schema := if media.Some? then Get(media.value, "schema") else None;
          if schema.None? then Ok(None)
          else
            var contract := Normal(doc, schema.value, 0, {});
            var flag := if required.Some? then required.value else Bool(false);
            Ok(Some(Obj(contract.fields["x-cfctl-body-required" := flag])))
  }

  /** The schema of the JSON content of a body. */
  function JsonSchema(body: Json): Option<Json> {
    var content := Get(body, "content");
    var media := if content.Some? then Get(content.value, "application/json") else None;
    if media.Some? then Get(media.value, "schema") else None
  }

  /** What the source asks of a body. */
  predicate IsBody(body: Json) {
    && Get(body, "content").Some? && Get(body, "content").value.Obj?
    && (Get(body, "required").Some? ==> Get(body, "required").value.Bool?)
  }

  /** A contract is reported exactly for an operation whose body, at most sixteen local
      references away, has a JSON schema; it is the contract of that schema from the
      top, with the flag whether the body is required, which is no unless it says so. */
  lemma RequestContractExactly(doc: Document, operation: Json, c: Json)
    ensures RequestContract(doc, operation) == Ok(Some(c)) <==>
              && Get(operation, "requestBody").Some?
              && exists n, body :: 0 <= n <= 16 && Ends(doc, Get(operation, "requestBody").value, n, body) &&
                   IsBody(body) && JsonSchema(body).Some? &&
                   c == Obj(Normal(doc, JsonSchema(body).value, 0, {}).fields[
                     "x-cfctl-body-required" := Bool(Get(body, "required") == Some(Bool(true)))])
    ensures RequestContract(doc, operation) == Ok(None) <==>
              || Get(operation, "requestBody").None?
              || exists n, body :: 0 <= n <= 16 && Ends(doc, Get(operation, "requestBody").value, n, body) &&
                   IsBody(body) && JsonSchema(body).None?
  {
    hide Normal, ResolveBody, Ends;
    var found := Get(operation, "requestBody");
    if found.Some? {
      EndsOnce(doc, found.value);
    }
  }

  lemma EndsOnce(doc: Document, body: Json)
    ensures forall n, x :: 0 <= n <= 16 && Ends(doc, body, n, x) ==> ResolveBody(doc, body, 0) == Ok(x)
    ensures ResolveBody(doc, body, 0).Ok? ==>
              exists n :: 0 <= n <= 16 && Ends(doc, body, n, ResolveBody(doc, body, 0).value)
  {
    forall n, x | 0 <= n <= 16 && Ends(doc, body, n, x) ensures ResolveBody(doc, body, 0) == Ok(x) {
      ResolvesWithinBound(doc, body, 0, x);
    }
    var r := ResolveBody(doc, body, 0);
    if r.Ok? {
      ResolvesWithinBound(doc, body, 0, r.value);
    }
  }

  /** A request body that does not resolve to one is an error: it is reported as
      absent only when the operation has none, or it resolves to a body without a
      JSON schema. */
  lemma BrokenBodyIsNotAbsent(doc: Document, operation: Json)
    requires RequestContract(doc, operation) == Ok(None)
    ensures Get(operation, "requestBody").None? ||
            exists n, x :: 0 <= n <= MAX_DEPTH && Ends(doc, Get(operation, "requestBody").value, n, x) &&
                           Get(x, "content").Some?
  {
    var found := Get(operation, "requestBody");
    if found.Some? {
      var body := ResolveBody(doc, found.value, 0);
      ResolvesWithinBound(doc, found.value, 0, body.value);
      var n :| 0 <= n <= MAX_DEPTH && Ends(doc, found.value, n, body.value);
    }
  }
}
