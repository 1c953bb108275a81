/** The IndexedProperties bundle's value side: the JSON values it writes into
    documents, the Lucene fields an index entry carries, how the document id
    of a removed entry is found, how a field becomes a JSON value, which
    properties an entry contributes, and what applying a pending state to a
    document does. */
module IndexedValues {
  import opened Common

  /** A Lucene numeric value (int, long, float or double). */
  datatype Number = IntNumber(i: int) | RealNumber(r: real)

  /** A RavenJToken. */
  datatype Json =
    | JNull
    | JBool(b: bool)
    | JNumber(n: Number)
    | JString(s: string)
    | JArray(items: seq<Json>)
    | JObject(props: map<string, Json>)

  /** A stored Lucene field; `numeric` is set exactly for a NumericField. */
  datatype Field = Field(name: string, text: string, numeric: Option<Number>)

  /** A Lucene document: its fields in order, names may repeat. */
  type LuceneDoc = seq<Field>

  /** The foreign functions the bundle relies on.
      - parse:        RavenJObject.Parse, None where it throws
      - isWhiteSpace: Char.IsWhiteSpace, as used by TrimStart
      - isIgnorable:  the characters the current culture's string comparison
                      passes over, such as the soft hyphen U+00AD
      - scalarText:   what Value<string> gives for a boolean or a number */
  datatype JsonEnv = JsonEnv(
    parse: string -> Option<map<string, Json>>,
    isWhiteSpace: char -> bool,
    isIgnorable: char -> bool,
    scalarText: Json -> string)

  /** One entry of FieldNameMappings: index field name to document property. */
  datatype Mapping = Mapping(field: string, target: string)

  /** IndexedPropertiesSetupDoc. */
  datatype SetupDoc = SetupDoc(documentKey: string, mappings: seq<Mapping>)

  /** PropsState: either queued for removal or holding the values to set. */
  datatype PropsState = Deleted | Values(props: map<string, Json>)

  /** A stored document: its JSON body and the entity name in its metadata. */
  datatype StoredDoc = StoredDoc(data: map<string, Json>, entityName: Option<string>)

  /** A call of DocumentDatabase.Put. */
  datatype PutCall = PutCall(key: string, data: map<string, Json>)

  // ---------------------------------------------------------------------
  // Entry keys

  /** String.TrimStart(): the text without its leading white space. */
  function TrimStart(env: JsonEnv, s: string): (r: string)
    ensures |r| <= |s| && r == s[|s| - |r|..]
    ensures |r| > 0 ==> !env.isWhiteSpace(r[0])
    ensures forall i :: 0 <= i < |s| - |r| ==> env.isWhiteSpace(s[i])
  {
    if |s| > 0 && env.isWhiteSpace(s[0]) then TrimStart(env, s[1..]) else s
  }

  /** The text from its first character the culture's comparison does not
      pass over. */
  function SkipIgnorable(env: JsonEnv, s: string): (r: string)
    ensures |r| <= |s| && r == s[|s| - |r|..]
    ensures |r| > 0 ==> !env.isIgnorable(r[0])
    ensures forall i :: 0 <= i < |s| - |r| ==> env.isIgnorable(s[i])
  {
    if |s| > 0 && env.isIgnorable(s[0]) then SkipIgnorable(env, s[1..]) else s
  }

  /** String.StartsWith("{") under the current culture: ignorable characters
      in front of the brace do not count. */
  predicate StartsWithBrace(env: JsonEnv, s: string)
  {
    var u := SkipIgnorable(env, s);
    |u| > 0 && u[0] == '{'
  }

  /** Value<string> of a property: null when absent or null, the text of a
      string, the rendering of a boolean or a number. */
  function TextValue(env: JsonEnv, obj: map<string, Json>, key: string): Option<string>
  {
    if key !in obj then None
    else match obj[key]
      case JString(s) => Some(s)
      case JBool(_) => Some(env.scalarText(obj[key]))
      case JNumber(_) => Some(env.scalarText(obj[key]))
      case _ => None
  }

  /** The document id OnIndexEntryDeleted queues for, if any: a key that
      does not start with `{` once trimmed is the id itself; otherwise it
      is parsed as JSON and the id is its `documentKey` property. */
  function DeletedId(env: JsonEnv, documentKey: string, entryKey: Option<string>): Option<string>
  {
    match entryKey
    case None => None
    case Some(k) =>
      var t := TrimStart(env, k);
      if !StartsWithBrace(env, t) then Some(k)
      else match env.parse(k)
        case None => None
        case Some(entry) => TextValue(env, entry, documentKey)
  }

  /** ConcurrentDictionary.TryAdd: a key already present keeps its state. */
  function TryAdd(items: map<string, PropsState>, id: string, st: PropsState): map<string, PropsState>
  {
    if id in items then items else items[id := st]
  }

  /** A null key queues nothing; a key with no opening brace is queued
      under its own text. */
  lemma DeletedIdCases(env: JsonEnv, documentKey: string, k: string)
    ensures DeletedId(env, documentKey, None) == None
    ensures (forall i :: 0 <= i < |k| ==> k[i] != '{') ==> DeletedId(env, documentKey, Some(k)) == Some(k)
  {
    var t := TrimStart(env, k);
    var u := SkipIgnorable(env, t);
    if |u| > 0 {
      assert u[0] == t[|t| - |u|] == k[|k| - |u|];
    }
  }

  /** A key that starts with `{` is queued under its id property when that
      is a string; a key that does not parse, or whose JSON lacks the id,
      queues nothing. */
  lemma DeletedIdJson(env: JsonEnv, documentKey: string, k: string)
    requires |k| > 0 && k[0] == '{' && !env.isWhiteSpace('{') && !env.isIgnorable('{')
    ensures env.parse(k).None? ==> DeletedId(env, documentKey, Some(k)) == None
    ensures env.parse(k).Some? && documentKey !in env.parse(k).value ==> DeletedId(env, documentKey, Some(k)) == None
    ensures env.parse(k).Some? && documentKey in env.parse(k).value && env.parse(k).value[documentKey].JString? ==>
      DeletedId(env, documentKey, Some(k)) == Some(env.parse(k).value[documentKey].s)
  {
    assert TrimStart(env, k) == k;
    assert SkipIgnorable(env, k) == k;
  }

  /** A brace behind a character the culture passes over, and that is not
      white space, still takes the JSON path, so it queues nothing when it
      does not parse. */
  lemma DeletedIdIgnorable(env: JsonEnv, documentKey: string, c: char, k: string)
    requires env.isIgnorable(c) && !env.isWhiteSpace(c)
    requires |k| > 0 && k[0] == '{' && !env.isIgnorable('{')
    ensures env.parse([c] + k).None? ==> DeletedId(env, documentKey, Some([c] + k)) == None
    ensures env.parse([c] + k).Some? ==>
      DeletedId(env, documentKey, Some([c] + k)) == TextValue(env, env.parse([c] + k).value, documentKey)
  {
    var key := [c] + k;
    assert TrimStart(env, key) == key;
    assert key[1..] == k;
    assert SkipIgnorable(env, key) == SkipIgnorable(env, k) == k;
  }

  /** Queueing never replaces a state already queued, adds at most the one
      id, and adds it exactly when it was absent. */
  lemma TryAddKeeps(items: map<string, PropsState>, id: string, st: PropsState)
    ensures var r := TryAdd(items, id, st);
      && (forall k :: k in items ==> k in r && r[k] == items[k])
      && (forall k :: k in r ==> k in items || k == id)
      && id in r
      && (id !in items ==> r[id] == st)
  {
  }

  // ---------------------------------------------------------------------
  // Fields and their values

  /** Document.GetFieldable(name): the first field of that name. */
  function FirstField(doc: LuceneDoc, name: string): (r: Option<Field>)
    ensures r.Some? ==> r.value in doc && r.value.name == name
    ensures r.None? <==> forall f :: f in doc ==> f.name != name
    ensures r.Some? ==> exists i :: 0 <= i < |doc| && doc[i] == r.value && forall j :: 0 <= j < i ==> doc[j].name != name
  {
    if |doc| == 0 then None
    else if doc[0].name == name then Some(doc[0])
    else
      var r := FirstField(doc[1..], name);
      assert forall f :: f in doc[1..] ==> f in doc;
      assert forall f :: f in doc ==> f == doc[0] || f in doc[1..];
      if r.Some? then
        var i :| 0 <= i < |doc[1..]| && doc[1..][i] == r.value && forall j :: 0 <= j < i ==> doc[1..][j].name != name;
        assert doc[i + 1] == r.value && forall j :: 0 <= j < i + 1 ==> doc[j].name != name;
        r
      else r
  }

  function HasName(name: string): Field -> bool
  {
    (f: Field) => f.name == name
  }

  /** Document.GetFieldables(name): every field of that name, in order. */
  function FieldsNamed(doc: LuceneDoc, name: string): seq<Field>
  {
    Filter(doc, HasName(name))
  }

  /** The field a mapping reads: `<name>_Range` when present, else `<name>`. */
  function FieldFor(doc: LuceneDoc, name: string): (r: Option<Field>)
    ensures r.Some? ==> r.value in doc && (r.value.name == name + "_Range" || r.value.name == name)
    ensures (exists f :: f in doc && f.name == name + "_Range") ==> r.Some? && r.value.name == name + "_Range"
    ensures r.None? <==> forall f :: f in doc ==> f.name != name + "_Range" && f.name != name
  {
    match FirstField(doc, name + "_Range")
    case Some(f) => Some(f)
    case None => FirstField(doc, name)
  }

  /** GetSingleValue (with GetComplexValue and GetNumericValue): a field
      flagged `<fieldName>_ConvertToJson` is parsed as an object, a numeric
      field gives its number, any other its text. None where the parse
      throws. */
  function SingleValue(env: JsonEnv, doc: LuceneDoc, fieldName: string, field: Field): Option<Json>
  {
    if FirstField(doc, fieldName + "_ConvertToJson").Some? then
      match env.parse(field.text)
      case None => None
      case Some(o) => Some(JObject(o))
    else if field.numeric.Some? then Some(JNumber(field.numeric.value))
    else Some(JString(field.text))
  }

  /** GetValues: one element per field named like `field`, each converted
      from `field` itself. */
  function ArrayValues(env: JsonEnv, doc: LuceneDoc, fieldName: string, field: Field): Option<seq<Json>>
  {
    var n := |FieldsNamed(doc, field.name)|;
    if n == 0 then Some([])
    else match SingleValue(env, doc, fieldName, field)
      case None => None
      case Some(v) => Some(seq(n, _ => v))
  }

  /** Two stored values under one array field do not give two elements of
      their own: both elements are the first value again, because each
      element is converted from the selected field. */
  lemma ArrayValuesRepeatSelected(env: JsonEnv, doc: LuceneDoc, name: string, a: string, b: string)
    requires a != b
    requires doc == [Field(name, a, None), Field(name, b, None), Field(name + "_IsArray", "true", None)]
    ensures Value(env, doc, name, doc[0]) == Some(JArray([JString(a), JString(a)]))
  {
    TwoFieldsNamed(doc, name, a, b);
    ArrayFlagOnly(doc, name, a, b);
    assert SingleValue(env, doc, name, doc[0]) == Some(JString(a));
    assert seq(2, _ => JString(a)) == [JString(a), JString(a)];
    assert ArrayValues(env, doc, name, doc[0]) == Some([JString(a), JString(a)]);
  }

  /** In the document of ArrayValuesRepeatSelected, two fields carry the name. */
  lemma TwoFieldsNamed(doc: LuceneDoc, name: string, a: string, b: string)
    requires doc == [Field(name, a, None), Field(name, b, None), Field(name + "_IsArray", "true", None)]
    ensures |FieldsNamed(doc, name)| == 2
  {
    var p := HasName(name);
    assert !p(doc[2]) by {
      assert |doc[2].name| == |name| + 8;
    }
    assert doc[..1] == doc[..0] + [doc[0]] && doc[..2] == doc[..1] + [doc[1]] && doc == doc[..2] + [doc[2]];
    FilterSnoc(doc[..0], doc[0], p);
    FilterSnoc(doc[..1], doc[1], p);
    FilterSnoc(doc[..2], doc[2], p);
  }

  /** In the document of ArrayValuesRepeatSelected, the entry is flagged as
      an array and not as JSON. */
  lemma ArrayFlagOnly(doc: LuceneDoc, name: string, a: string, b: string)
    requires doc == [Field(name, a, None), Field(name, b, None), Field(name + "_IsArray", "true", None)]
    ensures FirstField(doc, name + "_IsArray").Some?
    ensures FirstField(doc, name + "_ConvertToJson").None?
  {
    assert doc[2] in doc;
    var json := name + "_ConvertToJson";
    assert |json| == |name| + 14;
    assert doc[0].name != json && doc[1].name != json && doc[2].name != json;
    assert forall f :: f in doc ==> f == doc[0] || f == doc[1] || f == doc[2];
  }

  /** GetValue: an array when the entry flags `<fieldName>_IsArray`, else
      the single value. */
  function Value(env: JsonEnv, doc: LuceneDoc, fieldName: string, field: Field): Option<Json>
  {
    if FirstField(doc, fieldName + "_IsArray").Some? then
      match ArrayValues(env, doc, fieldName, field)
      case None => None
      case Some(xs) => Some(JArray(xs))
    else SingleValue(env, doc, fieldName, field)
  }

  /** What each kind of field converts to. */
  lemma ValueKinds(env: JsonEnv, doc: LuceneDoc, fieldName: string, field: Field)
    requires field in doc
    ensures var isArray := exists f :: f in doc && f.name == fieldName + "_IsArray";
      var isJson := exists f :: f in doc && f.name == fieldName + "_ConvertToJson";
      var v := Value(env, doc, fieldName, field);
      && (isArray && v.Some? ==>
            && v.value.JArray?
            && |v.value.items| == |FieldsNamed(doc, field.name)|
            && forall x :: x in v.value.items ==> Some(x) == SingleValue(env, doc, fieldName, field))
      && (isArray ==> (v.None? <==> SingleValue(env, doc, fieldName, field).None?))
      && (!isArray && isJson ==> v == (if env.parse(field.text).Some? then Some(JObject(env.parse(field.text).value)) else None))
      && (!isArray && !isJson && field.numeric.Some? ==> v == Some(JNumber(field.numeric.value)))
      && (!isArray && !isJson && field.numeric.None? ==> v == Some(JString(field.text)))
  {
    assert HasName(field.name)(field);
    assert field in FieldsNamed(doc, field.name);
  }

  /** The properties an index entry contributes: for each mapping in order
      whose field is present, its value under the target name (a later
      mapping to the same target wins). None where a conversion throws. */
  function PropsOf(env: JsonEnv, doc: LuceneDoc, mappings: seq<Mapping>): Option<map<string, Json>>
  {
    if |mappings| == 0 then Some(map[])
    else AddProp(env, doc, PropsOf(env, doc, mappings[..|mappings| - 1]), mappings[|mappings| - 1])
  }

  /** One mapping of the loop in OnIndexEntryCreated: skipped when its field
      is absent, otherwise its value is stored under the target name. */
  function AddProp(env: JsonEnv, doc: LuceneDoc, prev: Option<map<string, Json>>, m: Mapping): Option<map<string, Json>>
  {
    match prev
    case None => None
    case Some(props) =>
      match FieldFor(doc, m.field)
      case None => Some(props)
      case Some(f) =>
        match Value(env, doc, m.field, f)
        case None => None
        case Some(v) => Some(props[m.target := v])
  }

  /** The entry carries a field for the mapping. */
  predicate Present(doc: LuceneDoc, m: Mapping)
  {
    FieldFor(doc, m.field).Some?
  }

  /** The mapping's field is present and its conversion throws. */
  predicate Fails(env: JsonEnv, doc: LuceneDoc, m: Mapping)
  {
    Present(doc, m) && Value(env, doc, m.field, FieldFor(doc, m.field).value).None?
  }

  /** Mapping `i` is present in the entry and no later present mapping has
      the same target. */
  ghost predicate Wins(doc: LuceneDoc, mappings: seq<Mapping>, i: int)
    requires 0 <= i < |mappings|
  {
    && Present(doc, mappings[i])
    && forall j :: i < j < |mappings| && mappings[j].target == mappings[i].target ==> !Present(doc, mappings[j])
  }

  /** The conversion fails exactly when some present mapping's value fails. */
  lemma {:induction false} PropsOfFails(env: JsonEnv, doc: LuceneDoc, mappings: seq<Mapping>)
    ensures PropsOf(env, doc, mappings).None? <==> exists m :: m in mappings && Fails(env, doc, m)
  {
    if |mappings| > 0 {
      var ms := mappings[..|mappings| - 1];
      var m := mappings[|mappings| - 1];
      PropsOfFails(env, doc, ms);
      assert forall x :: x in mappings <==> x in ms || x == m;
      var prev := PropsOf(env, doc, ms);
      if prev.None? {
        var y :| y in ms && Fails(env, doc, y);
        assert y in mappings;
      } else {
        assert PropsOf(env, doc, mappings).None? <==> Fails(env, doc, m);
      }
    }
  }

  /** One mapping adds its target exactly when its field is present. */
  lemma AddPropKeys(env: JsonEnv, doc: LuceneDoc, prev: Option<map<string, Json>>, m: Mapping)
    requires AddProp(env, doc, prev, m).Some?
    ensures prev.Some?
    ensures AddProp(env, doc, prev, m).value.Keys == prev.value.Keys + (if Present(doc, m) then {m.target} else {})
  {
  }

  /** The properties are the targets of the present mappings. */
  lemma {:induction false} PropsOfKeys(env: JsonEnv, doc: LuceneDoc, mappings: seq<Mapping>)
    requires PropsOf(env, doc, mappings).Some?
    ensures forall t :: t in PropsOf(env, doc, mappings).value <==> exists m :: m in mappings && m.target == t && Present(doc, m)
  {
    if |mappings| > 0 {
      var ms := mappings[..|mappings| - 1];
      var m := mappings[|mappings| - 1];
      var prev := PropsOf(env, doc, ms);
      assert PropsOf(env, doc, mappings) == AddProp(env, doc, prev, m);
      AddPropKeys(env, doc, prev, m);
      PropsOfKeys(env, doc, ms);
      var r := PropsOf(env, doc, mappings).value;
      forall t
        ensures t in r <==> exists x :: x in mappings && x.target == t && Present(doc, x)
      {
        if t in r {
          if Present(doc, m) && t == m.target {
            assert m in mappings;
          } else {
            var x :| x in ms && x.target == t && Present(doc, x);
            assert x in mappings;
          }
        }
        if exists x :: x in mappings && x.target == t && Present(doc, x) {
          var x :| x in mappings && x.target == t && Present(doc, x);
          var k :| 0 <= k < |mappings| && mappings[k] == x;
          if k < |mappings| - 1 {
            assert ms[k] == x;
          }
        }
      }
    }
  }

  /** One mapping sets its own target to its value when its field is
      present, and leaves every other property as it was. */
  lemma AddPropValues(env: JsonEnv, doc: LuceneDoc, prev: Option<map<string, Json>>, m: Mapping)
    requires AddProp(env, doc, prev, m).Some?
    ensures prev.Some?
    ensures var r := AddProp(env, doc, prev, m).value;
      && (Present(doc, m) ==> m.target in r && Some(r[m.target]) == Value(env, doc, m.field, FieldFor(doc, m.field).value))
      && (!Present(doc, m) ==> r == prev.value)
      && (forall t :: t in prev.value && t != m.target ==> t in r && r[t] == prev.value[t])
  {
  }

  /** Each property holds the value of the last present mapping to it. */
  lemma {:induction false} PropsOfWins(env: JsonEnv, doc: LuceneDoc, mappings: seq<Mapping>, i: nat)
    requires PropsOf(env, doc, mappings).Some?
    requires i < |mappings| && Wins(doc, mappings, i)
    ensures mappings[i].target in PropsOf(env, doc, mappings).value
    ensures Some(PropsOf(env, doc, mappings).value[mappings[i].target])
      == Value(env, doc, mappings[i].field, FieldFor(doc, mappings[i].field).value)
  {
    var n := |mappings| - 1;
    var ms := mappings[..n];
    var m := mappings[n];
    var x := mappings[i];
    var want := Value(env, doc, x.field, FieldFor(doc, x.field).value);
    var prev := PropsOf(env, doc, ms);
    assert PropsOf(env, doc, mappings) == AddProp(env, doc, prev, m);
    AddPropValues(env, doc, prev, m);
    var r := PropsOf(env, doc, mappings).value;
    if i == n {
      assert x == m;
      assert x.target in r && Some(r[x.target]) == want;
    } else {
      assert ms[i] == x;
      assert Wins(doc, ms, i) by {
        forall j | i < j < n && ms[j].target == ms[i].target ensures !Present(doc, ms[j]) {
          assert ms[j] == mappings[j];
        }
      }
      PropsOfWins(env, doc, ms, i);
      assert x.target in prev.value && Some(prev.value[x.target]) == want;
      assert !Present(doc, m) || m.target != x.target;
      assert x.target in r && r[x.target] == prev.value[x.target];
    }
  }

  // ---------------------------------------------------------------------
  // Applying a pending state to a document

  /** The Deleted branch of Dispose: for each mapping in order, its target
      property is removed when the document has it; the flag says whether
      anything was removed. */
  function RemoveMapped(data: map<string, Json>, mappings: seq<Mapping>): (map<string, Json>, bool)
  {
    if |mappings| == 0 then (data, false)
    else
      var prev := RemoveMapped(data, mappings[..|mappings| - 1]);
      var t := mappings[|mappings| - 1].target;
      if t in prev.0 then (prev.0 - {t}, true) else prev
  }

  /** Exactly the mapped properties go, the others keep their values, and
      a change is reported iff the document had a mapped property. */
  lemma {:induction false} RemoveMappedSpec(data: map<string, Json>, mappings: seq<Mapping>)
    ensures var r := RemoveMapped(data, mappings);
      && (forall k :: k in r.0 <==> k in data && forall m :: m in mappings ==> m.target != k)
      && (forall k :: k in r.0 ==> r.0[k] == data[k])
      && (r.1 <==> exists m :: m in mappings && m.target in data)
  {
    if |mappings| > 0 {
      var ms := mappings[..|mappings| - 1];
      var m := mappings[|mappings| - 1];
      RemoveMappedSpec(data, ms);
      assert forall x :: x in mappings <==> x in ms || x == m;
    }
  }

  /** The recursion guard of Dispose: a missing document, a document whose
      entity name the index reads, or an index over all documents. */
  predicate Skipped(forEntityNames: set<string>, doc: Option<StoredDoc>)
  {
    || doc.None?
    || (doc.value.entityName.Some? && doc.value.entityName.value in forEntityNames)
    || |forEntityNames| == 0
  }

  /** The new body of a document after its pending state, or None when
      nothing is to be written. A Values state sets every listed property
      and counts as a change whenever it lists one. */
  function EntryUpdate(forEntityNames: set<string>, mappings: seq<Mapping>, doc: Option<StoredDoc>, st: PropsState)
    : Option<map<string, Json>>
  {
    if Skipped(forEntityNames, doc) then None
    else match st
      case Deleted =>
        var r := RemoveMapped(doc.value.data, mappings);
        if r.1 then Some(r.0) else None
      case Values(props) =>
        if props == map[] then None else Some(doc.value.data + props)
  }

  /** A Values state leaves a document with every listed property set and
      every other property as it was, and writes iff it lists one; a
      guarded document is never written. */
  lemma EntryUpdateSpec(forEntityNames: set<string>, mappings: seq<Mapping>, doc: Option<StoredDoc>, st: PropsState)
    ensures Skipped(forEntityNames, doc) ==> EntryUpdate(forEntityNames, mappings, doc, st).None?
    ensures !Skipped(forEntityNames, doc) && st.Values? ==>
      var u := EntryUpdate(forEntityNames, mappings, doc, st);
      && (u.Some? <==> st.props != map[])
      && (u.Some? ==> (forall k :: k in u.value <==> k in doc.value.data || k in st.props)
                      && (forall k :: k in st.props ==> u.value[k] == st.props[k])
                      && (forall k :: k in doc.value.data && k !in st.props ==> u.value[k] == doc.value.data[k]))
    ensures !Skipped(forEntityNames, doc) && st.Deleted? ==>
      var u := EntryUpdate(forEntityNames, mappings, doc, st);
      && (u.Some? <==> exists m :: m in mappings && m.target in doc.value.data)
      && (u.Some? ==> forall k :: k in u.value <==> k in doc.value.data && forall m :: m in mappings ==> m.target != k)
  {
    if !Skipped(forEntityNames, doc) && st.Deleted? {
      RemoveMappedSpec(doc.value.data, mappings);
    }
  }

  /** Dispose over the queued ids in enumeration order: each document is
      read as it stands, and written (keeping its metadata) when its update
      is not None. Yields the store and the log of Put calls. */
  function Disposed(docs: map<string, StoredDoc>, puts: seq<PutCall>, items: map<string, PropsState>,
                    forEntityNames: set<string>, mappings: seq<Mapping>, order: seq<string>)
    : (map<string, StoredDoc>, seq<PutCall>)
    requires forall k :: k in order ==> k in items
  {
    if |order| == 0 then (docs, puts)
    else
      var prev := Disposed(docs, puts, items, forEntityNames, mappings, order[..|order| - 1]);
      var key := order[|order| - 1];
      var doc := if key in prev.0 then Some(prev.0[key]) else None;
      match EntryUpdate(forEntityNames, mappings, doc, items[key])
      case None => prev
      case Some(d) => (prev.0[key := StoredDoc(d, doc.value.entityName)], prev.1 + [PutCall(key, d)])
  }

  /** The update of `key` computed on the store as it was before Dispose. */
  function UpdateOf(docs: map<string, StoredDoc>, items: map<string, PropsState>,
                    forEntityNames: set<string>, mappings: seq<Mapping>, key: string): Option<map<string, Json>>
    requires key in items
  {
    EntryUpdate(forEntityNames, mappings, if key in docs then Some(docs[key]) else None, items[key])
  }

  /** With every queued id listed once: no document is created or removed,
      documents not queued are unchanged, and each queued document gets its
      own update with its metadata kept, or stays as it was. */
  lemma {:induction false} DisposedStore(docs: map<string, StoredDoc>, puts: seq<PutCall>, items: map<string, PropsState>,
                                         forEntityNames: set<string>, mappings: seq<Mapping>, order: seq<string>)
    requires forall k :: k in order ==> k in items
    requires NoDuplicates(order)
    ensures var r := Disposed(docs, puts, items, forEntityNames, mappings, order);
      && r.0.Keys == docs.Keys
      && (forall k :: k in docs && k !in order ==> r.0[k] == docs[k])
      && (forall k :: k in order && k in docs ==>
            r.0[k] == match UpdateOf(docs, items, forEntityNames, mappings, k)
                      case None => docs[k]
                      case Some(d) => StoredDoc(d, docs[k].entityName))
  {
    if |order| > 0 {
      var ks := order[..|order| - 1];
      var key := order[|order| - 1];
      FrontAndLast(order);
      DisposedStore(docs, puts, items, forEntityNames, mappings, ks);
      var prev := Disposed(docs, puts, items, forEntityNames, mappings, ks);
      var doc := if key in prev.0 then Some(prev.0[key]) else None;
      assert doc == (if key in docs then Some(docs[key]) else None);
      assert EntryUpdate(forEntityNames, mappings, doc, items[key]) == UpdateOf(docs, items, forEntityNames, mappings, key);
    }
  }

  /** With every queued id listed once: Dispose appends to the log one Put
      per queued id whose update is not None, carrying that update. */
  lemma {:induction false} DisposedPuts(docs: map<string, StoredDoc>, puts: seq<PutCall>, items: map<string, PropsState>,
                                        forEntityNames: set<string>, mappings: seq<Mapping>, order: seq<string>)
    requires forall k :: k in order ==> k in items
    requires NoDuplicates(order)
    ensures var r := Disposed(docs, puts, items, forEntityNames, mappings, order);
      && |r.1| >= |puts| && r.1[..|puts|] == puts
      && (forall p :: p in r.1[|puts|..] ==> p.key in order && UpdateOf(docs, items, forEntityNames, mappings, p.key) == Some(p.data))
      && (forall k :: k in order ==> (UpdateOf(docs, items, forEntityNames, mappings, k).Some? <==> exists p :: p in r.1[|puts|..] && p.key == k))
  {
    if |order| > 0 {
      var ks := order[..|order| - 1];
      var key := order[|order| - 1];
      FrontAndLast(order);
      DisposedPuts(docs, puts, items, forEntityNames, mappings, ks);
      DisposedStore(docs, puts, items, forEntityNames, mappings, ks);
      var prev := Disposed(docs, puts, items, forEntityNames, mappings, ks);
      var doc := if key in prev.0 then Some(prev.0[key]) else None;
      assert doc == (if key in docs then Some(docs[key]) else None);
      var u := EntryUpdate(forEntityNames, mappings, doc, items[key]);
      assert u == UpdateOf(docs, items, forEntityNames, mappings, key);
      var r := Disposed(docs, puts, items, forEntityNames, mappings, order);
      if u.Some? {
        assert r.1 == prev.1 + [PutCall(key, u.value)];
        assert r.1[..|puts|] == puts;
        assert r.1[|puts|..] == prev.1[|puts|..] + [PutCall(key, u.value)];
      } else {
        assert r.1 == prev.1;
      }
    }
  }
}
