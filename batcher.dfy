/** The IndexedProperties trigger's batcher: index-entry events fill a map of
    pending states keyed by document id, and Dispose applies them to the
    target documents of the database. */
module Batcher {
  import opened Common
  import opened IndexedValues

  /** The document store as the batcher sees it: documents by id, and the
      log of Put calls. */
  class Database {
    var docs: map<string, StoredDoc>
    var puts: seq<PutCall>

    constructor(docs: map<string, StoredDoc>)
      ensures this.docs == docs && puts == []
    {
      this.docs := docs;
      puts := [];
    }

    /** DocumentDatabase.Put of a new body under the same metadata. */
    method Put(key: string, data: map<string, Json>, entityName: Option<string>)
      modifies this
      ensures docs == old(docs)[key := StoredDoc(data, entityName)]
      ensures puts == old(puts) + [PutCall(key, data)]
    {
      docs := docs[key := StoredDoc(data, entityName)];
      puts := puts + [PutCall(key, data)];
    }
  }

  /** The Deleted branch of Dispose: every mapped target the body has is
      removed; the flag records that one was. */
  method RemoveMappedProperties(data0: map<string, Json>, mappings: seq<Mapping>) returns (data: map<string, Json>, changesMade: bool)
    ensures (data, changesMade) == RemoveMapped(data0, mappings)
  {
    data := data0;
    changesMade := false;
    var i := 0;
    while i < |mappings|
      invariant 0 <= i <= |mappings|
      invariant (data, changesMade) == RemoveMapped(data0, mappings[..i])
    {
      assert mappings[..i + 1][..i] == mappings[..i];
      var target := mappings[i].target;
      if target in data {
        data := data - {target};
        changesMade := true;
      }
      i := i + 1;
    }
    assert mappings[..i] == mappings;
  }

  /** The Values branch of Dispose: every listed property is set, and any
      listed property counts as a change. */
  method SetProperties(data0: map<string, Json>, props: map<string, Json>) returns (data: map<string, Json>, changesMade: bool)
    ensures data == data0 + props
    ensures changesMade <==> props != map[]
  {
    data := data0;
    changesMade := false;
    var remaining := props.Keys;
    while remaining != {}
      invariant remaining <= props.Keys
      invariant forall k :: k in data <==> k in data0 || (k in props && k !in remaining)
      invariant forall k :: k in data ==> data[k] == if k in props && k !in remaining then props[k] else data0[k]
      invariant changesMade <==> remaining != props.Keys
      decreases remaining
    {
      var k :| k in remaining;
      changesMade := true;
      data := data[k := props[k]];
      remaining := remaining - {k};
    }
    assert forall k :: k in props ==> k !in remaining;
    if props != map[] {
      var k :| k in props;
      assert k in props.Keys;
    }
  }

  /** The loop of OnIndexEntryCreated over the field mappings: each mapped
      field found in the document is converted and set under its target
      property; None where a conversion throws. */
  method ConvertFields(env: JsonEnv, document: LuceneDoc, mappings: seq<Mapping>) returns (r: Option<map<string, Json>>)
    ensures r == PropsOf(env, document, mappings)
  {
    var props: map<string, Json> := map[];
    var i := 0;
    while i < |mappings|
      invariant 0 <= i <= |mappings|
      invariant PropsOf(env, document, mappings[..i]) == Some(props)
    {
      assert mappings[..i + 1][..i] == mappings[..i];
      var mapping := mappings[i];
      var field := FieldFor(document, mapping.field);
      if field.None? {
        i := i + 1;
        continue;
      }
      var value := Value(env, document, mapping.field, field.value);
      if value.None? {
        PropsOfFailsLater(env, document, mappings, i + 1);
        return None;
      }
      props := props[mapping.target := value.value];
      i := i + 1;
    }
    assert mappings[..i] == mappings;
    return Some(props);
  }

  class IndexPropertyBatcher {
    const env: JsonEnv
    const setupDoc: SetupDoc
    /** The view generator's ForEntityNames. */
    const forEntityNames: set<string>
    const database: Database
    var items: map<string, PropsState>

    constructor(env: JsonEnv, setupDoc: SetupDoc, forEntityNames: set<string>, database: Database)
      ensures this.env == env && this.setupDoc == setupDoc && this.forEntityNames == forEntityNames
      ensures this.database == database && items == map[]
    {
      this.env := env;
      this.setupDoc := setupDoc;
      this.forEntityNames := forEntityNames;
      this.database := database;
      items := map[];
    }

    /** OnIndexEntryDeleted: queue the entry's document for removal of its
        indexed properties, unless a state is already queued for it. */
    method OnIndexEntryDeleted(entryKey: Option<string>)
      modifies this
      ensures items == match DeletedId(env, setupDoc.documentKey, entryKey)
                       case None => old(items)
                       case Some(id) => TryAdd(old(items), id, Deleted)
    {
      if entryKey.None? {
        return;
      }
      var k := entryKey.value;
      var trimmed := TrimStart(env, k);
      if !StartsWithBrace(env, trimmed) {
        items := TryAdd(items, k, Deleted);
        return;
      }
      var entry := env.parse(k);
      if entry.None? {
        return;
      }
      var documentId := TextValue(env, entry.value, setupDoc.documentKey);
      if documentId.None? {
        return;
      }
      items := TryAdd(items, documentId.value, Deleted);
    }

    /** OnIndexEntryCreated: the entry's document gets a Values state with
        the converted fields, replacing what was queued. `ok` is false where
        a conversion throws; by then the queued state is already gone. */
    method OnIndexEntryCreated(entryKey: string, document: LuceneDoc) returns (ok: bool)
      modifies this
      ensures match FirstField(document, setupDoc.documentKey)
              case None => ok && items == old(items)
              case Some(f) =>
                match PropsOf(env, document, setupDoc.mappings)
                case None => !ok && items == old(items) - {f.text}
                case Some(props) => ok && items == old(items)[f.text := Values(props)]
    {
      var resultDocId := FirstField(document, setupDoc.documentKey);
      if resultDocId.None? {
        return true;
      }
      var documentId := resultDocId.value.text;
      items := items - {documentId};
      var props := ConvertFields(env, document, setupDoc.mappings);
      if props.None? {
        return false;
      }
      items := items[documentId := Values(props.value)];
      return true;
    }

    /** Dispose: each queued id in enumeration order gets its update
        applied to the document as it stands, and Put only when a change
        was made. */
    method Dispose(order: seq<string>)
      requires NoDuplicates(order) && forall k :: k in order <==> k in items
      modifies database
      ensures (database.docs, database.puts)
        == Disposed(old(database.docs), old(database.puts), items, forEntityNames, setupDoc.mappings, order)
    {
      var i := 0;
      while i < |order|
        invariant 0 <= i <= |order|
        invariant (database.docs, database.puts)
          == Disposed(old(database.docs), old(database.puts), items, forEntityNames, setupDoc.mappings, order[..i])
      {
        assert order[..i + 1][..i] == order[..i];
        ApplyState(order[i], items[order[i]]);
        i := i + 1;
      }
      assert order[..i] == order;
    }

    /** One entry of Dispose: the recursion guard, then the state's changes,
        then Put when something changed. */
    method ApplyState(key: string, state: PropsState)
      modifies database
      ensures var doc := if key in old(database.docs) then Some(old(database.docs)[key]) else None;
        match EntryUpdate(forEntityNames, setupDoc.mappings, doc, state)
        case None => database.docs == old(database.docs) && database.puts == old(database.puts)
        case Some(d) =>
          && database.docs == old(database.docs)[key := StoredDoc(d, doc.value.entityName)]
          && database.puts == old(database.puts) + [PutCall(key, d)]
    {
      if key !in database.docs {
        return;
      }
      var resultDoc := database.docs[key];
      var entityName := resultDoc.entityName;
      if entityName.Some? && entityName.value in forEntityNames {
        return;
      }
      if |forEntityNames| == 0 {
        return;
      }
      var data, changesMade;
      if state.Deleted? {
        data, changesMade := RemoveMappedProperties(resultDoc.data, setupDoc.mappings);
      } else {
        data, changesMade := SetProperties(resultDoc.data, state.props);
      }
      if changesMade {
        database.Put(key, data, entityName);
      }
    }
  }

  /** Once a mapping's conversion has failed, no later mapping brings the
      properties back. */
  lemma {:induction false} PropsOfFailsLater(env: JsonEnv, doc: LuceneDoc, mappings: seq<Mapping>, n: nat)
    requires n <= |mappings| && PropsOf(env, doc, mappings[..n]).None?
    ensures PropsOf(env, doc, mappings).None?
    decreases |mappings| - n
  {
    if n < |mappings| {
      assert mappings[..n + 1][..n] == mappings[..n];
      PropsOfFailsLater(env, doc, mappings, n + 1);
    } else {
      assert mappings[..n] == mappings;
    }
  }
}
