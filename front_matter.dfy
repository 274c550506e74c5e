/**
 The front-matter field set: one string value per schema key. It is built
 when the editor is created, rebuilt whenever the schema's keys change, and
 edited one key at a time.
 */
module FrontMatter {
  import opened Wrappers

  /** Field key to field value; every value is single-line text. */
  type Fields = map<string, string>

  function KeySet(keys: seq<string>): (s: set<string>)
    ensures forall k :: k in s <==> k in keys
  {
    set k | k in keys
  }

  /**
   What a resync means: exactly the keys of `keys`, each holding its
   previous value when it had one and the empty string otherwise.
   */
  ghost function Resynced(current: Fields, keys: seq<string>): (r: Fields)
    ensures r.Keys == KeySet(keys)
    ensures forall k :: k in r && k in current ==> r[k] == current[k]
  {
    map k | k in keys :: if k in current then current[k] else ""
  }

  /** The field set built on construction: every schema key holds "". */
  method InitialFields(keys: seq<string>) returns (fields: Fields)
    ensures fields.Keys == KeySet(keys)
    ensures forall k :: k in fields ==> fields[k] == ""
    ensures fields == Resynced(map[], keys)
  {
    fields := map[];
    for i := 0 to |keys|
      invariant fields.Keys == KeySet(keys[..i])
      invariant forall k :: k in fields ==> fields[k] == ""
    {
      assert keys[..i + 1] == keys[..i] + [keys[i]];
      fields := fields[keys[i] := ""];
    }
    assert keys[..|keys|] == keys;
  }

  /** The resync run when the schema keys change: the new keys, old values kept, others dropped. */
  method ResyncFields(current: Fields, keys: seq<string>) returns (fields: Fields)
    ensures fields.Keys == KeySet(keys)
    ensures forall k :: k in keys && k in current ==> fields[k] == current[k]
    ensures forall k :: k in keys && k !in current ==> fields[k] == ""
    ensures fields == Resynced(current, keys)
  {
    fields := map[];
    for i := 0 to |keys|
      invariant fields == Resynced(current, keys[..i])
    {
      assert keys[..i + 1] == keys[..i] + [keys[i]];
      var key := keys[i];
      fields := fields[key := if key in current then current[key] else ""];
    }
    assert keys[..|keys|] == keys;
  }

  /** Resyncing twice with the same keys is resyncing once. */
  lemma ResyncIdempotent(current: Fields, keys: seq<string>)
    ensures Resynced(Resynced(current, keys), keys) == Resynced(current, keys)
  {
  }

  /** The order of the schema keys has no effect on the field set. */
  lemma ResyncOrderIrrelevant(current: Fields, keys1: seq<string>, keys2: seq<string>)
    requires KeySet(keys1) == KeySet(keys2)
    ensures Resynced(current, keys1) == Resynced(current, keys2)
  {
  }

  /** Resyncing a field set already matching the keys changes nothing. */
  lemma ResyncMatchingIsIdentity(current: Fields, keys: seq<string>)
    requires current.Keys == KeySet(keys)
    ensures Resynced(current, keys) == current
  {
  }

  /**
   Growing the schema keeps every value already present and gives each
   added key the empty string.
   */
  lemma ResyncGrowPreserves(current: Fields, keys1: seq<string>, keys2: seq<string>)
    requires KeySet(keys1) <= KeySet(keys2)
    ensures var before := Resynced(current, keys1);
      var after := Resynced(before, keys2);
      && (forall k :: k in before ==> k in after && after[k] == before[k])
      && (forall k :: k in after && k !in before ==> after[k] == "")
  {
  }

  /** The object-spread update `{...fields, [key]: value}`. */
  function WithField(fields: Fields, key: string, value: string): (r: Fields)
    ensures r.Keys == fields.Keys + {key}
    ensures key in r && r[key] == value
    ensures forall k :: k in fields && k != key ==> r[k] == fields[k]
  {
    fields[key := value]
  }

  /** Editing a key that is already a field leaves the key set as it was. */
  lemma WithFieldKeepsKeys(fields: Fields, key: string, value: string)
    requires key in fields
    ensures WithField(fields, key, value).Keys == fields.Keys
  {
  }

  /** An edit survives every later resync whose keys still contain the edited key. */
  lemma EditSurvivesResync(fields: Fields, key: string, value: string, keys: seq<string>)
    requires key in keys
    ensures Resynced(WithField(fields, key, value), keys)[key] == value
  {
  }

  // ------------------------------------------------------------------------
  // The resync as the source writes it. `current[key] ?? ''` is a property
  // read on a plain object, so a key absent from `current` but named like a
  // member of Object.prototype reads the inherited function, which is not
  // nullish, and that function becomes the field's value.

  /** A property value as the resync can read it: a string, or an inherited method. */
  datatype JsValue = JsString(text: string) | JsFunction(name: string)

  /** The function-valued members every plain object inherits from Object.prototype. */
  const ObjectPrototypeMethods: set<string> :=
    { "constructor", "hasOwnProperty", "isPrototypeOf", "propertyIsEnumerable",
      "toLocaleString", "toString", "valueOf",
      "__defineGetter__", "__defineSetter__", "__lookupGetter__", "__lookupSetter__" }

  /** `obj[key]` on a plain object holding `fields`; None is `undefined`. */
  function PropertyRead(fields: Fields, key: string): (v: Option<JsValue>)
    ensures key in fields ==> v == Some(JsString(fields[key]))
    ensures key !in fields ==> (v.Some? <==> key in ObjectPrototypeMethods)
  {
    if key in fields then Some(JsString(fields[key]))
    else if key in ObjectPrototypeMethods then Some(JsFunction(key))
    else None
  }

  /** `keys.reduce((acc, key) => { acc[key] = current[key] ?? ''; ... }, {})`. */
  function ResyncAsWritten(current: Fields, keys: seq<string>): (r: map<string, JsValue>)
    ensures r.Keys == KeySet(keys)
  {
    map k | k in keys :: match PropertyRead(current, k) case Some(v) => v case None => JsString("")
  }

  /** Off Object.prototype's names the code as written agrees with the intended resync. */
  lemma ResyncAsWrittenAgrees(current: Fields, keys: seq<string>)
    requires forall k :: k in keys && k !in current ==> k !in ObjectPrototypeMethods
    ensures var r := ResyncAsWritten(current, keys);
      forall k :: k in r ==> r[k] == JsString(Resynced(current, keys)[k])
  {
  }

  /** Adding a schema key "toString" gives that field a function instead of "". */
  lemma ResyncAsWrittenReadsPrototype()
    ensures var r := ResyncAsWritten(map["title" := ""], ["title", "toString"]);
      && r["toString"] == JsFunction("toString")
      && Resynced(map["title" := ""], ["title", "toString"])["toString"] == ""
  {
    var current := map["title" := ""];
    assert "toString" !in current;
    assert "toString" in ObjectPrototypeMethods;
  }

}
