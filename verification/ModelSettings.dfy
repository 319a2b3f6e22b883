/** The merge of llmenv's per-model effort entries into the `modelSettings` object that Claude
    Code's `/effort` also writes.

    The merge works in passes over a mutable document. Its specification is one rule per
    (model, field) cell, `MergedField`. */
module ModelSettings {
  import opened Basics
  import opened JsonTree

  const MODEL_SETTINGS_KEY: string := "modelSettings"
  const EFFORT_LEVEL: string := "effortLevel"
  const MAX_EFFORT_LEVEL: string := "maxEffortLevel"
  const PER_MODEL_EFFORT_MODELS: seq<string> := ["claude-opus-5-5", "claude-haiku-5-5"]

  datatype ModelEffort = ModelEffort(effortLevel: Option<string>, maxEffortLevel: Option<string>)

  datatype Capabilities = Capabilities(effortLevel: Option<string>, modelEffort: map<string, ModelEffort>)

  // ---- Cells: what one (model, field) pair holds ----

  function EntryField(entry: Json, field: string): Option<Json> {
    if entry.Obj? && field in entry.fields then Some(entry.fields[field]) else None
  }

  function CellIn(entries: Entries, id: string, field: string): Option<Json> {
    if id in entries then EntryField(entries[id], field) else None
  }

  /** The entries of a document's `modelSettings`. A value of another type counts as none. */
  function CurrentEntries(doc: Entries): Entries {
    if MODEL_SETTINGS_KEY in doc && doc[MODEL_SETTINGS_KEY].Obj?
    then doc[MODEL_SETTINGS_KEY].fields
    else map[]
  }

  function DocCell(doc: Entries, id: string, field: string): Option<Json> {
    CellIn(CurrentEntries(doc), id, field)
  }

  /** The rule for one cell. `now` is what llmenv manages, `was` is what its record claims: a
      managed cell gets llmenv's value, a cell that still holds a claimed value goes, and any
      other value came from the user and stays. */
  function MergedField(current: Option<Json>, now: Option<Json>, was: Option<Json>): Option<Json> {
    if now.Some? then now
    else if current == was then None
    else current
  }

  // ---- What llmenv manages for a config ----

  function LevelCell(level: Option<string>): Option<Json> {
    if level.Some? then Some(Str(level.value)) else None
  }

  /** The cell that a config manages. A `model_effort` entry replaces the default of its model. */
  function ManagedField(caps: Capabilities, id: string, field: string): Option<Json> {
    if id in caps.modelEffort then
      if field == EFFORT_LEVEL then LevelCell(caps.modelEffort[id].effortLevel)
      else if field == MAX_EFFORT_LEVEL then LevelCell(caps.modelEffort[id].maxEffortLevel)
      else None
    else if id in PER_MODEL_EFFORT_MODELS && field == EFFORT_LEVEL then LevelCell(caps.effortLevel)
    else None
  }

  function FieldsOf(effort: ModelEffort): Entries {
    (if effort.effortLevel.Some? then map[EFFORT_LEVEL := Str(effort.effortLevel.value)] else map[]) +
    (if effort.maxEffortLevel.Some? then map[MAX_EFFORT_LEVEL := Str(effort.maxEffortLevel.value)] else map[])
  }

  function ManagedIds(caps: Capabilities): set<string> {
    caps.modelEffort.Keys +
    (if caps.effortLevel.Some? then set id | id in PER_MODEL_EFFORT_MODELS else {})
  }

  function ManagedEntry(caps: Capabilities, id: string): Json
    requires id in ManagedIds(caps)
  {
    if id in caps.modelEffort then Obj(FieldsOf(caps.modelEffort[id]))
    else EntryOfLevel(caps.effortLevel.value)
  }

  function Managed(caps: Capabilities): Entries {
    map id | id in ManagedIds(caps) :: ManagedEntry(caps, id)
  }

  lemma ManagedCells(caps: Capabilities, id: string, field: string)
    ensures CellIn(Managed(caps), id, field) == ManagedField(caps, id, field)
  {
    if id in caps.modelEffort {
      var fields := FieldsOf(caps.modelEffort[id]);
      assert Managed(caps)[id] == Obj(fields);
    }
  }

  /** Which config sets a cell to a value: the entry of the model, or the general level for the two models that take
      one each. */
  lemma ManagedInWords(caps: Capabilities, id: string, field: string, level: string)
    ensures CellIn(Managed(caps), id, field) == Some(Str(level)) <==>
            || (id in caps.modelEffort && field == "effortLevel" && caps.modelEffort[id].effortLevel == Some(level))
            || (id in caps.modelEffort && field == "maxEffortLevel" &&
                caps.modelEffort[id].maxEffortLevel == Some(level))
            || (id !in caps.modelEffort && id in {"claude-opus-5-5", "claude-haiku-5-5"} &&
                field == "effortLevel" && caps.effortLevel == Some(level))
  {
    ManagedCells(caps, id, field);
  }

  function EntryOfLevel(level: string): Json {
    Obj(map[EFFORT_LEVEL := Str(level)])
  }

  method EntryOf(effort: ModelEffort) returns (entry: Json)
    ensures entry == Obj(FieldsOf(effort))
  {
    var fields: Entries := map[];
    if effort.effortLevel.Some? {
      fields := fields[EFFORT_LEVEL := Str(effort.effortLevel.value)];
    }
    if effort.maxEffortLevel.Some? {
      fields := fields[MAX_EFFORT_LEVEL := Str(effort.maxEffortLevel.value)];
    }
    entry := Obj(fields);
  }

  method ManagedEntries(caps: Capabilities) returns (managed: Entries)
    ensures managed == Managed(caps)
  {
    managed := DefaultEntries(caps);
    ghost var defaults := managed;
    var todo := caps.modelEffort.Keys;
    while todo != {}
      invariant todo <= caps.modelEffort.Keys
      invariant managed == Overridden(defaults, caps, caps.modelEffort.Keys - todo)
    {
      var id :| id in todo;
      var entry := EntryOf(caps.modelEffort[id]);
      assert caps.modelEffort.Keys - (todo - {id}) == (caps.modelEffort.Keys - todo) + {id};
      managed := managed[id := entry];
      todo := todo - {id};
    }
    assert caps.modelEffort.Keys - todo == caps.modelEffort.Keys;
  }

  /** The defaults, with the entries of `ids` over them. */
  ghost function Overridden(defaults: Entries, caps: Capabilities, ids: set<string>): Entries
    requires ids <= caps.modelEffort.Keys
  {
    map id | id in defaults.Keys + ids :: if id in ids then Obj(FieldsOf(caps.modelEffort[id])) else defaults[id]
  }

  method DefaultEntries(caps: Capabilities) returns (defaults: Entries)
    ensures defaults ==
            if caps.effortLevel.Some?
            then map id | id in PER_MODEL_EFFORT_MODELS :: EntryOfLevel(caps.effortLevel.value)
            else map[]
  {
    defaults := map[];
    if caps.effortLevel.Some? {
      for i := 0 to |PER_MODEL_EFFORT_MODELS|
        invariant defaults == map id | id in PER_MODEL_EFFORT_MODELS[..i] :: EntryOfLevel(caps.effortLevel.value)
      {
        defaults := defaults[PER_MODEL_EFFORT_MODELS[i] := EntryOfLevel(caps.effortLevel.value)];
      }
    }
  }

  // ---- The merge of one document, entry by entry ----

  ghost predicate IsStale(managed: Entries, prev: Entries, id: string, field: string, value: Json) {
    CellIn(prev, id, field) == Some(value) && CellIn(managed, id, field).None?
  }

  ghost function WithoutStale(fields: Entries, managed: Entries, prev: Entries, id: string): Entries {
    map field | field in fields && !IsStale(managed, prev, id, field, fields[field]) :: fields[field]
  }

  ghost function Cleaned(entry: Json, managed: Entries, prev: Entries, id: string): Json {
    if entry.Obj? then Obj(WithoutStale(entry.fields, managed, prev, id)) else entry
  }

  ghost function CleanedEntries(current: Entries, managed: Entries, prev: Entries): Entries {
    map id | id in current :: Cleaned(current[id], managed, prev, id)
  }

  ghost function Overlaid(entry: Option<Json>, managed: Entries, id: string): Option<Json> {
    if id in managed && managed[id].Obj? then
      Some(Obj((if entry.Some? && entry.value.Obj? then entry.value.fields else map[]) + managed[id].fields))
    else entry
  }

  ghost function EntryAt(entries: Entries, id: string): Option<Json> {
    if id in entries then Some(entries[id]) else None
  }

  /** One entry after the merge: stale fields out, managed fields in, and an entry that llmenv
      touched and left empty is gone. */
  ghost function EntryAfter(current: Entries, managed: Entries, prev: Entries, id: string): Option<Json> {
    var entry := Overlaid(EntryAt(CleanedEntries(current, managed, prev), id), managed, id);
    if (id in prev || id in managed) && entry == Some(Obj(map[])) then None else entry
  }

  ghost function MergedEntries(current: Entries, managed: Entries, prev: Entries): Entries {
    map id | id in current.Keys + managed.Keys && EntryAfter(current, managed, prev, id).Some?
      :: EntryAfter(current, managed, prev, id).value
  }

  ghost function MergedDoc(doc: Entries, managed: Entries, prev: Entries): Entries {
    if managed == map[] && prev == map[] then doc
    else
      var entries := MergedEntries(CurrentEntries(doc), managed, prev);
      if entries == map[] then doc - {MODEL_SETTINGS_KEY} else doc[MODEL_SETTINGS_KEY := Obj(entries)]
  }

  // ---- The passes over the mutable document ----

  /** The parsed `settings.json` that a render edits in place. */
  class SettingsDoc {
    var fields: Entries

    constructor (doc: Entries)
      ensures fields == doc
    {
      fields := doc;
    }
  }

  method RemoveStaleFields(fields: Entries, prevFields: Entries, now: Option<Entries>) returns (kept: Entries)
    ensures kept == map f | f in fields &&
                            !(f in prevFields && fields[f] == prevFields[f] && !(now.Some? && f in now.value))
                      :: fields[f]
  {
    kept := fields;
    var todo := prevFields.Keys;
    while todo != {}
      invariant todo <= prevFields.Keys
      invariant kept == map f | f in fields && !(f in prevFields && f !in todo && fields[f] == prevFields[f] &&
                                                 !(now.Some? && f in now.value))
                          :: fields[f]
    {
      var field :| field in todo;
      var stillManaged := now.Some? && field in now.value;
      if !stillManaged && field in kept && kept[field] == prevFields[field] {
        kept := kept - {field};
      }
      todo := todo - {field};
    }
  }

  method CleanStale(current: Entries, managed: Entries, prev: Entries) returns (cleaned: Entries)
    ensures cleaned == CleanedEntries(current, managed, prev)
  {
    cleaned := current;
    var todo := prev.Keys;
    while todo != {}
      invariant todo <= prev.Keys
      invariant cleaned.Keys == current.Keys
      invariant forall id | id in current ::
                  cleaned[id] == if id in todo then current[id] else Cleaned(current[id], managed, prev, id)
    {
      var id :| id in todo;
      if prev[id].Obj? {
        var now := if id in managed && managed[id].Obj? then Some(managed[id].fields) else None;
        if id in cleaned && cleaned[id].Obj? {
          var kept := RemoveStaleFields(cleaned[id].fields, prev[id].fields, now);
          assert kept == WithoutStale(current[id].fields, managed, prev, id);
          cleaned := cleaned[id := Obj(kept)];
        }
      } else if id in current && current[id].Obj? {
        assert WithoutStale(current[id].fields, managed, prev, id) == current[id].fields;
      }
      todo := todo - {id};
    }
    forall id | id in current && id !in prev ensures cleaned[id] == Cleaned(current[id], managed, prev, id) {
      if current[id].Obj? {
        assert WithoutStale(current[id].fields, managed, prev, id) == current[id].fields;
      }
    }
  }

  method WriteManaged(cleaned: Entries, managed: Entries) returns (written: Entries)
    ensures forall id :: EntryAt(written, id) == Overlaid(EntryAt(cleaned, id), managed, id)
  {
    written := cleaned;
    var todo := managed.Keys;
    while todo != {}
      invariant todo <= managed.Keys
      invariant forall id :: EntryAt(written, id) ==
                             if id in todo then EntryAt(cleaned, id) else Overlaid(EntryAt(cleaned, id), managed, id)
    {
      var id :| id in todo;
      assert EntryAt(written, id) == EntryAt(cleaned, id);
      if managed[id].Obj? {
        var entry: Entries := if id in written && written[id].Obj? then written[id].fields else map[];
        ghost var before := entry;
        var left := managed[id].fields.Keys;
        while left != {}
          invariant left <= managed[id].fields.Keys
          invariant entry.Keys == before.Keys + (managed[id].fields.Keys - left)
          invariant forall f | f in entry ::
                      entry[f] == if f in managed[id].fields && f !in left then managed[id].fields[f] else before[f]
        {
          var field :| field in left;
          entry := entry[field := managed[id].fields[field]];
          left := left - {field};
        }
        assert entry == before + managed[id].fields;
        written := written[id := Obj(entry)];
      }
      todo := todo - {id};
    }
  }

  method DropEmptied(written: Entries, managed: Entries, prev: Entries) returns (kept: Entries)
    ensures kept == map id | id in written && !((id in prev || id in managed) && written[id] == Obj(map[])) ::
            written[id]
  {
    var empty: set<string> := {};
    var touched := prev.Keys + managed.Keys;
    var todo := touched;
    while todo != {}
      invariant todo <= touched
      invariant empty == set id | id in touched - todo && id in written && written[id] == Obj(map[])
    {
      var id :| id in todo;
      if id in written && written[id].Obj? && written[id].fields == map[] {
        empty := empty + {id};
      }
      todo := todo - {id};
    }
    kept := written;
    var gone := empty;
    while gone != {}
      invariant gone <= empty
      invariant kept == map id | id in written && !(id in empty && id !in gone) :: written[id]
    {
      var id :| id in gone;
      kept := kept - {id};
      gone := gone - {id};
    }
  }

  method MergeEntries(current: Entries, managed: Entries, prev: Entries) returns (kept: Entries)
    ensures kept == MergedEntries(current, managed, prev)
  {
    var cleaned := CleanStale(current, managed, prev);
    var written := WriteManaged(cleaned, managed);
    kept := DropEmptied(written, managed, prev);
    forall id ensures EntryAt(kept, id) == EntryAfter(current, managed, prev, id) {
      assert EntryAt(written, id) == Overlaid(EntryAt(cleaned, id), managed, id);
    }
    SameEntries(kept, MergedEntries(current, managed, prev));
  }

  /** The merge over the live document: clean, write, drop what became empty, put back. */
  method MergeModelSettings(settings: SettingsDoc, managed: Entries, prev: Entries)
    modifies settings
    ensures settings.fields == MergedDoc(old(settings.fields), managed, prev)
    ensures KeyIsRight(old(settings.fields), managed, prev, settings.fields)
  {
    ghost var before := settings.fields;
    if managed == map[] && prev == map[] {
      return;
    }
    var current: Entries := map[];
    if MODEL_SETTINGS_KEY in settings.fields && settings.fields[MODEL_SETTINGS_KEY].Obj? {
      current := settings.fields[MODEL_SETTINGS_KEY].fields;
    }
    settings.fields := settings.fields - {MODEL_SETTINGS_KEY};
    current := MergeEntries(current, managed, prev);
    PutBack(before, managed, prev, current);
    if current != map[] {
      settings.fields := settings.fields[MODEL_SETTINGS_KEY := Obj(current)];
    }
  }

  lemma PutBack(doc: Entries, managed: Entries, prev: Entries, entries: Entries)
    requires managed != map[] || prev != map[]
    requires entries == MergedEntries(CurrentEntries(doc), managed, prev)
    ensures var rest := doc - {MODEL_SETTINGS_KEY};
            var after := if entries == map[] then rest else rest[MODEL_SETTINGS_KEY := Obj(entries)];
            after == MergedDoc(doc, managed, prev) && KeyIsRight(doc, managed, prev, after)
  {
    MergedKey(doc, managed, prev);
  }

  lemma SameEntries(a: Entries, b: Entries)
    requires forall id :: EntryAt(a, id) == EntryAt(b, id)
    ensures a == b
  {
    assert forall id :: id in a <==> EntryAt(a, id).Some?;
    assert forall id :: id in b <==> EntryAt(b, id).Some?;
    assert a.Keys == b.Keys;
    assert forall id | id in a :: a[id] == EntryAt(a, id).value == EntryAt(b, id).value == b[id];
  }

  // ---- What the merge means ----

  /** Every cell of the merged document follows the one-cell rule, for every document. */
  lemma MergeCell(doc: Entries, managed: Entries, prev: Entries, id: string, field: string)
    ensures DocCell(MergedDoc(doc, managed, prev), id, field) ==
            MergedField(DocCell(doc, id, field), CellIn(managed, id, field), CellIn(prev, id, field))
  {
    if !(managed == map[] && prev == map[]) {
      var current := CurrentEntries(doc);
      var entries := MergedEntries(current, managed, prev);
      assert CurrentEntries(MergedDoc(doc, managed, prev)) == entries;
      assert EntryAt(entries, id) == EntryAfter(current, managed, prev, id);
      CleanedCell(current, managed, prev, id, field);
    }
  }

  lemma CleanedCell(current: Entries, managed: Entries, prev: Entries, id: string, field: string)
    ensures CellIn(CleanedEntries(current, managed, prev), id, field) ==
            var value := CellIn(current, id, field);
            if value.Some? && IsStale(managed, prev, id, field, value.value) then None else value
  {
  }

  /** Outside the cells: the other top-level keys stay, and so does each entry of a model that
      neither the config nor the record names, whatever JSON value it is. A document whose
      `modelSettings` is not an object loses that value unless there is nothing to write. */
  lemma MergeFrame(doc: Entries, managed: Entries, prev: Entries)
    ensures MergedDoc(doc, managed, prev) - {MODEL_SETTINGS_KEY} == doc - {MODEL_SETTINGS_KEY}
    ensures forall id | id !in managed && id !in prev ::
              EntryAt(CurrentEntries(MergedDoc(doc, managed, prev)), id) == EntryAt(CurrentEntries(doc), id)
    ensures forall id | (id in managed || id in prev) && !(managed == map[] && prev == map[]) ::
              EntryAt(CurrentEntries(MergedDoc(doc, managed, prev)), id) != Some(Obj(map[]))
  {
    if !(managed == map[] && prev == map[]) {
      var current := CurrentEntries(doc);
      var entries := MergedEntries(current, managed, prev);
      assert CurrentEntries(MergedDoc(doc, managed, prev)) == entries;
      forall id ensures EntryAt(entries, id) == EntryAfter(current, managed, prev, id) {}
      forall id | id !in managed && id !in prev ensures EntryAt(entries, id) == EntryAt(current, id) {
        if id in current && current[id].Obj? {
          assert WithoutStale(current[id].fields, managed, prev, id) == current[id].fields;
        }
      }
    }
  }

  // ---- When the key itself stays ----

  /** What the document has for one model. */
  ghost function DocEntry(doc: Entries, id: string): Option<Json> {
    EntryAt(CurrentEntries(doc), id)
  }

  /** A model has an entry after the merge: some field of it is left by the one-cell rule, or it holds a value
      that is no object and is not managed, or an empty object that llmenv never had to do with. */
  ghost predicate EntryLeft(doc: Entries, managed: Entries, prev: Entries, id: string) {
    || (exists field :: MergedField(DocCell(doc, id, field), CellIn(managed, id, field), CellIn(prev, id, field)).Some?)
    || (DocEntry(doc, id).Some? && !DocEntry(doc, id).value.Obj? && !(id in managed && managed[id].Obj?))
    || (DocEntry(doc, id) == Some(Obj(map[])) && id !in managed && id !in prev)
  }

  lemma EntryLeftExactly(doc: Entries, managed: Entries, prev: Entries, id: string)
    ensures EntryAfter(CurrentEntries(doc), managed, prev, id).Some? <==> EntryLeft(doc, managed, prev, id)
  {
    var current := CurrentEntries(doc);
    var after := EntryAfter(current, managed, prev, id);
    forall field
      ensures (if after.Some? then EntryField(after.value, field) else None) ==
              MergedField(DocCell(doc, id, field), CellIn(managed, id, field), CellIn(prev, id, field))
    {
      AfterField(current, managed, prev, id, field);
    }
    if after.Some? && after.value.Obj? {
      if after.value.fields != map[] {
        var field :| field in after.value.fields;
        assert EntryField(after.value, field).Some?;
      } else {
        EmptyWasThere(current, managed, prev, id);
      }
    }
  }

  lemma EmptyWasThere(current: Entries, managed: Entries, prev: Entries, id: string)
    requires EntryAfter(current, managed, prev, id) == Some(Obj(map[]))
    ensures EntryAt(current, id) == Some(Obj(map[])) && id !in managed && id !in prev
  {
    if id in current && current[id].Obj? {
      assert WithoutStale(current[id].fields, managed, prev, id) == current[id].fields;
    }
  }

  lemma AfterField(current: Entries, managed: Entries, prev: Entries, id: string, field: string)
    ensures var after := EntryAfter(current, managed, prev, id);
            (if after.Some? then EntryField(after.value, field) else None) ==
            MergedField(CellIn(current, id, field), CellIn(managed, id, field), CellIn(prev, id, field))
  {
    CleanedCell(current, managed, prev, id, field);
  }

  /** The key is there exactly when some model has an entry left, and then it is an object that is not empty.
      With nothing managed and nothing recorded the document stays as it is. */
  ghost predicate KeyIsRight(doc: Entries, managed: Entries, prev: Entries, after: Entries) {
    if managed == map[] && prev == map[] then after == doc
    else
      && ("modelSettings" in after <==> exists id :: EntryLeft(doc, managed, prev, id))
      && ("modelSettings" in after ==> after["modelSettings"].Obj? && after["modelSettings"].fields != map[])
  }

  lemma MergedKey(doc: Entries, managed: Entries, prev: Entries)
    ensures KeyIsRight(doc, managed, prev, MergedDoc(doc, managed, prev))
  {
    if managed != map[] || prev != map[] {
      var entries := MergedEntries(CurrentEntries(doc), managed, prev);
      forall id ensures id in entries <==> EntryLeft(doc, managed, prev, id) {
        EntryLeftExactly(doc, managed, prev, id);
      }
      if entries != map[] {
        var id :| id in entries;
        assert EntryLeft(doc, managed, prev, id);
      }
    }
  }

  /** The last entry that llmenv wrote takes the key with it. */
  lemma LastEntryTakesTheKey()
    ensures var entries := map["m" := Obj(map["effortLevel" := Str("high")])];
            MergedDoc(map["modelSettings" := Obj(entries)], map[], entries) == map[]
  {
    var entries := map["m" := Obj(map["effortLevel" := Str("high")])];
    var doc := map["modelSettings" := Obj(entries)];
    assert "m" in entries;
    forall id ensures !EntryLeft(doc, map[], entries, id) {
      forall field
        ensures MergedField(DocCell(doc, id, field), CellIn(map[], id, field), CellIn(entries, id, field)).None?
      {
        assert DocCell(doc, id, field) == CellIn(entries, id, field);
      }
    }
    MergedKey(doc, map[], entries);
    assert doc - {"modelSettings"} == map[];
  }

  /** A second merge of the same config, with the record that the first one leaves, changes
      nothing. It holds for every document, record and config. */
  lemma MergeIdempotent(doc: Entries, managed: Entries, prev: Entries)
    ensures var once := MergedDoc(doc, managed, prev);
            MergedDoc(once, managed, managed) == once
  {
    if managed != map[] {
      var entries := MergedEntries(CurrentEntries(doc), managed, prev);
      EntriesTwice(CurrentEntries(doc), managed, prev);
      assert CurrentEntries(MergedDoc(doc, managed, prev)) == entries;
    }
  }

  lemma EntriesTwice(current: Entries, managed: Entries, prev: Entries)
    requires managed != map[]
    ensures var entries := MergedEntries(current, managed, prev); MergedEntries(entries, managed, managed) == entries
  {
    var entries := MergedEntries(current, managed, prev);
    var again := MergedEntries(entries, managed, managed);
    forall id ensures EntryAt(again, id) == EntryAt(entries, id) {
      assert EntryAt(entries, id) == EntryAfter(current, managed, prev, id);
      assert EntryAt(again, id) == EntryAfter(entries, managed, managed, id);
      EntryAfterTwice(current, managed, prev, id);
    }
    SameEntries(again, entries);
  }

  lemma EntryAfterTwice(current: Entries, managed: Entries, prev: Entries, id: string)
    requires managed != map[]
    ensures EntryAfter(MergedEntries(current, managed, prev), managed, managed, id) ==
            EntryAfter(current, managed, prev, id)
  {
    var entries := MergedEntries(current, managed, prev);
    assert EntryAt(entries, id) == EntryAfter(current, managed, prev, id);
    if id in entries && entries[id].Obj? {
      var fields := entries[id].fields;
      assert WithoutStale(fields, managed, managed, id) == fields;
      if id in managed && managed[id].Obj? {
        assert fields + managed[id].fields == fields;
      }
    }
  }
}
