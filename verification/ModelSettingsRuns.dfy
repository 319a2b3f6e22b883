/** Whole runs of the config folder: renders, `/effort` saves, and damage to the companion record.

    The folder is a state machine over whole documents. `RunCell` shows that each (model, field)
    cell of it is a small machine of its own, and the theorems about runs follow from that. */
module ModelSettingsRuns {
  import opened Basics
  import opened JsonTree
  import opened ModelSettings

  /** The companion file that holds what the last render wrote. */
  datatype Companion = Absent | Corrupt | Record(entries: Entries)

  /** `readable` is false while the permissions keep llmenv from reading the companion file. What the
      file holds is still there. */
  datatype Folder = Folder(settings: Option<Entries>, companion: Companion, readable: bool)

  datatype Damage = Removed | Garbled

  datatype Event =
    | Render(caps: Capabilities, persisted: bool)    // `persisted` is false when the record write fails
    | Save(id: string, field: string, value: Json)   // `/effort`
    | RecordDamaged(how: Damage)
    | RecordLocked
    | RecordUnlocked
    | SettingsDeleted

  datatype ReadError = CannotRead

  /** An absent or unparseable record reads as empty; an unreadable one stops the render. */
  function ReadOwned(companion: Companion, readable: bool): Result<Entries, ReadError> {
    if !readable then Err(CannotRead)
    else if companion.Record? then Ok(companion.entries)
    else Ok(map[])
  }

  function WriteOwned(managed: Entries): Companion {
    if managed == map[] then Absent else Record(managed)
  }

  /** The record a render starts from. Without a `settings.json` the companion is not read. */
  function PrevEntries(folder: Folder): Result<Entries, ReadError> {
    if folder.settings.Some? then ReadOwned(folder.companion, folder.readable) else Ok(map[])
  }

  function DocOf(folder: Folder): Entries {
    if folder.settings.Some? then folder.settings.value else map[]
  }

  /** `/effort` sets one field of one model entry. */
  function SavedDoc(doc: Entries, id: string, field: string, value: Json): Entries {
    var entries := CurrentEntries(doc);
    var fields := if id in entries && entries[id].Obj? then entries[id].fields else map[];
    doc[MODEL_SETTINGS_KEY := Obj(entries[id := Obj(fields[field := value])])]
  }

  /** A removed file is no longer locked. */
  function Damaged(folder: Folder, how: Damage): Folder {
    match how
    case Removed => folder.(companion := Absent, readable := true)
    case Garbled => folder.(companion := Corrupt)
  }

  /** One render. The record is replaced as a whole, so a written one can be read. */
  ghost function Rendered(folder: Folder, caps: Capabilities, persisted: bool): Folder {
    match PrevEntries(folder)
    case Err(_) => folder
    case Ok(prev) =>
      Folder(Some(MergedDoc(DocOf(folder), Managed(caps), prev)),
             if persisted then WriteOwned(Managed(caps)) else folder.companion,
             persisted || folder.readable)
  }

  ghost function Step(folder: Folder, event: Event): Folder {
    match event
    case Render(caps, persisted) => Rendered(folder, caps, persisted)
    case Save(id, field, value) => folder.(settings := Some(SavedDoc(DocOf(folder), id, field, value)))
    case RecordDamaged(how) => Damaged(folder, how)
    case RecordLocked => folder.(readable := false)
    case RecordUnlocked => folder.(readable := true)
    case SettingsDeleted => folder.(settings := None)
  }

  ghost function Run(folder: Folder, events: seq<Event>): Folder
    decreases |events|
  {
    if events == [] then folder else Run(Step(folder, events[0]), events[1..])
  }

  // ---- The folder as an object that a render updates ----

  class ConfigDir {
    var settings: Option<Entries>
    var companion: Companion
    var readable: bool

    constructor (folder: Folder)
      ensures View() == folder
    {
      settings, companion, readable := folder.settings, folder.companion, folder.readable;
    }

    ghost function View(): Folder
      reads this
    {
      Folder(settings, companion, readable)
    }

    /** One render: prepare, apply, persist. A record that cannot be read stops it with nothing
        changed. A record that cannot be written is reported after `settings.json` is updated. */
    method RenderSettings(caps: Capabilities, persistWorks: bool) returns (ok: bool)
      modifies this
      ensures View() == Step(old(View()), Render(caps, persistWorks))
      ensures ok <==> PrevEntries(old(View())).Ok? && persistWorks
      ensures PrevEntries(old(View())).Err? ==> View() == old(View())
    {
      var prev: Entries := map[];
      if settings.Some? {
        match ReadOwned(companion, readable) {
          case Err(_) => return false;
          case Ok(entries) => prev := entries;
        }
      }
      var managed := ManagedEntries(caps);
      var doc := new SettingsDoc(if settings.Some? then settings.value else map[]);
      MergeModelSettings(doc, managed, prev);
      settings := Some(doc.fields);
      if persistWorks {
        companion, readable := WriteOwned(managed), true;
      }
      ok := persistWorks;
    }
  }

  // ---- One cell as a machine of its own ----

  /** What a run can observe about one (model, field): its value, what the record holds for it,
      whether there is a `settings.json`, and whether the record can be read. */
  datatype Cell = Cell(value: Option<Json>, owned: Option<Json>, onDisk: bool, readable: bool)

  function OwnedCell(companion: Companion, id: string, field: string): Option<Json> {
    if companion.Record? then CellIn(companion.entries, id, field) else None
  }

  function CellOf(folder: Folder, id: string, field: string): Cell {
    Cell(DocCell(DocOf(folder), id, field), OwnedCell(folder.companion, id, field),
         folder.settings.Some?, folder.readable)
  }

  function CellStep(cell: Cell, event: Event, id: string, field: string): Cell {
    match event
    case Render(caps, persisted) =>
      if cell.onDisk && !cell.readable then cell
      else
        var now := ManagedField(caps, id, field);
        Cell(MergedField(cell.value, now, if cell.onDisk then cell.owned else None),
             if persisted then now else cell.owned,
             true,
             persisted || cell.readable)
    case Save(savedId, savedField, value) =>
      cell.(onDisk := true, value := if savedId == id && savedField == field then Some(value) else cell.value)
    case RecordDamaged(how) => cell.(owned := None, readable := how.Removed? || cell.readable)
    case RecordLocked => cell.(readable := false)
    case RecordUnlocked => cell.(readable := true)
    case SettingsDeleted => cell.(value := None, onDisk := false)
  }

  function CellRun(cell: Cell, events: seq<Event>, id: string, field: string): Cell
    decreases |events|
  {
    if events == [] then cell else CellRun(CellStep(cell, events[0], id, field), events[1..], id, field)
  }

  lemma SaveCells(doc: Entries, id: string, field: string, value: Json, otherId: string, otherField: string)
    ensures DocCell(SavedDoc(doc, id, field, value), otherId, otherField) ==
            if otherId == id && otherField == field then Some(value) else DocCell(doc, otherId, otherField)
  {
  }

  /** Each step of the folder is, cell by cell, a step of the cell machine. */
  lemma StepCell(folder: Folder, event: Event, id: string, field: string)
    ensures CellOf(Step(folder, event), id, field) == CellStep(CellOf(folder, id, field), event, id, field)
  {
    match event
    case Render(caps, persisted) =>
      if PrevEntries(folder).Ok? {
        var prev := PrevEntries(folder).value;
        MergeCell(DocOf(folder), Managed(caps), prev, id, field);
        ManagedCells(caps, id, field);
        assert CellIn(prev, id, field) ==
               if folder.settings.Some? then OwnedCell(folder.companion, id, field) else None;
        assert OwnedCell(WriteOwned(Managed(caps)), id, field) == ManagedField(caps, id, field);
      }
    case Save(savedId, savedField, value) =>
      SaveCells(DocOf(folder), savedId, savedField, value, id, field);
    case _ =>
  }

  /** Refinement over whole runs: no cell is ever affected by what happens to another one. */
  lemma {:induction false} RunCell(folder: Folder, events: seq<Event>, id: string, field: string)
    ensures CellOf(Run(folder, events), id, field) == CellRun(CellOf(folder, id, field), events, id, field)
    decreases |events|
  {
    if events != [] {
      StepCell(folder, events[0], id, field);
      RunCell(Step(folder, events[0]), events[1..], id, field);
    }
  }

  lemma {:induction false} RunSplit(folder: Folder, first: seq<Event>, second: seq<Event>)
    ensures Run(folder, first + second) == Run(Run(folder, first), second)
    decreases |first|
  {
    if first == [] {
      assert first + second == second;
    } else {
      assert (first + second)[1..] == first[1..] + second;
      RunSplit(Step(folder, first[0]), first[1..], second);
    }
  }

  // ---- Closed form of a run of renders ----

  function RenderAll(configs: seq<Capabilities>): seq<Event> {
    seq(|configs|, i requires 0 <= i < |configs| => Render(configs[i], true))
  }

  predicate Manages(caps: Capabilities, id: string, field: string) {
    ManagedField(caps, id, field).Some?
  }

  predicate EverManaged(configs: seq<Capabilities>, id: string, field: string) {
    exists i | 0 <= i < |configs| :: Manages(configs[i], id, field)
  }

  /** After any renders with no user edits, each cell holds the last config's value if that config
      manages it, nothing if an earlier one did, and its original value otherwise. The document is
      arbitrary; the record can be read, and is absent or does not parse. */
  lemma RendersClosedForm(folder: Folder, configs: seq<Capabilities>, id: string, field: string)
    requires folder.readable && (folder.companion.Absent? || folder.companion.Corrupt?)
    ensures DocCell(DocOf(Run(folder, RenderAll(configs))), id, field) ==
            if configs != [] && Manages(configs[|configs| - 1], id, field)
            then ManagedField(configs[|configs| - 1], id, field)
            else if EverManaged(configs, id, field) then None
            else DocCell(DocOf(folder), id, field)
  {
    RunCell(folder, RenderAll(configs), id, field);
    CellRenders(CellOf(folder, id, field), configs, id, field);
  }

  /** The cell form, from any cell that holds no claim of the record other than its own value. */
  lemma {:induction false} CellRenders(cell: Cell, configs: seq<Capabilities>, id: string, field: string)
    requires cell.readable
    requires cell.owned.Some? ==> cell.onDisk && cell.value == cell.owned
    ensures CellRun(cell, RenderAll(configs), id, field).value ==
            if configs == [] then cell.value
            else if Manages(configs[|configs| - 1], id, field) then ManagedField(configs[|configs| - 1], id, field)
            else if EverManaged(configs, id, field) || cell.owned.Some? then None
            else cell.value
    decreases |configs|
  {
    if configs != [] {
      var events := RenderAll(configs);
      var rest := configs[1..];
      assert events[1..] == RenderAll(rest);
      var next := CellStep(cell, events[0], id, field);
      CellRenders(next, rest, id, field);
      assert EverManaged(configs, id, field) <==> Manages(configs[0], id, field) || EverManaged(rest, id, field) by {
        assert forall i | 0 <= i < |rest| :: rest[i] == configs[i + 1];
        if EverManaged(configs, id, field) && !Manages(configs[0], id, field) {
          var i :| 0 <= i < |configs| && Manages(configs[i], id, field);
          assert rest[i - 1] == configs[i];
        }
      }
    }
  }

  // ---- When the key goes ----

  /** The key is absent, or an object with entries, each of which is an object with fields. */
  ghost predicate OnlyFields(doc: Entries) {
    "modelSettings" in doc ==>
      && doc["modelSettings"].Obj?
      && doc["modelSettings"].fields != map[]
      && forall id | id in doc["modelSettings"].fields ::
           doc["modelSettings"].fields[id].Obj? && doc["modelSettings"].fields[id].fields != map[]
  }

  lemma EntryStaysFull(current: Entries, caps: Capabilities, prev: Entries, id: string)
    requires id in current ==> current[id].Obj? && current[id].fields != map[]
    ensures var after := EntryAfter(current, Managed(caps), prev, id);
            after.Some? ==> after.value.Obj? && after.value.fields != map[]
  {
    var managed := Managed(caps);
    if id !in managed && id !in prev && id in current {
      assert WithoutStale(current[id].fields, managed, prev, id) == current[id].fields;
    }
  }

  lemma RenderKeepsOnlyFields(doc: Entries, caps: Capabilities, prev: Entries)
    requires OnlyFields(doc)
    ensures OnlyFields(MergedDoc(doc, Managed(caps), prev))
  {
    if Managed(caps) != map[] || prev != map[] {
      MergedKey(doc, Managed(caps), prev);
      var current := CurrentEntries(doc);
      forall id ensures var after := EntryAfter(current, Managed(caps), prev, id);
                        after.Some? ==> after.value.Obj? && after.value.fields != map[]
      {
        EntryStaysFull(current, caps, prev, id);
      }
    }
  }

  lemma {:induction false} RendersKeepOnlyFields(folder: Folder, configs: seq<Capabilities>)
    requires OnlyFields(DocOf(folder))
    ensures OnlyFields(DocOf(Run(folder, RenderAll(configs))))
    decreases |configs|
  {
    if configs != [] {
      var events := RenderAll(configs);
      assert events[1..] == RenderAll(configs[1..]);
      var next := Step(folder, events[0]);
      if PrevEntries(folder).Ok? {
        RenderKeepsOnlyFields(DocOf(folder), configs[0], PrevEntries(folder).value);
      }
      RendersKeepOnlyFields(next, configs[1..]);
    }
  }

  /** A cell that is empty, or holds what the record says, is empty once the last config does not manage it. */
  lemma {:induction false} CellEmptied(cell: Cell, configs: seq<Capabilities>, id: string, field: string)
    requires cell.value.None? || (cell.readable && cell.onDisk && cell.value == cell.owned)
    requires configs == [] ==> cell.value.None?
    requires configs != [] ==> !Manages(configs[|configs| - 1], id, field)
    ensures CellRun(cell, RenderAll(configs), id, field).value.None?
    decreases |configs|
  {
    if configs != [] {
      var events := RenderAll(configs);
      var rest := configs[1..];
      assert events[1..] == RenderAll(rest);
      CellEmptied(CellStep(cell, events[0], id, field), rest, id, field);
    }
  }

  /** A folder without the `modelSettings` key ends without it after any renders without saves, once the last
      config manages nothing. The record is arbitrary. */
  lemma KeyGoesWithTheLastConfig(folder: Folder, configs: seq<Capabilities>)
    requires "modelSettings" !in DocOf(folder)
    requires configs != [] ==> ManagesNothing(configs[|configs| - 1])
    ensures "modelSettings" !in DocOf(Run(folder, RenderAll(configs)))
  {
    var doc := DocOf(Run(folder, RenderAll(configs)));
    RendersKeepOnlyFields(folder, configs);
    if "modelSettings" in doc {
      var id, field := SomeCell(doc);
      RunCell(folder, RenderAll(configs), id, field);
      CellEmptied(CellOf(folder, id, field), configs, id, field);
    }
  }

  ghost predicate ManagesNothing(caps: Capabilities) {
    forall id, field :: !Manages(caps, id, field)
  }

  lemma SomeCell(doc: Entries) returns (id: string, field: string)
    requires OnlyFields(doc) && "modelSettings" in doc
    ensures DocCell(doc, id, field).Some?
  {
    var entries := doc["modelSettings"].fields;
    id :| id in entries;
    field :| field in entries[id].fields;
  }

  /** A render leaves a record exactly when it manages something, and then the record can be read. */
  lemma RecordOnlyOfManaged(folder: Folder, caps: Capabilities)
    requires PrevEntries(folder).Ok?
    ensures var after := Step(folder, Render(caps, true));
            after.readable && (after.companion.Absent? <==> caps.effortLevel.None? && caps.modelEffort == map[])
  {
    assert caps.effortLevel.Some? ==> PER_MODEL_EFFORT_MODELS[0] in Managed(caps);
    if caps.modelEffort != map[] {
      var id :| id in caps.modelEffort;
      assert id in Managed(caps);
    }
  }

  // ---- User saves over every interleaving ----

  predicate ManagesCell(event: Event, id: string, field: string) {
    event.Render? && Manages(event.caps, id, field)
  }

  predicate SavesCell(event: Event, id: string, field: string) {
    event.Save? && event.id == id && event.field == field
  }

  /** The value of a cell if only the user ever wrote to it. */
  function LastSaved(original: Option<Json>, events: seq<Event>, id: string, field: string): Option<Json>
    decreases |events|
  {
    if events == [] then original
    else
      var before := LastSaved(original, events[..|events| - 1], id, field);
      var last := events[|events| - 1];
      if SavesCell(last, id, field) then Some(last.value)
      else if last.SettingsDeleted? then None
      else before
  }

  /** A cell that no config manages, and that the record does not claim at the start, always holds
      what the user saved last, through any renders, failed writes and damage to the record. */
  lemma {:induction false} UnmanagedCellKeepsLastSave(folder: Folder, events: seq<Event>, id: string, field: string)
    requires OwnedCell(folder.companion, id, field).None?
    requires forall i | 0 <= i < |events| :: !ManagesCell(events[i], id, field)
    ensures DocCell(DocOf(Run(folder, events)), id, field) ==
            LastSaved(DocCell(DocOf(folder), id, field), events, id, field)
    ensures OwnedCell(Run(folder, events).companion, id, field).None?
    decreases |events|
  {
    if events != [] {
      var init, last := events[..|events| - 1], events[|events| - 1];
      UnmanagedCellKeepsLastSave(folder, init, id, field);
      assert events == init + [last];
      RunSplit(folder, init, [last]);
      assert Run(Run(folder, init), [last]) == Step(Run(folder, init), last);
      StepCell(Run(folder, init), last, id, field);
      assert !ManagesCell(last, id, field);
    }
  }

  /** No event of `events` writes the cell or deletes the document. */
  predicate Quiet(events: seq<Event>, id: string, field: string) {
    forall i | 0 <= i < |events| ::
      !ManagesCell(events[i], id, field) && !SavesCell(events[i], id, field) && !events[i].SettingsDeleted?
  }

  /** A render that can read the record comes before the record is next removed or garbled. Renders
      while it is locked do not count, and locking does not reset anything. */
  predicate RenderedBeforeDamage(events: seq<Event>, readable: bool)
    decreases |events|
  {
    events != [] &&
    match events[0]
    case Render(_, _) => readable || RenderedBeforeDamage(events[1..], readable)
    case RecordDamaged(_) => false
    case RecordLocked => RenderedBeforeDamage(events[1..], false)
    case RecordUnlocked => RenderedBeforeDamage(events[1..], true)
    case _ => RenderedBeforeDamage(events[1..], readable)
  }

  lemma {:induction false} QuietCell(cell: Cell, events: seq<Event>, id: string, field: string)
    requires cell.onDisk && cell.value.Some?
    requires Quiet(events, id, field)
    ensures CellRun(cell, events, id, field).value ==
            if cell.owned == cell.value && RenderedBeforeDamage(events, cell.readable) then None else cell.value
    decreases |events|
  {
    if events != [] {
      var next := CellStep(cell, events[0], id, field);
      assert !ManagesCell(events[0], id, field) && !SavesCell(events[0], id, field);
      if next.value.Some? {
        QuietCell(next, events[1..], id, field);
      } else {
        GoneCell(next, events[1..], id, field);
      }
    }
  }

  lemma {:induction false} GoneCell(cell: Cell, events: seq<Event>, id: string, field: string)
    requires cell.value.None?
    requires Quiet(events, id, field)
    ensures CellRun(cell, events, id, field).value.None?
    decreases |events|
  {
    if events != [] {
      assert !ManagesCell(events[0], id, field) && !SavesCell(events[0], id, field);
      GoneCell(CellStep(cell, events[0], id, field), events[1..], id, field);
    }
  }

  /** The fate of a saved value, over every interleaving: after events that neither manage nor
      write the cell again, it is lost exactly when the record held that same value at the time of
      the save and a render that could read it came before it was removed or garbled. A time during
      which the record is locked only puts that off. */
  lemma SavedValueFate(folder: Folder, before: seq<Event>, id: string, field: string, value: Json, after: seq<Event>)
    requires Quiet(after, id, field)
    ensures var at := Run(folder, before);
            DocCell(DocOf(Run(folder, before + [Save(id, field, value)] + after)), id, field) ==
            if OwnedCell(at.companion, id, field) == Some(value) && RenderedBeforeDamage(after, at.readable) then None
            else Some(value)
  {
    var save := Save(id, field, value);
    RunSplit(folder, before + [save], after);
    RunSplit(folder, before, [save]);
    var at := Run(folder, before);
    assert Run(at, [save]) == Step(at, save);
    StepCell(at, save, id, field);
    RunCell(Step(at, save), after, id, field);
    QuietCell(CellOf(Step(at, save), id, field), after, id, field);
  }

  // ---- What the record claims ----

  /** Nothing goes wrong with the record: every write works and nobody damages or locks it. */
  predicate Healthy(events: seq<Event>) {
    forall i | 0 <= i < |events| ::
      !events[i].RecordDamaged? && !events[i].RecordLocked? && (events[i].Render? ==> events[i].persisted)
  }

  /** What the last render before the end of `events` wrote to the cell. */
  function LastRendered(events: seq<Event>, id: string, field: string): Option<Json>
    decreases |events|
  {
    if events == [] then None
    else if events[|events| - 1].Render? then ManagedField(events[|events| - 1].caps, id, field)
    else LastRendered(events[..|events| - 1], id, field)
  }

  /** In a healthy run the record claims exactly what the immediately preceding render wrote. */
  lemma {:induction false} RecordIsLastRender(folder: Folder, events: seq<Event>, id: string, field: string)
    requires folder.companion.Absent? && folder.readable
    requires Healthy(events)
    ensures OwnedCell(Run(folder, events).companion, id, field) == LastRendered(events, id, field)
    ensures Run(folder, events).readable
    decreases |events|
  {
    if events != [] {
      var init, last := events[..|events| - 1], events[|events| - 1];
      RecordIsLastRender(folder, init, id, field);
      assert events == init + [last];
      RunSplit(folder, init, [last]);
      assert Run(Run(folder, init), [last]) == Step(Run(folder, init), last);
      StepCell(Run(folder, init), last, id, field);
    }
  }

  /** A healthy run loses a saved value only to a config that manages the cell, to a later save, to
      the deletion of `settings.json`, or to a render after the config dropped the cell while the
      value equals what the immediately preceding render wrote. */
  lemma SavedValueLostOnlyWhen(folder: Folder, before: seq<Event>, id: string, field: string, value: Json,
                               after: seq<Event>)
    requires folder.companion.Absent? && folder.readable
    requires Healthy(before) && Healthy(after)
    requires DocCell(DocOf(Run(folder, before + [Save(id, field, value)] + after)), id, field) != Some(value)
    ensures !Quiet(after, id, field) ||
            (LastRendered(before, id, field) == Some(value) && exists i | 0 <= i < |after| :: after[i].Render?)
  {
    if Quiet(after, id, field) {
      SavedValueFate(folder, before, id, field, value, after);
      RecordIsLastRender(folder, before, id, field);
      RenderedMeansRender(after, true);
    }
  }

  lemma {:induction false} RenderedMeansRender(events: seq<Event>, readable: bool)
    requires RenderedBeforeDamage(events, readable)
    ensures exists i | 0 <= i < |events| :: events[i].Render?
    decreases |events|
  {
    if !events[0].Render? {
      var next := !events[0].RecordLocked? && (events[0].RecordUnlocked? || readable);
      RenderedMeansRender(events[1..], next);
      var i :| 0 <= i < |events| - 1 && events[1..][i].Render?;
      assert events[i + 1].Render?;
    }
  }

  // ---- Renders without a record, and repeated renders ----

  /** With an absent or unparseable record a render removes no cell: each one keeps its value or gets the
      config's, and a render that cannot read the record changes none. */
  lemma RenderWithoutRecordRemovesNothing(folder: Folder, caps: Capabilities, persisted: bool, id: string,
                                          field: string)
    requires folder.companion.Absent? || folder.companion.Corrupt?
    ensures var before := DocCell(DocOf(folder), id, field);
            var after := DocCell(DocOf(Step(folder, Render(caps, persisted))), id, field);
            after == (if Manages(caps, id, field) && PrevEntries(folder).Ok? then ManagedField(caps, id, field)
                      else before) &&
            (before.Some? ==> after.Some?)
  {
    StepCell(folder, Render(caps, persisted), id, field);
  }

  /** Rendering the same config twice leaves the folder, record included, as the first time. */
  lemma RenderIdempotent(folder: Folder, caps: Capabilities)
    ensures var once := Step(folder, Render(caps, true));
            Step(once, Render(caps, true)) == once
  {
    var once := Rendered(folder, caps, true);
    if PrevEntries(folder).Ok? {
      var managed := Managed(caps);
      assert PrevEntries(once) == Ok(managed);
      MergeIdempotent(DocOf(folder), managed, PrevEntries(folder).value);
      var doc := MergedDoc(DocOf(folder), managed, PrevEntries(folder).value);
      assert once == Folder(Some(doc), WriteOwned(managed), true);
      assert MergedDoc(doc, managed, managed) == doc;
    }
  }
}
