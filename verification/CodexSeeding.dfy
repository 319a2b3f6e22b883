/** Seeding of user-chosen defaults into a rendered Codex config. */
module CodexSeeding {
  import opened JsonTree
  import opened JsonNulls

  const MODELED_KEYS: set<string> :=
    {"mcp_servers", "model_instructions_file", "hooks", "permissions", "default_permissions", "skills"}

  const SECURITY_SENSITIVE_KEYS: set<string> :=
    {"approval_policy", "sandbox_mode", "sandbox_workspace_write", "trusted_projects", "shell_environment_policy"}

  /** A key that may be seeded at all. */
  predicate IsSeedable(key: string) {
    key !in SECURITY_SENSITIVE_KEYS && key !in MODELED_KEYS
  }

  /** The seeds that the document takes. */
  function Taken(doc: Entries, seeded: Entries): Entries {
    map k | k in seeded && IsSeedable(k) && k !in doc :: seeded[k]
  }

  function Seeded(doc: Entries, seeded: Entries): Entries {
    if Taken(doc, seeded) == map[] then doc else StripFields(doc + Taken(doc, seeded), 0)
  }

  lemma TakenStep(doc: Entries, seeded: Entries, todo: set<string>, k: string)
    requires k in todo && k in seeded
    ensures Taken(doc, seeded - (todo - {k})) ==
            if IsSeedable(k) && k !in doc then Taken(doc, seeded - todo)[k := seeded[k]] else Taken(doc, seeded - todo)
  {
  }

  method InsertSeeds(doc: Entries, seeded: Entries) returns (merged: Entries, changed: bool)
    ensures merged == doc + Taken(doc, seeded)
    ensures changed <==> Taken(doc, seeded) != map[]
  {
    merged := doc;
    changed := false;
    var todo := seeded.Keys;
    assert seeded - todo == map[];
    while todo != {}
      invariant todo <= seeded.Keys
      invariant merged == doc + Taken(doc, seeded - todo)
      invariant changed <==> Taken(doc, seeded - todo) != map[]
    {
      var k :| k in todo;
      TakenStep(doc, seeded, todo, k);
      assert k in merged <==> k in doc;
      if IsSeedable(k) && k !in merged {
        merged := merged[k := seeded[k]];
        changed := true;
      }
      todo := todo - {k};
    }
    assert seeded - todo == seeded;
  }

  method ApplySeededSettings(doc: Entries, seeded: Entries) returns (result: Entries)
    ensures result == Seeded(doc, seeded)
  {
    var changed;
    result, changed := InsertSeeds(doc, seeded);
    if changed {
      var stripped := StripNulls(Obj(result), 0);
      result := stripped.fields;
    } else {
      result := doc;
    }
  }

  lemma {:induction false} CleanIsKept(value: Json, depth: nat)
    requires NoNullKeys(value)
    ensures StripDepth(value, depth) == value
    decreases value
  {
    if depth <= MAX_DEPTH {
      match value
      case Arr(items) =>
        forall i | 0 <= i < |items|
          ensures StripDepth(items[i], depth + 1) == items[i]
        {
          CleanIsKept(items[i], depth + 1);
        }
        assert StripDepth(value, depth).items == items;
      case Obj(fields) =>
        forall k | k in fields
          ensures StripDepth(fields[k], depth + 1) == fields[k]
        {
          CleanIsKept(fields[k], depth + 1);
        }
        assert StripFields(fields, depth) == fields;
      case _ =>
    }
  }

  /** Seeding a document without null-valued keys keeps every binding, adds only seedable keys of the
      seeds, with their null-valued keys dropped, and never a null. */
  lemma SeedingOnlyAdds(doc: Entries, seeded: Entries)
    requires NoNullKeys(Obj(doc))
    ensures forall k | k in doc :: k in Seeded(doc, seeded) && Seeded(doc, seeded)[k] == doc[k]
    ensures forall k | k in Seeded(doc, seeded) && k !in doc ::
              k in seeded && IsSeedable(k) && !seeded[k].Null? && Seeded(doc, seeded)[k] == StripDepth(seeded[k], 1)
    ensures forall k | k in seeded && IsSeedable(k) && !seeded[k].Null? :: k in Seeded(doc, seeded)
  {
    var merged := doc + Taken(doc, seeded);
    forall k | k in doc ensures StripDepth(merged[k], 1) == doc[k] && !doc[k].Null? {
      CleanIsKept(doc[k], 1);
    }
    forall k | k in seeded && IsSeedable(k) && !seeded[k].Null? ensures k in Seeded(doc, seeded) {
      if k !in doc {
        assert k in Taken(doc, seeded);
      }
    }
  }

  /** The keys that the adapter writes itself and those that guard the user are never seeded. Every other key is,
      where the document lacks it and the seed is not null. */
  lemma SeededKeys(doc: Entries, seeded: Entries, key: string)
    requires NoNullKeys(Obj(doc)) && key !in doc
    ensures key in Seeded(doc, seeded) <==>
            && key in seeded && !seeded[key].Null?
            && key !in {"approval_policy", "sandbox_mode", "sandbox_workspace_write", "trusted_projects",
                        "shell_environment_policy"}
            && key !in {"mcp_servers", "model_instructions_file", "hooks", "permissions", "default_permissions",
                        "skills"}
  {
    SeedingOnlyAdds(doc, seeded);
  }

  /** Seeding twice is seeding once, also when a seed is null and so never lands. */
  lemma SeedingIdempotent(doc: Entries, seeded: Entries)
    requires NoNullKeys(Obj(doc))
    ensures Seeded(Seeded(doc, seeded), seeded) == Seeded(doc, seeded)
  {
    var once := Seeded(doc, seeded);
    SeedingOnlyAdds(doc, seeded);
    if Taken(doc, seeded) != map[] {
      var merged := doc + Taken(doc, seeded);
      var again := once + Taken(once, seeded);
      forall k | k in once ensures !once[k].Null? && StripDepth(again[k], 1) == once[k] {
        StripIdempotent(merged[k], 1);
      }
      forall k | k in Taken(once, seeded) ensures seeded[k].Null? {
      }
      assert StripFields(again, 0) == once;
    }
  }
}
