/** Result reuse when an inventory is discovered again. */
module InventoryMerge {
  import opened Documents
  import opened Lifecycle

  /** The discovered scopes, the known results, and no errors. */
  ghost predicate Merges(current: Option<Inventory>, discovered: Inventory, merged: Inventory) {
    && merged == discovered.(targets := merged.targets, errors := [])
    && merged.targets.Keys == discovered.targets.Keys
    && (forall id <- merged.targets :: merged.targets[id].scope == discovered.targets[id].scope)
    && RefreshedTargets(current, merged)
  }

  method MergeInventory(current: Option<Inventory>, discovered: Inventory) returns (merged: Result<Inventory, string>)
    ensures merged.Err? <==> discovered.errors != []
    ensures merged.Ok? ==> Merges(current, discovered, merged.value)
  {
    if discovered.errors != [] {
      return Err("incomplete inventory discovery");
    }
    var known := if current.Some? then current.value.targets else map[];
    var targets := discovered.targets;
    var todo := targets.Keys;
    while todo != {}
      invariant todo <= targets.Keys == discovered.targets.Keys
      invariant forall id <- targets :: targets[id].scope == discovered.targets[id].scope
      invariant forall id <- targets.Keys - todo ::
                  targets[id].result == if id in known then known[id].result else FRESH_RESULT
    {
      var id :| id in todo;
      todo := todo - {id};
      targets := targets[id := targets[id].(result := if id in known then known[id].result else FRESH_RESULT)];
    }
    return Ok(discovered.(targets := targets, errors := []));
  }

  /** Merging keeps the validators satisfied, and merging the same discovery twice changes nothing more. */
  lemma MergeIsStable(current: Option<Inventory>, discovered: Inventory, merged: Inventory, again: Inventory)
    requires discovered.Valid() && Merges(current, discovered, merged) && Merges(Some(merged), discovered, again)
    ensures merged.Valid() && again == merged
  {
    forall id | id in merged.targets
      ensures again.targets[id] == merged.targets[id]
    {
    }
    assert again.targets == merged.targets;
  }
}
