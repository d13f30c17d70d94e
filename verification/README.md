# Column alias manager, modelled in Dafny

`ColumnAliasManager` maps friendly or legacy column names (aliases) to
canonical column names. It keeps a registry from the case-folded form of
each alias to its canonical name, plus a flag that freezes the registry.
On a table it renames aliased columns to their canonical names. It refuses
a rename that would clash with an existing column, or prunes it when asked.
It records the applied rename map in the table's metadata. Later it can
rename the columns back through the inverted record.

The project has six modules:

- `Wrappers` (`wrappers.dfy`): `Option`, `Result` and `Outcome`. An
  exception raised by the source is a `Failure`/`Fail` carrying an `Error`.
- `Casefold` (`casefold.dfy`): `_normalize`, the case folding of names.
- `OrderedDicts` (`ordered_dicts.dfy`): insertion-ordered string
  dictionaries, as Python's `dict` behaves. The rename record is one of
  them. Order matters because inverting the record lets the last alias win.
- `Frames` (`frames.dfy`): the table. It is reduced to its column labels
  and its `attrs` metadata bag, with `copy` and a bulk `rename`.
- `AliasManager` (`alias_manager.dfy`): the registry.
  - The pure queries are functions of the alias map.
  - The mutators are also given as functions on values (`AddAliasTo`,
    `AddMany`, `RenamePlan`).
  - The class `ColumnAliasManager` has the fields `aliases` and `frozen`.
    Its methods update them in place, and each method is proved against
    those functions.
- `AliasLaws` (`alias_laws.dfy`): laws that relate several operations.
  - rename followed by restore;
  - rename agreeing with `resolve`;
  - reloading a registry from its own entries;
  - worked examples on concrete names.

The two source files `src/column_alias_manager.py` and
`src/column_alias_manager/column_alias_manager.py` hold the same class line
for line. The table below cites the first one; every line number is the
same in the second.

The rename/restore round trip (`AliasLaws.ToCanonicalThenRestore`) needs
one more condition besides a collision-free rename: the applied rename
targets must be pairwise distinct. Say two aliases of one canonical name
both label columns, for example `qty` and `q` for `quantity`. Neither
rename collides with an existing column, so both columns become
`quantity`. Restoring then maps both to `q`, because the inverted
dictionary keeps the later alias. `AliasLaws.SharedCanonicalDoesNotRestore`
works this case out, and
`AliasLaws.DistinctCanonicalsGiveDistinctTargets` gives a sufficient
condition for distinct targets.

## Model

| member | source | states |
|---|---|---|
| Casefold.Normalize | src/column_alias_manager.py:29-32 | the folded name has the input's length, folds each character, and contains no upper-case ASCII letter |
| Casefold.NormalizeIdempotent | src/column_alias_manager.py:29-32 | folding an already folded name changes nothing, so every stored key is its own folded form |
| AliasManager.Canonical | src/column_alias_manager.py:88-89 | a name whose folded form is not registered passes through unchanged; otherwise the result is the stored canonical name, one of the registry's values |
| AliasManager.AliasesFor | src/column_alias_manager.py:91-92 | exactly the stored keys whose value is the given canonical name, and no others; each of them resolves back to that name through `canonical` |
| AliasManager.Contains | src/column_alias_manager.py:45-46 | a name is contained iff its folded form is among the aliases of the name it resolves to; a name not contained resolves to itself |
| AliasManager.Resolve | src/column_alias_manager.py:95-107 | no list gives no list; otherwise the length is kept, string labels become their canonical names and other labels are kept |
| AliasManager.AddAliasTo | src/column_alias_manager.py:55-60 | a frozen registry fails with the frozen error; otherwise it fails only on a conflicting key without overwrite; success keeps every key in folded form |
| AliasManager.AddAliasToEffect | src/column_alias_manager.py:55-60 | a conflict reports the canonical name already stored; re-adding the same pair leaves the map equal; success adds exactly the folded key; every casing of the alias then resolves to the new canonical name; every other name resolves as before; without overwrite no stored entry changes |
| AliasManager.AddMany | src/column_alias_manager.py:62-66 | on a frozen registry an empty batch passes and any other batch fails with the frozen error, the map untouched; keys stay folded |
| AliasManager.AddManyEffect | src/column_alias_manager.py:62-66 | no key is ever removed; a full pass adds exactly the items' folded aliases; without overwrite a full pass changes no stored entry and every item's alias resolves to its canonical name |
| AliasManager.AddManyAppend | src/column_alias_manager.py:62-66 | adding a concatenation adds the first part and, only if that passed, the second: processing stops at the first failure and keeps earlier additions |
| AliasManager.GroupItemsMembers | src/column_alias_manager.py:68-73 | the items added by `add_alias_groups` are exactly the pairs of an alias in a group with that group's canonical name |
| AliasManager.RenameMapFor | src/column_alias_manager.py:124-128 | the rename map has distinct keys, its keys are exactly the column names whose folded form is registered, and each maps to its registered canonical name |
| AliasManager.RenameMapForHas | src/column_alias_manager.py:124-128 | every registered column name is in the rename map with its canonical name |
| AliasManager.Collisions | src/column_alias_manager.py:131-136 | every rename entry whose target names a column in any casing and differs from its alias is listed, and only such entries |
| AliasManager.RenamePlan | src/column_alias_manager.py:122-144 | a non-string label makes the rename fail, and only that gives this error; with string labels the only failure is a collision error, raised only without `drop_conflicts` |
| AliasManager.PlanApplied | src/column_alias_manager.py:124-144 | the applied map has distinct keys, renames only registered columns to their canonical names, never collides, and keeps every non-colliding registered column |
| AliasManager.PlanRefusesCollisions | src/column_alias_manager.py:131-144 | without `drop_conflicts` the rename fails iff some registered column's rename collides |
| AliasManager.PopAll | src/column_alias_manager.py:137-140 | popping each colliding alias leaves the map minus exactly those keys, in the original order |
| AliasManager.ColumnAliasManager.constructor | src/column_alias_manager.py:22-24 | a new registry is empty, keys folded, with the given frozen flag |
| AliasManager.ColumnAliasManager.CheckFrozen | src/column_alias_manager.py:34-36 | a frozen registry reports the frozen error and an unfrozen one lets the mutation proceed |
| AliasManager.ColumnAliasManager.AddAlias | src/column_alias_manager.py:55-60 | the new map and outcome are those of `AddAliasTo`; on failure the map is unchanged; the frozen flag and folded keys are kept |
| AliasManager.ColumnAliasManager.AddAliases | src/column_alias_manager.py:62-66 | the loop leaves the map and outcome of `AddMany` on the items in order |
| AliasManager.ColumnAliasManager.AddAliasGroups | src/column_alias_manager.py:68-73 | the nested loops leave the map and outcome of `AddMany` on the group items, group by group, stopping at the first failure |
| AliasManager.ColumnAliasManager.RemoveAlias | src/column_alias_manager.py:75-77 | frozen: fails, map unchanged; otherwise only the folded key is removed, removing an absent alias changes nothing, and every casing of it then passes through |
| AliasManager.ColumnAliasManager.Clear | src/column_alias_manager.py:79-81 | frozen: fails, map unchanged; otherwise the map is empty and every name passes through |
| AliasManager.ColumnAliasManager.Freeze | src/column_alias_manager.py:83-85 | never fails, sets the flag (so repeating it changes nothing) and keeps the map |
| AliasManager.ColumnAliasManager.ToCanonical | src/column_alias_manager.py:110-151 | on failure the input table is unchanged; on success the result is the input when `inplace`, else a fresh copy with the input untouched; columns renamed by the plan's map; the map stored under `alias_map` when `remember`, replacing any earlier record |
| AliasManager.ColumnAliasManager.RestoreAliases | src/column_alias_manager.py:153-173 | no record and `strict`: fails, table unchanged; no record otherwise: the table comes back with its columns as they were; with a record the columns are renamed through the record's inverse; the result is the input when `inplace`, else a fresh copy |
| AliasManager.NewManager | src/column_alias_manager.py:22-26 | construction with a mapping is `add_aliases` on an empty registry: it fails with that call's error (the frozen error for any non-empty mapping with `frozen`), else yields a fresh registry holding its map |
| OrderedDicts.ToMap | src/column_alias_manager.py:124-128 | the dictionary built from pairs has exactly their keys, and each pair's value when the keys are distinct |
| OrderedDicts.Put | src/column_alias_manager.py:124-128 | assigning a key adds it to the keys and keeps keys distinct; every resulting item is an old item or the new pair, and the new pair is present |
| OrderedDicts.Inverse | src/column_alias_manager.py:171 | the inverted record's keys are the record's values; each maps back to an alias holding it; with distinct values it is the exact inverse |
| OrderedDicts.Drop | src/column_alias_manager.py:139-140 | the remaining items are exactly the items whose key was not popped |
| OrderedDicts.DropDrop | src/column_alias_manager.py:139-140 | popping one more key after popping a set is popping the larger set |
| OrderedDicts.DropKeys | src/column_alias_manager.py:139-140 | after popping, the keys are the old keys minus the popped ones |
| OrderedDicts.DropDistinct | src/column_alias_manager.py:139-140 | popping keeps the keys distinct |
| AliasLaws.CanonicalCaseInsensitive | src/column_alias_manager.py:88-89 | names with the same folded form, when registered, resolve to the same canonical name |
| AliasLaws.RestoreLabel | src/column_alias_manager.py:171-172 | one label renamed forward and then through the inverted record comes back, given distinct targets and no collision |
| AliasLaws.RenameThenRestore | src/column_alias_manager.py:171-172 | renaming a label list and then renaming through the inverted record gives the original list back |
| AliasLaws.ToCanonicalThenRestore | src/column_alias_manager.py:146-172 | when `to_canonical` succeeds with pairwise distinct targets, restoring through the stored record returns the original columns |
| AliasLaws.DistinctCanonicalsGiveDistinctTargets | src/column_alias_manager.py:124-128 | if distinct registered columns resolve to distinct canonical names, the applied map's targets are distinct |
| AliasLaws.ToCanonicalAgreesWithResolve | src/column_alias_manager.py:124-146 | without collisions the plan is the full rename map, and the renamed columns equal `resolve` of the columns |
| AliasLaws.RenameAgreesAt | src/column_alias_manager.py:124-128 | each column name is renamed to `canonical` of that name |
| AliasLaws.AddFreshItems | src/column_alias_manager.py:62-66 | adding distinct, folded, new aliases passes and registers exactly those items |
| AliasLaws.ReloadRoundTrip | src/column_alias_manager.py:176-186 | re-adding a registry's own entries, in any order, to a new registry passes and rebuilds the same map |
| AliasLaws.RenameRestoreScenario | src/column_alias_manager.py:124-172 | with `qty`→`quantity` and `amt`→`amount`, columns `qty`, `amt` become `quantity`, `amount`; the record is stored in column order, and restoring brings `qty`, `amt` back |
| AliasLaws.CollisionScenario | src/column_alias_manager.py:131-144 | with `qty`→`quantity` and columns `qty`, `quantity`, the rename fails naming `qty`, or with `drop_conflicts` applies an empty map |
| AliasLaws.ConflictScenario | src/column_alias_manager.py:55-60 | re-registering `qty` for `count` conflicts, reporting `quantity`; with overwrite it passes and `QTY` resolves to `count` |
| AliasLaws.ResolveScenario | src/column_alias_manager.py:102-107 | `resolve(None)` is `None`, and `Qty`, `42` resolve to `quantity`, `42` |
| AliasLaws.SharedCanonicalDoesNotRestore | src/column_alias_manager.py:171-172 | two aliases of one canonical name both become it, and restoring maps both to the later alias |

## Left out

- Casefold.Normalize: Python's `str.casefold` performs full Unicode case folding (for example `ß` becomes `ss`). The model folds only ASCII `A`–`Z`. The general laws use only two facts about folding: it is a function, and it is idempotent, which Unicode case folding also is. The worked examples use only ASCII names.
- Persistence: `to_json` and `from_json` (lines 176-186) wrap the `json` library, which is not part of this model. `from_json` builds the registry through the constructor, and `AliasLaws.ReloadRoundTrip` covers that path: the dumped entries are added back through `add_aliases`. The JSON text itself is not modelled.
- AliasManager.AliasesFor: the source returns a list in insertion order; the model returns a set, so the order is not captured.
- The `aliases` property (lines 49-52) returns a copy of the map. The model's `aliases` field is a map value, so reading it already gives that copy; there is no separate member.
- `__getitem__` and `__setitem__` (lines 39-43) only forward to `canonical` and `add_alias`, which are modelled.
- pandas: the table is reduced to its column labels and its `attrs` bag. Data, indexes and MultiIndex structure are left out; a tuple or integer label is an opaque `Other` label. `DataFrame.copy` and `DataFrame.rename` are modelled by `Frames.DataFrame.Copy` and `Frames.DataFrame.Rename`, following pandas' documented behaviour: a copy gets its own metadata, and a rename replaces each label that is a key of the mapping. The `attrs` bag holds only rename records, so a `None` or non-dictionary value under `alias_map` is not modelled.
- AliasManager.NewManager, AliasManager.ColumnAliasManager.AddAliases and AliasManager.ColumnAliasManager.AddAliasGroups: a Python mapping has distinct keys. The model accepts any sequence of pairs in iteration order, which covers every mapping.
- Exception messages: each exception is an `Error` value (frozen, conflict, collision, missing record, non-string label), not its message text. A non-string column label makes `to_canonical` fail when it case-folds that label; this is the `NonStringLabelError` case.
- Thread safety: the class has no locking, and concurrency is not modelled.
- AliasLaws.ToCanonicalThenRestore: requires pairwise distinct rename targets as well as a collision-free rename, because without them the round trip does not hold (see `AliasLaws.SharedCanonicalDoesNotRestore`).
