/**
 * The column alias manager: a registry from case-folded aliases to canonical
 * column names, its queries, and the rename/restore operations it performs
 * on a table's column labels.
 *
 * The pure queries are functions of the alias map; the registry object,
 * whose methods update the map and the frozen flag in place, is the class
 * ColumnAliasManager at the end of the module.
 */
module AliasManager {
  import opened Wrappers
  import opened Casefold
  import opened OrderedDicts
  import opened Frames

  /** The metadata key under which the last rename record is kept. */
  const ATTR_KEY: string := "alias_map"

  datatype Error =
    | FrozenError                                // a mutator called on a frozen registry
    | ConflictError(alias: string, existing: string) // alias already mapped elsewhere, no overwrite
    | CollisionError(aliases: seq<string>)       // renaming would clash with existing columns
    | MissingRecordError                         // no rename record to restore from
    | NonStringLabelError                        // a non-string column label cannot be case-folded

  /** Every stored key is in case-folded form. */
  ghost predicate KeysFolded(m: map<string, string>)
  {
    forall k :: k in m ==> Normalize(k) == k
  }

  // ------------------------------------------------------------------ queries

  /** `canonical`: the name an alias stands for; names that are not registered pass through. */
  function Canonical(m: map<string, string>, name: string): (r: string)
    ensures Normalize(name) !in m ==> r == name
    ensures Normalize(name) in m ==> r == m[Normalize(name)] && r in m.Values
  {
    if Normalize(name) in m then m[Normalize(name)] else name
  }

  /** `aliases_for`: the stored (case-folded) aliases of a canonical name. */
  function AliasesFor(m: map<string, string>, canonical: string): (r: set<string>)
    ensures forall a :: a in r <==> a in m && m[a] == canonical
    ensures KeysFolded(m) ==> forall a :: a in r ==> Canonical(m, a) == canonical
  {
    set a | a in m && m[a] == canonical
  }

  /** `__contains__`: whether a name, in any casing, is a registered alias. */
  predicate Contains(m: map<string, string>, alias: string)
    ensures Contains(m, alias) <==> Normalize(alias) in AliasesFor(m, Canonical(m, alias))
    ensures !Contains(m, alias) ==> Canonical(m, alias) == alias
  {
    Normalize(alias) in m
  }

  /**
   * `resolve`: canonical names for a list of labels. String labels are
   * resolved, other labels are kept, and an absent list stays absent.
   */
  function Resolve(m: map<string, string>, columns: Option<seq<Label>>): (r: Option<seq<Label>>)
    ensures r.None? <==> columns.None?
    ensures columns.Some? ==> |r.value| == |columns.value|
    ensures columns.Some? ==> forall i :: 0 <= i < |columns.value| ==>
      r.value[i] == (match columns.value[i]
                     case Str(s) => Str(Canonical(m, s))
                     case Other(_) => columns.value[i])
  {
    match columns
    case None => None
    case Some(cols) =>
      Some(seq(|cols|, i requires 0 <= i < |cols| =>
        if cols[i].Str? then Str(Canonical(m, cols[i].name)) else cols[i]))
  }

  // ------------------------------------------------------------------ mutation, as values

  /**
   * `add_alias` on a registry with map `m` and flag `frozen`: the new map, or
   * the error raised. Existing entries change only by an explicit overwrite.
   */
  function AddAliasTo(m: map<string, string>, frozen: bool, alias: string, canonical: string, overwrite: bool)
    : (r: Result<map<string, string>, Error>)
    ensures frozen ==> r == Failure(FrozenError)
    ensures r.Failure? ==> frozen || (!overwrite && Normalize(alias) in m && m[Normalize(alias)] != canonical)
    ensures KeysFolded(m) && r.Success? ==> KeysFolded(r.value)
  {
    var key := Normalize(alias);
    if frozen then Failure(FrozenError)
    else if !overwrite && key in m && m[key] != canonical then Failure(ConflictError(alias, m[key]))
    else
      NormalizeIdempotent(alias);
      Success(m[key := canonical])
  }

  /**
   * The effect of a successful `add_alias`: every casing of the alias now
   * resolves to the given canonical name, every other name resolves as
   * before, and without overwrite no existing entry changes. A conflict is
   * reported with the canonical name already registered, and re-adding the
   * same pair changes nothing.
   */
  lemma AddAliasToEffect(m: map<string, string>, frozen: bool, alias: string, canonical: string, overwrite: bool)
    ensures var r := AddAliasTo(m, frozen, alias, canonical, overwrite);
      && (!frozen && !overwrite && Normalize(alias) in m && m[Normalize(alias)] != canonical ==>
            r == Failure(ConflictError(alias, m[Normalize(alias)])))
      && (!frozen && Normalize(alias) in m && m[Normalize(alias)] == canonical ==> r == Success(m))
      && (r.Success? ==> r.value.Keys == m.Keys + {Normalize(alias)})
      && (r.Success? ==> forall b :: Normalize(b) == Normalize(alias) ==> Canonical(r.value, b) == canonical)
      && (r.Success? ==> forall b :: Normalize(b) != Normalize(alias) ==> Canonical(r.value, b) == Canonical(m, b))
      && (r.Success? && !overwrite ==> forall k :: k in m ==> r.value[k] == m[k])
  {
    if !frozen && Normalize(alias) in m && m[Normalize(alias)] == canonical {
      assert m[Normalize(alias) := canonical] == m;
    }
  }

  /** The map after a sequence of `add_alias` calls, and whether all of them passed. */
  datatype Applied = Applied(aliases: map<string, string>, outcome: Outcome<Error>)

  /**
   * `add_aliases`: adds the (alias, canonical) items in order and stops at the
   * first failure, keeping what the earlier items added.
   */
  function AddMany(m: map<string, string>, frozen: bool, items: seq<(string, string)>, overwrite: bool)
    : (r: Applied)
    ensures frozen ==> r == Applied(m, if items == [] then Pass else Fail(FrozenError))
    ensures KeysFolded(m) ==> KeysFolded(r.aliases)
    decreases |items|
  {
    if items == [] then Applied(m, Pass)
    else
      match AddAliasTo(m, frozen, items[0].0, items[0].1, overwrite)
      case Failure(e) => Applied(m, Fail(e))
      case Success(m') => AddMany(m', frozen, items[1..], overwrite)
  }

  /**
   * What `add_aliases` leaves behind: no key is ever removed, a full pass
   * registers exactly the folded aliases of the items, and without
   * overwrite a full pass changes no existing entry and resolves every
   * item's alias to its canonical name.
   */
  lemma {:induction false} AddManyEffect(m: map<string, string>, frozen: bool, items: seq<(string, string)>, overwrite: bool)
    ensures var r := AddMany(m, frozen, items, overwrite);
      && m.Keys <= r.aliases.Keys
      && (r.outcome.Pass? ==> r.aliases.Keys == m.Keys + FoldedAliases(items))
      && (r.outcome.Pass? && !overwrite ==> forall k :: k in m ==> r.aliases[k] == m[k])
      && (r.outcome.Pass? && !overwrite ==>
            forall i :: 0 <= i < |items| ==> Canonical(r.aliases, items[i].0) == items[i].1)
    decreases |items|
  {
    if items != [] {
      AddAliasToEffect(m, frozen, items[0].0, items[0].1, overwrite);
      match AddAliasTo(m, frozen, items[0].0, items[0].1, overwrite)
      case Failure(e) =>
      case Success(m') =>
        AddManyEffect(m', frozen, items[1..], overwrite);
        var r := AddMany(m', frozen, items[1..], overwrite);
        if r.outcome.Pass? && !overwrite {
          forall i | 1 <= i < |items| ensures Canonical(r.aliases, items[i].0) == items[i].1 {
            assert items[1..][i - 1] == items[i];
          }
        }
    }
  }

  /** The case-folded aliases of a list of (alias, canonical) items. */
  function FoldedAliases(items: seq<(string, string)>): set<string>
    decreases |items|
  {
    if items == [] then {} else {Normalize(items[0].0)} + FoldedAliases(items[1..])
  }

  /**
   * The (alias, canonical) items of `add_alias_groups`: each canonical name
   * with each of its aliases, group by group.
   */
  function GroupItems(groups: seq<(string, seq<string>)>): seq<(string, string)>
    decreases |groups|
  {
    if groups == [] then []
    else GroupOf(groups[0].0, groups[0].1) + GroupItems(groups[1..])
  }

  /** The group items are exactly the pairs of a canonical name with one of its aliases. */
  lemma {:induction false} GroupItemsMembers(groups: seq<(string, seq<string>)>)
    ensures forall g, a :: g in groups && a in g.1 ==> (a, g.0) in GroupItems(groups)
    ensures forall p :: p in GroupItems(groups) ==> exists g :: g in groups && p.0 in g.1 && p.1 == g.0
    decreases |groups|
  {
    if groups != [] {
      GroupItemsMembers(groups[1..]);
      var head := GroupOf(groups[0].0, groups[0].1);
      var tail := GroupItems(groups[1..]);
      assert GroupItems(groups) == head + tail;
      forall g, a | g in groups && a in g.1 ensures (a, g.0) in GroupItems(groups) {
        if g == groups[0] {
          var i :| 0 <= i < |g.1| && g.1[i] == a;
          assert head[i] == (a, g.0);
        } else {
          assert g in groups[1..];
        }
      }
      forall p | p in GroupItems(groups) ensures exists g :: g in groups && p.0 in g.1 && p.1 == g.0 {
        if p in head {
          var i :| 0 <= i < |head| && head[i] == p;
          assert groups[0].1[i] == p.0;
        } else {
          assert p in tail;
          var g :| g in groups[1..] && p.0 in g.1 && p.1 == g.0;
          assert g in groups;
        }
      }
    }
  }

  /** The items `(alias, canonical)` for one group. */
  function GroupOf(canonical: string, aliases: seq<string>): (items: seq<(string, string)>)
    ensures |items| == |aliases|
    ensures forall i :: 0 <= i < |aliases| ==> items[i] == (aliases[i], canonical)
  {
    seq(|aliases|, i requires 0 <= i < |aliases| => (aliases[i], canonical))
  }

  /** Adding a concatenation adds the first part, then, if that passed, the second. */
  lemma {:induction false} AddManyAppend(m: map<string, string>, frozen: bool, xs: seq<(string, string)>,
                                         ys: seq<(string, string)>, overwrite: bool)
    ensures AddMany(m, frozen, xs + ys, overwrite) ==
      var p := AddMany(m, frozen, xs, overwrite);
      if p.outcome.Fail? then p else AddMany(p.aliases, frozen, ys, overwrite)
    decreases |xs|
  {
    if xs != [] {
      assert (xs + ys)[0] == xs[0] && (xs + ys)[1..] == xs[1..] + ys;
      match AddAliasTo(m, frozen, xs[0].0, xs[0].1, overwrite)
      case Failure(e) =>
      case Success(m') => AddManyAppend(m', frozen, xs[1..], ys, overwrite);
    } else {
      assert xs + ys == ys;
    }
  }

  /** One more item after a passing prefix is one more `add_alias`. */
  lemma AddManyStep(m0: map<string, string>, frozen: bool, xs: seq<(string, string)>, x: (string, string),
                    overwrite: bool, m: map<string, string>)
    requires AddMany(m0, frozen, xs, overwrite) == Applied(m, Pass)
    ensures AddMany(m0, frozen, xs + [x], overwrite) ==
      match AddAliasTo(m, frozen, x.0, x.1, overwrite)
      case Failure(e) => Applied(m, Fail(e))
      case Success(m') => Applied(m', Pass)
  {
    AddManyAppend(m0, frozen, xs, [x], overwrite);
  }

  /** A failing prefix decides the outcome: later items are never added. */
  lemma AddManyStop(m0: map<string, string>, frozen: bool, xs: seq<(string, string)>, ys: seq<(string, string)>,
                    overwrite: bool)
    requires AddMany(m0, frozen, xs, overwrite).outcome.Fail?
    ensures AddMany(m0, frozen, xs + ys, overwrite) == AddMany(m0, frozen, xs, overwrite)
  {
    AddManyAppend(m0, frozen, xs, ys, overwrite);
  }

  lemma GroupOfSnoc(canonical: string, names: seq<string>, j: nat)
    requires j < |names|
    ensures GroupOf(canonical, names[..j + 1]) == GroupOf(canonical, names[..j]) + [(names[j], canonical)]
  {
  }

  /** The items of the groups, cut inside group `i` after its first `j` aliases. */
  lemma GroupItemsSplit(groups: seq<(string, seq<string>)>, i: nat, j: nat)
    requires i < |groups| && j <= |groups[i].1|
    ensures GroupItems(groups) ==
      (GroupItems(groups[..i]) + GroupOf(groups[i].0, groups[i].1[..j]))
      + (GroupOf(groups[i].0, groups[i].1[j..]) + GroupItems(groups[i + 1..]))
  {
    var g := groups[i];
    var rest := groups[i + 1..];
    assert groups == groups[..i] + ([g] + rest);
    GroupItemsAppend(groups[..i], [g] + rest);
    assert ([g] + rest)[1..] == rest;
    assert GroupItems([g] + rest) == GroupOf(g.0, g.1) + GroupItems(rest);
    GroupOfSplit(g.0, g.1, j);
  }

  lemma GroupItemsNext(groups: seq<(string, seq<string>)>, i: nat)
    requires i < |groups|
    ensures GroupItems(groups[..i + 1]) == GroupItems(groups[..i]) + GroupOf(groups[i].0, groups[i].1[..|groups[i].1|])
  {
    GroupItemsSplit(groups[..i + 1], i, |groups[i].1|);
    assert groups[..i + 1][..i] == groups[..i] && groups[..i + 1][i + 1..] == [];
    assert groups[i].1[|groups[i].1|..] == [];
  }

  /** A failure inside group `i` ends `add_alias_groups` there. */
  lemma GroupStop(m0: map<string, string>, frozen: bool, groups: seq<(string, seq<string>)>, i: nat, j: nat,
                  overwrite: bool, added: seq<(string, string)>)
    requires i < |groups| && j < |groups[i].1|
    requires added == GroupItems(groups[..i]) + GroupOf(groups[i].0, groups[i].1[..j + 1])
    requires AddMany(m0, frozen, added, overwrite).outcome.Fail?
    ensures AddMany(m0, frozen, GroupItems(groups), overwrite) == AddMany(m0, frozen, added, overwrite)
  {
    GroupItemsSplit(groups, i, j + 1);
    AddManyStop(m0, frozen, added, GroupOf(groups[i].0, groups[i].1[j + 1..]) + GroupItems(groups[i + 1..]), overwrite);
  }

  lemma GroupOfSplit(canonical: string, names: seq<string>, j: nat)
    requires j <= |names|
    ensures GroupOf(canonical, names) == GroupOf(canonical, names[..j]) + GroupOf(canonical, names[j..])
  {
  }

  lemma {:induction false} GroupItemsAppend(xs: seq<(string, seq<string>)>, ys: seq<(string, seq<string>)>)
    ensures GroupItems(xs + ys) == GroupItems(xs) + GroupItems(ys)
    decreases |xs|
  {
    if xs == [] {
      assert xs + ys == ys;
    } else {
      assert (xs + ys)[0] == xs[0] && (xs + ys)[1..] == xs[1..] + ys;
      GroupItemsAppend(xs[1..], ys);
    }
  }

  // ------------------------------------------------------------------ rename planning, as values

  /** Whether some name in `names` has the same case-folded form as `name`. */
  predicate FoldedIn(name: string, names: seq<string>)
  {
    exists j :: 0 <= j < |names| && Normalize(names[j]) == Normalize(name)
  }

  /**
   * A rename entry collides when its target already names a column (in any
   * casing) and the entry actually changes the label.
   */
  predicate Collides(entry: (string, string), names: seq<string>)
  {
    FoldedIn(entry.1, names) && entry.0 != entry.1
  }

  /**
   * The rename map of `to_canonical`, built over the column names in order:
   * every column whose folded form is registered maps to its canonical name.
   */
  function RenameMapFor(m: map<string, string>, names: seq<string>): (d: Entries)
    ensures DistinctKeys(d)
    ensures Keys(d) == set n | n in names && Normalize(n) in m
    ensures forall e :: e in d ==> Normalize(e.0) in m && e.1 == m[Normalize(e.0)]
    decreases |names|
  {
    if names == [] then []
    else
      var prefix := names[..|names| - 1];
      var n := names[|names| - 1];
      assert names == prefix + [n];
      var d := RenameMapFor(m, prefix);
      if Normalize(n) in m then Put(d, n, m[Normalize(n)]) else d
  }

  /** The aliases of the rename map whose renaming would collide, in the map's order. */
  function Collisions(d: Entries, names: seq<string>): (c: seq<string>)
    ensures forall e :: e in d && Collides(e, names) ==> e.0 in c
    ensures forall a :: a in c ==> exists e :: e in d && e.0 == a && Collides(e, names)
    decreases |d|
  {
    if d == [] then []
    else
      var rest := Collisions(d[1..], names);
      assert forall e :: e in d[1..] ==> e in d;
      (if Collides(d[0], names) then [d[0].0] else []) + rest
  }

  function SetOf(s: seq<string>): set<string>
  {
    set x | x in s
  }

  /**
   * What `to_canonical` decides for a table with these column labels: the
   * rename map it applies (pruned of colliding entries when asked to), or
   * the error it raises.
   */
  function RenamePlan(m: map<string, string>, columns: seq<Label>, dropConflicts: bool)
    : (r: Result<Entries, Error>)
    ensures r == Failure(NonStringLabelError) <==> !AllStrings(columns)
    ensures r.Failure? && AllStrings(columns) ==> !dropConflicts && r.error.CollisionError?
  {
    if !AllStrings(columns) then Failure(NonStringLabelError)
    else
      var names := Names(columns);
      var d := RenameMapFor(m, names);
      var c := Collisions(d, names);
      if c == [] then Success(d)
      else if dropConflicts then Success(Drop(d, SetOf(c)))
      else Failure(CollisionError(c))
  }

  /** A registered column name is a key of the rename map, mapped to its canonical name. */
  lemma RenameMapForHas(m: map<string, string>, names: seq<string>, n: string)
    requires n in names && Normalize(n) in m
    ensures (n, m[Normalize(n)]) in RenameMapFor(m, names)
  {
    var d := RenameMapFor(m, names);
    assert n in Keys(d);
    var i :| 0 <= i < |d| && d[i].0 == n;
    assert d[i] in d;
  }

  /**
   * The rename map `to_canonical` applies never collides, renames only
   * registered columns to their canonical names, and leaves out only
   * colliding entries.
   */
  lemma PlanApplied(m: map<string, string>, columns: seq<Label>, dropConflicts: bool)
    requires RenamePlan(m, columns, dropConflicts).Success?
    ensures var d := RenamePlan(m, columns, dropConflicts).value;
      && DistinctKeys(d)
      && (forall e :: e in d ==> Str(e.0) in columns && Normalize(e.0) in m && e.1 == m[Normalize(e.0)])
      && (forall e :: e in d ==> !Collides(e, Names(columns)))
      && (forall n :: n in Names(columns) && Normalize(n) in m && !Collides((n, m[Normalize(n)]), Names(columns))
            ==> (n, m[Normalize(n)]) in d)
  {
    var names := Names(columns);
    var full := RenameMapFor(m, names);
    var c := Collisions(full, names);
    var d := RenamePlan(m, columns, dropConflicts).value;
    forall n | n in names ensures Str(n) in columns {
      var i :| 0 <= i < |names| && names[i] == n;
      assert columns[i] == Str(n);
    }
    forall n | n in names && Normalize(n) in m && !Collides((n, m[Normalize(n)]), names)
      ensures (n, m[Normalize(n)]) in d
    {
      RenameMapForHas(m, names, n);
    }
    forall e | e in d ensures Str(e.0) in columns {
      assert e in full;
      var i :| 0 <= i < |full| && full[i] == e;
      assert e.0 in Keys(full);
    }
    if c != [] {
      DropDistinct(full, SetOf(c));
    }
  }

  /** Collision detection and refusal: without `drop_conflicts` the plan fails exactly when an entry collides. */
  lemma PlanRefusesCollisions(m: map<string, string>, columns: seq<Label>)
    requires AllStrings(columns)
    ensures RenamePlan(m, columns, false).Failure? <==>
      exists n :: n in Names(columns) && Normalize(n) in m && Collides((n, m[Normalize(n)]), Names(columns))
  {
    var names := Names(columns);
    var full := RenameMapFor(m, names);
    var c := Collisions(full, names);
    if c != [] {
      assert c[0] in c;
      var e :| e in full && e.0 == c[0] && Collides(e, names);
      assert e.0 in Keys(full);
    } else {
      forall n | n in names && Normalize(n) in m ensures !Collides((n, m[Normalize(n)]), names) {
        RenameMapForHas(m, names, n);
      }
    }
  }

  /** `rename_map.pop(a, None)` for each colliding alias `a`, in order. */
  method PopAll(renameMap: Entries, collisions: seq<string>) returns (pruned: Entries)
    ensures pruned == Drop(renameMap, SetOf(collisions))
    ensures Keys(pruned) == Keys(renameMap) - SetOf(collisions)
  {
    pruned := renameMap;
    assert SetOf(collisions[..0]) == {};
    DropNone(renameMap);
    var i := 0;
    while i < |collisions|
      invariant 0 <= i <= |collisions|
      invariant pruned == Drop(renameMap, SetOf(collisions[..i]))
    {
      assert SetOf(collisions[..i + 1]) == SetOf(collisions[..i]) + {collisions[i]} by {
        assert collisions[..i + 1] == collisions[..i] + [collisions[i]];
      }
      DropDrop(renameMap, SetOf(collisions[..i]), collisions[i]);
      pruned := Drop(pruned, {collisions[i]});
      i := i + 1;
    }
    assert collisions[..i] == collisions;
    DropKeys(renameMap, SetOf(collisions));
  }

  // ------------------------------------------------------------------ the registry object

  class ColumnAliasManager {
    /** Case-folded alias to canonical name. */
    var aliases: map<string, string>
    /** Once set, every mutator fails. */
    var frozen: bool

    ghost predicate Valid()
      reads this
    {
      KeysFolded(aliases)
    }

    /** `__init__` without an initial mapping. */
    constructor (frozen: bool)
      ensures Valid()
      ensures aliases == map[] && this.frozen == frozen
    {
      aliases := map[];
      this.frozen := frozen;
    }

    /** `_check_frozen`. */
    method CheckFrozen() returns (o: Outcome<Error>)
      ensures o == if frozen then Fail(FrozenError) else Pass
    {
      o := if frozen then Fail(FrozenError) else Pass;
    }

    /** `add_alias`: registers `alias` (case-folded) for `canonical`. */
    method AddAlias(alias: string, canonical: string, overwrite: bool) returns (o: Outcome<Error>)
      requires Valid()
      modifies this
      ensures Valid() && frozen == old(frozen)
      ensures match AddAliasTo(old(aliases), old(frozen), alias, canonical, overwrite)
              case Success(m) => o == Pass && aliases == m
              case Failure(e) => o == Fail(e) && aliases == old(aliases)
    {
      o := CheckFrozen();
      if o.Fail? {
        return;
      }
      var key := Normalize(alias);
      if !overwrite && key in aliases && aliases[key] != canonical {
        o := Fail(ConflictError(alias, aliases[key]));
        return;
      }
      NormalizeIdempotent(alias);
      aliases := aliases[key := canonical];
    }

    /** `add_aliases`: `add_alias` for each item in order, stopping at the first failure. */
    method AddAliases(items: seq<(string, string)>, overwrite: bool) returns (o: Outcome<Error>)
      requires Valid()
      modifies this
      ensures Valid() && frozen == old(frozen)
      ensures Applied(aliases, o) == AddMany(old(aliases), old(frozen), items, overwrite)
    {
      o := Pass;
      var i := 0;
      while i < |items|
        invariant 0 <= i <= |items|
        invariant Valid() && frozen == old(frozen)
        invariant AddMany(old(aliases), frozen, items[..i], overwrite) == Applied(aliases, Pass)
        invariant o == Pass
      {
        ghost var before := aliases;
        o := AddAlias(items[i].0, items[i].1, overwrite);
        AddManyStep(old(aliases), frozen, items[..i], items[i], overwrite, before);
        assert items[..i + 1] == items[..i] + [items[i]];
        if o.Fail? {
          AddManyStop(old(aliases), frozen, items[..i + 1], items[i + 1..], overwrite);
          assert items[..i + 1] + items[i + 1..] == items;
          return;
        }
        i := i + 1;
      }
      assert items[..i] == items;
    }

    /** `add_alias_groups`: `add_alias(alias, canonical)` for each canonical name and each of its aliases. */
    method AddAliasGroups(groups: seq<(string, seq<string>)>, overwrite: bool) returns (o: Outcome<Error>)
      requires Valid()
      modifies this
      ensures Valid() && frozen == old(frozen)
      ensures Applied(aliases, o) == AddMany(old(aliases), old(frozen), GroupItems(groups), overwrite)
    {
      o := Pass;
      ghost var added: seq<(string, string)> := [];  // the items added so far
      var i := 0;
      while i < |groups|
        invariant 0 <= i <= |groups|
        invariant Valid() && frozen == old(frozen) && o == Pass
        invariant added == GroupItems(groups[..i])
        invariant AddMany(old(aliases), frozen, added, overwrite) == Applied(aliases, Pass)
      {
        var canonical, names := groups[i].0, groups[i].1;
        var j := 0;
        while j < |names|
          invariant 0 <= j <= |names|
          invariant Valid() && frozen == old(frozen) && o == Pass
          invariant added == GroupItems(groups[..i]) + GroupOf(canonical, names[..j])
          invariant AddMany(old(aliases), frozen, added, overwrite) == Applied(aliases, Pass)
        {
          ghost var before := aliases;
          o := AddAlias(names[j], canonical, overwrite);
          AddManyStep(old(aliases), frozen, added, (names[j], canonical), overwrite, before);
          added := added + [(names[j], canonical)];
          GroupOfSnoc(canonical, names, j);
          if o.Fail? {
            GroupStop(old(aliases), frozen, groups, i, j, overwrite, added);
            return;
          }
          j := j + 1;
        }
        GroupItemsNext(groups, i);
        i := i + 1;
      }
      assert groups[..i] == groups;
    }

    /** `remove_alias`: forgets the folded alias; removing an absent alias is not an error. */
    method RemoveAlias(alias: string) returns (o: Outcome<Error>)
      requires Valid()
      modifies this
      ensures Valid() && frozen == old(frozen)
      ensures old(frozen) ==> o == Fail(FrozenError) && aliases == old(aliases)
      ensures !old(frozen) ==> o == Pass && aliases == old(aliases) - {Normalize(alias)}
      ensures Normalize(alias) !in old(aliases) ==> aliases == old(aliases)
      ensures !old(frozen) ==> forall b :: Normalize(b) == Normalize(alias) ==> Canonical(aliases, b) == b
    {
      o := CheckFrozen();
      if o.Fail? {
        return;
      }
      aliases := aliases - {Normalize(alias)};
    }

    /** `clear`: forgets every alias. */
    method Clear() returns (o: Outcome<Error>)
      requires Valid()
      modifies this
      ensures Valid() && frozen == old(frozen)
      ensures old(frozen) ==> o == Fail(FrozenError) && aliases == old(aliases)
      ensures !old(frozen) ==> o == Pass && aliases == map[]
      ensures !old(frozen) ==> forall b :: !Contains(aliases, b) && Canonical(aliases, b) == b
    {
      o := CheckFrozen();
      if o.Fail? {
        return;
      }
      aliases := map[];
    }

    /** `freeze`: makes the registry immutable for good; never fails and may be repeated. */
    method Freeze()
      requires Valid()
      modifies this
      ensures Valid() && frozen
      ensures aliases == old(aliases)
    {
      frozen := true;
    }

    /**
     * `to_canonical`: renames the table's aliased columns to their canonical
     * names, refusing (or with `dropConflicts` pruning) renames that would
     * collide, and records the applied map in the table's metadata.
     */
    method ToCanonical(df: DataFrame, inplace: bool, dropConflicts: bool, remember: bool)
      returns (r: Result<DataFrame, Error>)
      modifies df
      ensures match RenamePlan(aliases, old(df.columns), dropConflicts)
        case Failure(e) =>
          r == Failure(e) && df.columns == old(df.columns) && df.attrs == old(df.attrs)
        case Success(d) =>
          && r.Success?
          && (inplace ==> r.value == df)
          && (!inplace ==> fresh(r.value) && df.columns == old(df.columns) && df.attrs == old(df.attrs))
          && r.value.columns == RenameLabels(old(df.columns), ToMap(d))
          && r.value.attrs == if remember then old(df.attrs)[ATTR_KEY := d] else old(df.attrs)
    {
      var target := df;
      if !inplace {
        target := df.Copy();
      }
      if !AllStrings(df.columns) {
        return Failure(NonStringLabelError);
      }
      var names := Names(df.columns);
      var renameMap := RenameMapFor(aliases, names);
      var collisions := Collisions(renameMap, names);
      if collisions != [] {
        if dropConflicts {
          renameMap := PopAll(renameMap, collisions);
        } else {
          return Failure(CollisionError(collisions));
        }
      }
      target.Rename(ToMap(renameMap));
      if remember {
        target.attrs := target.attrs[ATTR_KEY := renameMap];
      }
      r := Success(target);
    }

    /**
     * `restore_aliases`: renames the columns back through the inverted rename
     * record; without a record it fails when `strict`, and otherwise leaves
     * the columns as they are.
     */
    method RestoreAliases(df: DataFrame, inplace: bool, strict: bool) returns (r: Result<DataFrame, Error>)
      modifies df
      ensures ATTR_KEY !in old(df.attrs) && strict ==>
        r == Failure(MissingRecordError) && df.columns == old(df.columns) && df.attrs == old(df.attrs)
      ensures ATTR_KEY in old(df.attrs) || !strict ==>
        && r.Success?
        && (inplace ==> r.value == df)
        && (!inplace ==> fresh(r.value) && df.columns == old(df.columns) && df.attrs == old(df.attrs))
        && r.value.attrs == old(df.attrs)
        && r.value.columns == if ATTR_KEY in old(df.attrs)
                              then RenameLabels(old(df.columns), Inverse(old(df.attrs)[ATTR_KEY]))
                              else old(df.columns)
    {
      var target := df;
      if !inplace {
        target := df.Copy();
      }
      if ATTR_KEY !in target.attrs {
        if strict {
          return Failure(MissingRecordError);
        }
        return Success(target);
      }
      var record := target.attrs[ATTR_KEY];
      target.Rename(Inverse(record));
      r := Success(target);
    }
  }

  /**
   * `__init__` with an initial mapping: a registry built through `add_aliases`,
   * so a conflicting mapping, or any mapping given together with
   * `frozen`, makes construction fail. `from_json` constructs this way.
   */
  method NewManager(mapping: seq<(string, string)>, frozen: bool) returns (r: Result<ColumnAliasManager, Error>)
    ensures var added := AddMany(map[], frozen, mapping, false);
      if added.outcome.Pass?
      then r.Success? && fresh(r.value) && r.value.Valid() && r.value.aliases == added.aliases && r.value.frozen == frozen
      else r == Failure(added.outcome.error)
  {
    var manager := new ColumnAliasManager(frozen);
    if |mapping| > 0 {
      var o := manager.AddAliases(mapping, false);
      if o.Fail? {
        return Failure(o.error);
      }
    }
    r := Success(manager);
  }
}
