/**
 * Laws relating the alias manager's operations: rename followed by
 * restore, rename agreeing with `resolve`, reloading a registry from its
 * own entries, and the worked scenarios of the component's documentation.
 */
module AliasLaws {
  import opened Wrappers
  import opened Casefold
  import opened OrderedDicts
  import opened Frames
  import opened AliasManager

  /** `canonical` ignores casing: registered names with the same folded form resolve alike. */
  lemma CanonicalCaseInsensitive(m: map<string, string>, x: string, y: string)
    requires Normalize(x) == Normalize(y) && Normalize(x) in m
    ensures Canonical(m, x) == Canonical(m, y)
  {
  }

  /** A renamed label maps back to its alias when no two aliases share a target. */
  lemma ForwardThenBack(d: Entries, x: string)
    requires DistinctKeys(d) && DistinctValues(d)
    requires x in Keys(d)
    ensures ToMap(d)[x] in Inverse(d) && Inverse(d)[ToMap(d)[x]] == x
  {
    var k :| 0 <= k < |d| && d[k].0 == x;
    assert ToMap(d)[x] == d[k].1;
  }

  /** A column the rename leaves alone is no rename target, unless the entry would have collided. */
  lemma UntouchedIsNoTarget(names: seq<string>, d: Entries, x: string)
    requires x in names && x !in Keys(d)
    requires forall e :: e in d ==> !Collides(e, names)
    ensures x !in Inverse(d)
  {
    assert forall k :: 0 <= k < |d| ==> d[k].1 != x by {
      forall k | 0 <= k < |d| ensures d[k].1 != x {
        assert d[k] in d && d[k].0 in Keys(d);
      }
    }
  }

  /** One label: renamed forward, then back through the inverted record. */
  lemma RestoreLabel(names: seq<string>, d: Entries, x: string)
    requires x in names
    requires DistinctKeys(d) && DistinctValues(d)
    requires forall e :: e in d ==> !Collides(e, names)
    ensures RenameLabel(RenameLabel(Str(x), ToMap(d)), Inverse(d)) == Str(x)
  {
    if x in Keys(d) {
      ForwardThenBack(d, x);
    } else {
      UntouchedIsNoTarget(names, d, x);
    }
  }

  /**
   * Restoring through the inverted record undoes a rename whose entries do
   * not collide and whose targets are pairwise distinct.
   */
  lemma RenameThenRestore(columns: seq<Label>, d: Entries)
    requires AllStrings(columns)
    requires DistinctKeys(d) && DistinctValues(d)
    requires forall e :: e in d ==> !Collides(e, Names(columns))
    ensures RenameLabels(RenameLabels(columns, ToMap(d)), Inverse(d)) == columns
  {
    var names := Names(columns);
    var renamed := RenameLabels(columns, ToMap(d));
    forall i | 0 <= i < |columns| ensures RenameLabel(renamed[i], Inverse(d)) == columns[i] {
      assert names[i] in names;
      RestoreLabel(names, d, names[i]);
    }
  }

  /**
   * The rename/restore round trip: when `to_canonical` succeeds and no two
   * renamed columns share a canonical name, `restore_aliases` brings back
   * the original column labels.
   */
  lemma ToCanonicalThenRestore(m: map<string, string>, columns: seq<Label>, dropConflicts: bool)
    requires RenamePlan(m, columns, dropConflicts).Success?
    requires DistinctValues(RenamePlan(m, columns, dropConflicts).value)
    ensures var d := RenamePlan(m, columns, dropConflicts).value;
      RenameLabels(RenameLabels(columns, ToMap(d)), Inverse(d)) == columns
  {
    PlanApplied(m, columns, dropConflicts);
    RenameThenRestore(columns, RenamePlan(m, columns, dropConflicts).value);
  }

  /**
   * If distinct registered columns resolve to distinct canonical names, the
   * applied rename map has distinct targets, so the round trip above holds.
   */
  lemma DistinctCanonicalsGiveDistinctTargets(m: map<string, string>, columns: seq<Label>, dropConflicts: bool)
    requires RenamePlan(m, columns, dropConflicts).Success?
    requires forall i, j ::
      (0 <= i < |columns| && 0 <= j < |columns| && columns[i] != columns[j]
       && columns[i].Str? && columns[j].Str?
       && Normalize(columns[i].name) in m && Normalize(columns[j].name) in m)
      ==> m[Normalize(columns[i].name)] != m[Normalize(columns[j].name)]
    ensures DistinctValues(RenamePlan(m, columns, dropConflicts).value)
  {
    var d := RenamePlan(m, columns, dropConflicts).value;
    PlanApplied(m, columns, dropConflicts);
    forall i, j | 0 <= i < j < |d| ensures d[i].1 != d[j].1 {
      assert d[i] in d && d[j] in d;
      var p :| 0 <= p < |columns| && columns[p] == Str(d[i].0);
      var q :| 0 <= q < |columns| && columns[q] == Str(d[j].0);
    }
  }

  /**
   * Without collisions, `to_canonical` renames the columns exactly as
   * `resolve` maps their labels.
   */
  lemma ToCanonicalAgreesWithResolve(m: map<string, string>, columns: seq<Label>, dropConflicts: bool)
    requires AllStrings(columns)
    requires Collisions(RenameMapFor(m, Names(columns)), Names(columns)) == []
    ensures RenamePlan(m, columns, dropConflicts) == Success(RenameMapFor(m, Names(columns)))
    ensures RenameLabels(columns, ToMap(RenameMapFor(m, Names(columns)))) == Resolve(m, Some(columns)).value
  {
    var names := Names(columns);
    var forward := ToMap(RenameMapFor(m, names));
    var resolved := Resolve(m, Some(columns)).value;
    var renamed := RenameLabels(columns, forward);
    forall i | 0 <= i < |columns| ensures renamed[i] == resolved[i] {
      assert names[i] in names;
      RenameAgreesAt(m, names, names[i]);
    }
  }

  /** One column name: the rename map sends it where `canonical` does. */
  lemma RenameAgreesAt(m: map<string, string>, names: seq<string>, x: string)
    requires x in names
    ensures RenameLabel(Str(x), ToMap(RenameMapFor(m, names))) == Str(Canonical(m, x))
  {
    var d := RenameMapFor(m, names);
    if Normalize(x) in m {
      RenameMapForHas(m, names, x);
      var k :| 0 <= k < |d| && d[k] == (x, m[Normalize(x)]);
      assert ToMap(d)[d[k].0] == d[k].1;
    } else {
      assert x !in Keys(d);
    }
  }

  /**
   * Adding items whose aliases are distinct, already folded and new to the
   * registry passes and registers exactly those items.
   */
  lemma {:induction false} AddFreshItems(acc: map<string, string>, items: Entries)
    requires DistinctKeys(items)
    requires forall i :: 0 <= i < |items| ==> Normalize(items[i].0) == items[i].0
    requires Keys(items) !! acc.Keys
    ensures AddMany(acc, false, items, false) == Applied(acc + ToMap(items), Pass)
    decreases |items|
  {
    if items != [] {
      var k, v := items[0].0, items[0].1;
      var tail := items[1..];
      TailFacts(items);
      assert AddAliasTo(acc, false, k, v, false) == Success(acc[k := v]);
      AddFreshItems(acc[k := v], tail);
      assert ToMap(items) == map[k := v] + ToMap(tail);
      UpdateThenUnion(acc, k, v, ToMap(tail));
    }
  }

  lemma UpdateThenUnion(acc: map<string, string>, k: string, v: string, t: map<string, string>)
    ensures acc[k := v] + t == acc + (map[k := v] + t)
  {
  }

  /** The tail of a list of distinct, folded items is such a list, without the head's key. */
  lemma TailFacts(items: Entries)
    requires items != []
    requires DistinctKeys(items)
    requires forall i :: 0 <= i < |items| ==> Normalize(items[i].0) == items[i].0
    ensures DistinctKeys(items[1..])
    ensures forall i :: 0 <= i < |items[1..]| ==> Normalize(items[1..][i].0) == items[1..][i].0
    ensures items[0].0 !in Keys(items[1..])
    ensures Keys(items) == {items[0].0} + Keys(items[1..])
  {
    var tail := items[1..];
    KeysCons(items);
    forall i, j | 0 <= i < j < |tail| ensures tail[i].0 != tail[j].0 {
      assert tail[i] == items[i + 1] && tail[j] == items[j + 1];
    }
    forall i | 0 <= i < |tail| ensures Normalize(tail[i].0) == tail[i].0 {
      assert tail[i] == items[i + 1];
    }
  }

  /**
   * `from_json(to_json(r))`: re-adding a registry's own entries, in any
   * order, to a new registry passes and rebuilds the same alias map, so
   * every name resolves as before.
   */
  lemma ReloadRoundTrip(m: map<string, string>, items: Entries)
    requires KeysFolded(m)
    requires DistinctKeys(items) && ToMap(items) == m
    ensures AddMany(map[], false, items, false) == Applied(m, Pass)
  {
    assert forall i :: 0 <= i < |items| ==> Normalize(items[i].0) == items[i].0 by {
      forall i | 0 <= i < |items| ensures Normalize(items[i].0) == items[i].0 {
        assert items[i].0 in Keys(items);
      }
    }
    AddFreshItems(map[], items);
    EmptyUnion(m);
  }

  lemma EmptyUnion(m: map<string, string>)
    ensures map[] + m == m
  {
  }

  // ------------------------------------------------------------------ worked scenarios

  /** A name without upper-case ASCII letters is its own folded form. */
  lemma NormalizeLower(s: string)
    requires forall i :: 0 <= i < |s| ==> !('A' <= s[i] <= 'Z')
    ensures Normalize(s) == s
  {
  }

  /** Putting a new key appends it. */
  lemma {:induction false} PutNew(d: Entries, k: string, v: string)
    requires k !in Keys(d)
    ensures Put(d, k, v) == d + [(k, v)]
    decreases |d|
  {
    if d != [] {
      assert d[0].0 in Keys(d);
      KeysCons(d);
      PutNew(d[1..], k, v);
      assert d == [d[0]] + d[1..];
    }
  }

  /** The rename map over two distinct registered column names lists both, in column order. */
  lemma RenameMapForTwo(m: map<string, string>, a: string, b: string)
    requires Normalize(a) in m && Normalize(b) in m && a != b
    ensures RenameMapFor(m, [a, b]) == [(a, m[Normalize(a)]), (b, m[Normalize(b)])]
  {
    assert [a, b][..1] == [a] && [a][..0] == [];
    assert RenameMapFor(m, []) == [];
    var d := RenameMapFor(m, [a]);
    assert d == Put([], a, m[Normalize(a)]);
    assert d == [(a, m[Normalize(a)])];
    assert Keys(d) == {a};
    PutNew(d, b, m[Normalize(b)]);
    assert RenameMapFor(m, [a, b]) == Put(d, b, m[Normalize(b)]);
  }

  /** Collisions of a two-entry map: the colliding aliases, in order. */
  lemma CollisionsTwo(e: (string, string), f: (string, string), names: seq<string>)
    ensures Collisions([e, f], names)
      == (if Collides(e, names) then [e.0] else []) + (if Collides(f, names) then [f.0] else [])
  {
    assert [e, f][1..] == [f] && [f][1..] == [];
    assert Collisions([f], names) == (if Collides(f, names) then [f.0] else []) + Collisions([], names);
  }

  /** Folded membership among two names. */
  lemma FoldedInTwo(x: string, a: string, b: string)
    ensures FoldedIn(x, [a, b]) <==> Normalize(a) == Normalize(x) || Normalize(b) == Normalize(x)
  {
    if Normalize(a) == Normalize(x) {
      assert [a, b][0] == a;
    } else if Normalize(b) == Normalize(x) {
      assert [a, b][1] == b;
    }
  }

  /** Renaming two labels. */
  lemma RenameTwo(x: Label, y: Label, mapping: map<string, string>)
    ensures RenameLabels([x, y], mapping) == [RenameLabel(x, mapping), RenameLabel(y, mapping)]
  {
  }

  /** The dictionary of two entries, the later one winning. */
  lemma ToMapTwo(a: string, x: string, b: string, y: string)
    ensures ToMap([(a, x), (b, y)]) == map[a := x][b := y]
  {
    assert [(a, x), (b, y)][1..] == [(b, y)] && [(b, y)][1..] == [];
  }

  /** The inverse of two entries: each target maps back to its alias, the later one winning. */
  lemma InverseTwo(a: string, x: string, b: string, y: string)
    ensures Inverse([(a, x), (b, y)]) == map[x := a][y := b]
  {
    assert Swapped([(a, x), (b, y)]) == [(x, a), (y, b)];
    ToMapTwo(x, a, y, b);
  }

  /** Renaming two distinct labels through their own two-entry record. */
  lemma ForwardTwo(a: string, x: string, b: string, y: string)
    requires a != b
    ensures RenameLabels([Str(a), Str(b)], ToMap([(a, x), (b, y)])) == [Str(x), Str(y)]
  {
    ToMapTwo(a, x, b, y);
    RenameTwo(Str(a), Str(b), map[a := x][b := y]);
  }

  /** Restoring two renamed labels: both aliases come back unless the targets coincide, when the later wins. */
  lemma RestoreTwo(a: string, x: string, b: string, y: string)
    ensures RenameLabels([Str(x), Str(y)], Inverse([(a, x), (b, y)]))
      == if x == y then [Str(b), Str(b)] else [Str(a), Str(b)]
  {
    InverseTwo(a, x, b, y);
    RenameTwo(Str(x), Str(y), map[x := a][y := b]);
  }

  /** The rename plan for two string columns that are both registered and collide with nothing. */
  lemma PlanTwo(m: map<string, string>, a: string, x: string, b: string, y: string, dropConflicts: bool)
    requires Normalize(a) in m && Normalize(b) in m && a != b
    requires m[Normalize(a)] == x && m[Normalize(b)] == y
    requires !Collides((a, x), [a, b]) && !Collides((b, y), [a, b])
    ensures RenamePlan(m, [Str(a), Str(b)], dropConflicts) == Success([(a, x), (b, y)])
  {
    assert Names([Str(a), Str(b)]) == [a, b];
    RenameMapForTwo(m, a, b);
    CollisionsTwo((a, m[Normalize(a)]), (b, m[Normalize(b)]), [a, b]);
  }

  /** Renaming `qty`, `amt` to `quantity`, `amount` records the map, and restoring brings the aliases back. */
  lemma RenameRestoreScenario()
    ensures var m := map["qty" := "quantity", "amt" := "amount"];
      var columns := [Str("qty"), Str("amt")];
      var record := [("qty", "quantity"), ("amt", "amount")];
      && RenamePlan(m, columns, false) == Success(record)
      && RenameLabels(columns, ToMap(record)) == [Str("quantity"), Str("amount")]
      && RenameLabels([Str("quantity"), Str("amount")], Inverse(record)) == columns
  {
    var m := map["qty" := "quantity", "amt" := "amount"];
    NormalizeLower("qty");
    NormalizeLower("amt");
    NormalizeLower("quantity");
    NormalizeLower("amount");
    FoldedInTwo("quantity", "qty", "amt");
    FoldedInTwo("amount", "qty", "amt");
    PlanTwo(m, "qty", "quantity", "amt", "amount", false);
    ForwardTwo("qty", "quantity", "amt", "amount");
    RestoreTwo("qty", "quantity", "amt", "amount");
  }

  /**
   * The rename plan for two string columns where only the first is
   * registered and its canonical name is the second column: a collision.
   */
  lemma PlanCollideTwo(m: map<string, string>, a: string, b: string, dropConflicts: bool)
    requires Normalize(a) in m && Normalize(b) !in m
    requires Normalize(m[Normalize(a)]) == Normalize(b) && m[Normalize(a)] != a
    ensures RenamePlan(m, [Str(a), Str(b)], dropConflicts)
      == if dropConflicts then Success([]) else Failure(CollisionError([a]))
  {
    var names := [a, b];
    assert Names([Str(a), Str(b)]) == names;
    var d := [(a, m[Normalize(a)])];
    assert RenameMapFor(m, names) == d by {
      assert names[..1] == [a] && [a][..0] == [];
      assert RenameMapFor(m, []) == [];
      assert RenameMapFor(m, [a]) == Put([], a, m[Normalize(a)]);
    }
    FoldedInTwo(m[Normalize(a)], a, b);
    assert Collisions(d, names) == [a] by {
      assert d[1..] == [];
    }
    assert SetOf([a]) == {a};
    assert Drop(d, {a}) == [] by {
      assert d[1..] == [];
    }
  }

  /**
   * With columns `qty` and `quantity` and `qty` registered for `quantity`,
   * the rename is refused, or with `drop_conflicts` applied as an empty map
   * that leaves the columns as they are.
   */
  lemma CollisionScenario()
    ensures var m := map["qty" := "quantity"];
      var columns := [Str("qty"), Str("quantity")];
      && RenamePlan(m, columns, false) == Failure(CollisionError(["qty"]))
      && RenamePlan(m, columns, true) == Success([])
      && RenameLabels(columns, ToMap([])) == columns
  {
    var m := map["qty" := "quantity"];
    NormalizeLower("qty");
    NormalizeLower("quantity");
    PlanCollideTwo(m, "qty", "quantity", false);
    PlanCollideTwo(m, "qty", "quantity", true);
    RenameTwo(Str("qty"), Str("quantity"), map[]);
  }

  /**
   * Re-registering `qty` for `count` conflicts without overwrite and
   * succeeds with it, after which `QTY` resolves to `count`.
   */
  lemma ConflictScenario()
    ensures var m := map["qty" := "quantity"];
      && AddAliasTo(map[], false, "qty", "quantity", false) == Success(m)
      && AddAliasTo(m, false, "qty", "count", false) == Failure(ConflictError("qty", "quantity"))
      && AddAliasTo(m, false, "qty", "count", true).Success?
      && Canonical(AddAliasTo(m, false, "qty", "count", true).value, "QTY") == "count"
  {
    assert Normalize("qty") == "qty";
    assert Normalize("QTY") == "qty";
  }

  /** `resolve(None)` is `None`, and `resolve(["Qty", 42])` is `["quantity", 42]`. */
  lemma ResolveScenario()
    ensures var m := map["qty" := "quantity"];
      && Resolve(m, None) == None
      && Resolve(m, Some([Str("Qty"), Other(42)])) == Some([Str("quantity"), Other(42)])
  {
    var m := map["qty" := "quantity"];
    var cols := [Str("Qty"), Other(42)];
    var r := Resolve(m, Some(cols)).value;
    assert Normalize("Qty") == "qty";
    assert r[0] == Str("quantity");
    assert r[1] == Other(42);
    assert r == [Str("quantity"), Other(42)];
  }

  /**
   * Two aliases of one canonical name both become that name, and restoring
   * maps both back to the later alias: the round trip needs distinct targets.
   */
  lemma SharedCanonicalDoesNotRestore()
    ensures var m := map["qty" := "quantity", "q" := "quantity"];
      var columns := [Str("qty"), Str("q")];
      var record := [("qty", "quantity"), ("q", "quantity")];
      && RenamePlan(m, columns, false) == Success(record)
      && RenameLabels(columns, ToMap(record)) == [Str("quantity"), Str("quantity")]
      && RenameLabels(RenameLabels(columns, ToMap(record)), Inverse(record)) == [Str("q"), Str("q")]
  {
    var m := map["qty" := "quantity", "q" := "quantity"];
    NormalizeLower("qty");
    NormalizeLower("q");
    NormalizeLower("quantity");
    FoldedInTwo("quantity", "qty", "q");
    PlanTwo(m, "qty", "quantity", "q", "quantity", false);
    ForwardTwo("qty", "quantity", "q", "quantity");
    RestoreTwo("qty", "quantity", "q", "quantity");
  }
}
