/**
 * Insertion-ordered dictionaries from strings to strings, as Python's `dict`
 * behaves: assigning an existing key keeps its position, `pop` removes it,
 * and building a dictionary from pairs lets the last pair for a key win.
 * The rename record that the alias manager stores on a table is one of these.
 */
module OrderedDicts {

  /** The items of a dictionary, in insertion order. */
  type Entries = seq<(string, string)>

  function Keys(d: Entries): set<string>
  {
    set i | 0 <= i < |d| :: d[i].0
  }

  predicate DistinctKeys(d: Entries)
  {
    forall i, j :: 0 <= i < j < |d| ==> d[i].0 != d[j].0
  }

  predicate DistinctValues(d: Entries)
  {
    forall i, j :: 0 <= i < j < |d| ==> d[i].1 != d[j].1
  }

  /**
   * The mapping a list of pairs denotes when a dictionary is built from it
   * (`dict(pairs)` or a comprehension): a later pair overrides an earlier one.
   */
  function ToMap(d: Entries): (m: map<string, string>)
    ensures m.Keys == Keys(d)
    ensures DistinctKeys(d) ==> forall i :: 0 <= i < |d| ==> m[d[i].0] == d[i].1
    decreases |d|
  {
    if d == [] then map[]
    else
      var rest := ToMap(d[1..]);
      KeysCons(d);
      var m := map[d[0].0 := d[0].1] + rest;
      assert DistinctKeys(d) ==> forall i :: 0 <= i < |d| ==> m[d[i].0] == d[i].1 by {
        if DistinctKeys(d) {
          TailDistinct(d);
          forall i | 0 <= i < |d| ensures m[d[i].0] == d[i].1 {
            if i > 0 {
              assert rest[d[1..][i - 1].0] == d[i].1;
            }
          }
        }
      }
      m
  }

  /** The items with key and value swapped. */
  function Swapped(d: Entries): (r: Entries)
    ensures |r| == |d|
    ensures forall i :: 0 <= i < |d| ==> r[i] == (d[i].1, d[i].0)
  {
    seq(|d|, i requires 0 <= i < |d| => (d[i].1, d[i].0))
  }

  /**
   * `{v: k for k, v in d.items()}`: every value maps back to a key holding
   * it, the last such key when several do. Without shared values it is the
   * exact inverse of the dictionary.
   */
  function Inverse(d: Entries): (inv: map<string, string>)
    ensures inv.Keys == set i | 0 <= i < |d| :: d[i].1
    ensures forall v :: v in inv ==> exists i :: 0 <= i < |d| && d[i] == (inv[v], v)
    ensures DistinctValues(d) ==> forall i :: 0 <= i < |d| ==> inv[d[i].1] == d[i].0
  {
    var s := Swapped(d);
    assert Keys(s) == set i | 0 <= i < |d| :: d[i].1;
    var inv := ToMap(s);
    assert forall v :: v in inv ==> exists i :: 0 <= i < |d| && d[i] == (inv[v], v) by {
      forall v | v in inv ensures exists i :: 0 <= i < |d| && d[i] == (inv[v], v) {
        InverseWitness(d, v);
      }
    }
    inv
  }

  lemma {:induction false} InverseWitness(d: Entries, v: string)
    requires v in ToMap(Swapped(d))
    ensures exists i :: 0 <= i < |d| && d[i] == (ToMap(Swapped(d))[v], v)
    decreases |d|
  {
    var s := Swapped(d);
    assert s[1..] == Swapped(d[1..]);
    var rest := ToMap(s[1..]);
    assert ToMap(s) == map[s[0].0 := s[0].1] + rest;
    if v in rest {
      InverseWitness(d[1..], v);
      var i :| 0 <= i < |d[1..]| && d[1..][i] == (rest[v], v);
      assert d[i + 1] == (ToMap(s)[v], v);
    } else {
      KeysCons(s);
      assert v == s[0].0;
      assert d[0] == (ToMap(s)[v], v);
    }
  }

  /** `d[k] = v`: an existing key keeps its position and takes the new value; a new key goes last. */
  function Put(d: Entries, k: string, v: string): (r: Entries)
    ensures Keys(r) == Keys(d) + {k}
    ensures DistinctKeys(d) ==> DistinctKeys(r)
    ensures forall i :: 0 <= i < |r| ==> r[i] in d || r[i] == (k, v)
    ensures (k, v) in r
    decreases |d|
  {
    if d == [] then
      assert Keys([(k, v)]) == {k} by { KeysCons([(k, v)]); }
      [(k, v)]
    else if d[0].0 == k then
      assert Keys(d) == {k} + Keys(d[1..]) by { KeysCons(d); }
      assert Keys([(k, v)] + d[1..]) == {k} + Keys(d[1..]) by { KeysCons([(k, v)] + d[1..]); assert ([(k, v)] + d[1..])[1..] == d[1..]; }
      assert DistinctKeys(d) ==> DistinctKeys([(k, v)] + d[1..]) by {
        if DistinctKeys(d) {
          TailDistinct(d);
          forall e | e in d[1..] ensures e.0 != k { InKeys(d[1..], e); }
          ConsDistinct((k, v), d[1..]);
        }
      }
      [(k, v)] + d[1..]
    else
      var tail := Put(d[1..], k, v);
      var r := [d[0]] + tail;
      assert Keys(d) == {d[0].0} + Keys(d[1..]) by { KeysCons(d); }
      assert Keys(r) == {d[0].0} + Keys(tail) by { KeysCons(r); assert r[1..] == tail; }
      assert DistinctKeys(d) ==> DistinctKeys(r) by {
        if DistinctKeys(d) {
          TailDistinct(d);
          forall e | e in tail ensures e.0 != d[0].0 { InKeys(tail, e); }
          ConsDistinct(d[0], tail);
        }
      }
      assert forall i :: 0 <= i < |r| ==> r[i] in d || r[i] == (k, v) by {
        forall i | 0 <= i < |r| ensures r[i] in d || r[i] == (k, v) {
          if i > 0 {
            assert r[i] == tail[i - 1];
            assert tail[i - 1] in d[1..] ==> tail[i - 1] in d;
          }
        }
      }
      assert (k, v) in tail;
      r
  }

  /** Without the head, the keys stay distinct and the head's key is no longer among them. */
  lemma TailDistinct(d: Entries)
    requires d != [] && DistinctKeys(d)
    ensures DistinctKeys(d[1..]) && d[0].0 !in Keys(d[1..])
    ensures forall i :: 1 <= i < |d| ==> d[1..][i - 1] == d[i]
  {
  }

  lemma KeysCons(d: Entries)
    requires d != []
    ensures Keys(d) == {d[0].0} + Keys(d[1..])
  {
    forall k | k in Keys(d) ensures k in {d[0].0} + Keys(d[1..]) {
      var i :| 0 <= i < |d| && d[i].0 == k;
      if i > 0 { assert d[1..][i - 1] == d[i]; }
    }
    forall k | k in Keys(d[1..]) ensures k in Keys(d) {
      var i :| 0 <= i < |d[1..]| && d[1..][i].0 == k;
      assert d[i + 1].0 == k;
    }
  }

  /** The items whose key is not in `ks`, in their original order (`d.pop(k)` for each `k` in `ks`). */
  function Drop(d: Entries, ks: set<string>): (r: Entries)
    ensures forall e :: e in r ==> e in d && e.0 !in ks
    ensures forall e :: e in d && e.0 !in ks ==> e in r
    decreases |d|
  {
    if d == [] then []
    else if d[0].0 in ks then Drop(d[1..], ks)
    else [d[0]] + Drop(d[1..], ks)
  }

  lemma {:induction false} DropDistinct(d: Entries, ks: set<string>)
    requires DistinctKeys(d)
    ensures DistinctKeys(Drop(d, ks))
    decreases |d|
  {
    if d != [] {
      TailDistinct(d);
      DropDistinct(d[1..], ks);
      if d[0].0 !in ks {
        var tail := Drop(d[1..], ks);
        forall e | e in tail ensures e.0 != d[0].0 {
          InKeys(d[1..], e);
        }
        ConsDistinct(d[0], tail);
      }
    }
  }

  /** The key of an item is a key of the dictionary. */
  lemma InKeys(d: Entries, e: (string, string))
    requires e in d
    ensures e.0 in Keys(d)
  {
    var i :| 0 <= i < |d| && d[i] == e;
  }

  /** Prepending an item whose key is new keeps the keys distinct. */
  lemma ConsDistinct(e: (string, string), t: Entries)
    requires DistinctKeys(t)
    requires forall x :: x in t ==> x.0 != e.0
    ensures DistinctKeys([e] + t)
  {
    var r := [e] + t;
    forall i, j | 0 <= i < j < |r| ensures r[i].0 != r[j].0 {
      assert r[j] == t[j - 1];
      if i > 0 {
        assert r[i] == t[i - 1];
      }
    }
  }

  /** Popping one more key after a filter is filtering by the larger key set. */
  lemma {:induction false} DropDrop(d: Entries, ks: set<string>, k: string)
    ensures Drop(Drop(d, ks), {k}) == Drop(d, ks + {k})
    decreases |d|
  {
    if d != [] {
      DropDrop(d[1..], ks, k);
      if d[0].0 !in ks {
        assert Drop(d, ks) == [d[0]] + Drop(d[1..], ks);
        assert ([d[0]] + Drop(d[1..], ks))[1..] == Drop(d[1..], ks);
      }
    }
  }

  lemma {:induction false} DropNone(d: Entries)
    ensures Drop(d, {}) == d
    decreases |d|
  {
    if d != [] {
      DropNone(d[1..]);
      assert d == [d[0]] + d[1..];
    }
  }

  lemma DropKeys(d: Entries, ks: set<string>)
    ensures Keys(Drop(d, ks)) == Keys(d) - ks
  {
    var r := Drop(d, ks);
    forall k | k in Keys(d) - ks ensures k in Keys(r) {
      var i :| 0 <= i < |d| && d[i].0 == k;
      assert d[i] in d;
      var j :| 0 <= j < |r| && r[j] == d[i];
    }
    forall k | k in Keys(r) ensures k in Keys(d) - ks {
      var j :| 0 <= j < |r| && r[j].0 == k;
      assert r[j] in r;
      var i :| 0 <= i < |d| && d[i] == r[j];
    }
  }
}
