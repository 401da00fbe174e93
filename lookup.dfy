/** What the controllers ask of the database beyond plain map access: a
    `findOne` by a condition, and an `ORDER BY` on one column. */
module Lookup {
  import opened Wrappers

  /** Every key of a table is an auto-increment id: positive and below the
      next id to be handed out. */
  ghost predicate IdsBelow<V>(m: map<nat, V>, next: nat) {
    && 0 < next
    && forall k :: k in m ==> 0 < k < next
  }

  /** A row inserted under the next id keeps the ids below the advanced counter. */
  lemma InsertKeepsIdsBelow<V>(m: map<nat, V>, next: nat, v: V)
    requires IdsBelow(m, next)
    ensures next !in m && IdsBelow(m[next := v], next + 1)
  {
  }

  /** The smallest key at or above `from` whose row satisfies `p`. */
  function FirstKeyFrom<V>(m: map<nat, V>, p: V -> bool, from: nat, next: nat): (k: Option<nat>)
    requires IdsBelow(m, next)
    ensures k.Some? ==> from <= k.value && k.value in m && p(m[k.value])
    ensures k.Some? ==> forall j :: j in m && from <= j < k.value ==> !p(m[j])
    ensures k.None? ==> forall j :: j in m && from <= j ==> !p(m[j])
    decreases next - from
  {
    if from >= next then None
    else if from in m && p(m[from]) then Some(from)
    else FirstKeyFrom(m, p, from + 1, next)
  }

  /** `Model.findOne({ where: p })`: some row matches exactly when a key is
      found, and the key found is that of the matching row with the smallest
      primary key. */
  function FindOne<V>(m: map<nat, V>, p: V -> bool, next: nat): (k: Option<nat>)
    requires IdsBelow(m, next)
    ensures k.Some? <==> exists j :: j in m && p(m[j])
    ensures k.Some? ==> k.value in m && p(m[k.value])
    ensures k.Some? ==> forall j :: j in m && j < k.value ==> !p(m[j])
  {
    FirstKeyFrom(m, p, 0, next)
  }

  /** No two rows of the table agree on `key`: what a find-then-update-or-create
      upsert keeps. */
  ghost predicate UniqueBy<V, K>(m: map<nat, V>, key: V -> K) {
    forall a, b {:trigger key(m[a]), key(m[b])} :: a in m && b in m && a != b ==> key(m[a]) != key(m[b])
  }

  /** Updating a row without changing its key keeps the keys unique. */
  lemma UpdateKeepsUnique<V, K>(m: map<nat, V>, key: V -> K, k: nat, v: V)
    requires UniqueBy(m, key) && k in m && key(v) == key(m[k])
    ensures UniqueBy(m[k := v], key)
  {
  }

  /** Rewriting rows without changing their keys keeps the keys unique. */
  lemma SameKeysKeepUnique<V, K>(m: map<nat, V>, m': map<nat, V>, key: V -> K)
    requires UniqueBy(m, key) && m'.Keys == m.Keys
    requires forall k :: k in m ==> key(m'[k]) == key(m[k])
    ensures UniqueBy(m', key)
  {
    forall a, b | a in m' && b in m' && a != b ensures key(m'[a]) != key(m'[b]) {
      assert key(m[a]) != key(m[b]);
    }
  }

  /** Inserting a row whose key no row has keeps the keys unique. */
  lemma InsertKeepsUnique<V, K>(m: map<nat, V>, key: V -> K, k: nat, v: V)
    requires UniqueBy(m, key) && k !in m
    requires forall j :: j in m ==> key(m[j]) != key(v)
    ensures UniqueBy(m[k := v], key)
  {
  }
}

/** `ORDER BY` on one integer column, over the ids of the selected rows. */
module Ordering {

  /** `ids` is in ascending order of `key` (rows with equal keys in any order). */
  ghost predicate SortedBy(ids: seq<nat>, key: map<nat, int>) {
    forall i, j :: 0 <= i < j < |ids| && ids[i] in key && ids[j] in key ==> key[ids[i]] <= key[ids[j]]
  }

  /** No id is listed twice. */
  predicate Distinct(ids: seq<nat>) {
    forall i, j :: 0 <= i < j < |ids| ==> ids[i] != ids[j]
  }

  /** A sequence headed by `h` is in order when its tail is and `h` comes
      no later than any of it. */
  lemma SortedCons(h: nat, t: seq<nat>, key: map<nat, int>)
    requires h in key && SortedBy(t, key)
    requires forall y :: y in t && y in key ==> key[h] <= key[y]
    ensures SortedBy([h] + t, key)
  {
    var s := [h] + t;
    forall i, j | 0 <= i < j < |s| && s[i] in key && s[j] in key ensures key[s[i]] <= key[s[j]] {
      if i > 0 {
        assert s[i] == t[i - 1] && s[j] == t[j - 1];
      } else {
        assert s[j] == t[j - 1];
      }
    }
  }

  /** A sequence headed by `h` lists no id twice exactly when its tail does
      not and `h` is not in it. */
  lemma DistinctCons(h: nat, t: seq<nat>)
    ensures Distinct([h] + t) <==> h !in t && Distinct(t)
  {
    var s := [h] + t;
    if Distinct(s) {
      forall i, j | 0 <= i < j < |t| ensures t[i] != t[j] {
        assert t[i] == s[i + 1] && t[j] == s[j + 1];
      }
      forall i | 0 <= i < |t| ensures t[i] != h {
        assert t[i] == s[i + 1] && h == s[0];
      }
    }
    if h !in t && Distinct(t) {
      forall i, j | 0 <= i < j < |s| ensures s[i] != s[j] {
        assert s[j] == t[j - 1];
        if i > 0 {
          assert s[i] == t[i - 1];
        }
      }
    }
  }

  /** Insert `x` into an ascending sequence. */
  function Insert(ids: seq<nat>, x: nat, key: map<nat, int>): (r: seq<nat>)
    requires x in key && forall y :: y in ids ==> y in key
    requires SortedBy(ids, key)
    ensures |r| == |ids| + 1
    ensures forall y :: y in r <==> y in ids || y == x
    ensures SortedBy(r, key)
    ensures Distinct(ids) && x !in ids ==> Distinct(r)
  {
    if ids == [] then [x]
    else if key[x] <= key[ids[0]] then
      assert forall y :: y in ids ==> key[x] <= key[y] by {
        forall y | y in ids ensures key[x] <= key[y] {
          var i :| 0 <= i < |ids| && ids[i] == y;
          assert i == 0 || key[ids[0]] <= key[ids[i]];
        }
      }
      SortedCons(x, ids, key);
      DistinctCons(x, ids);
      [x] + ids
    else
      var t := ids[1..];
      assert ids == [ids[0]] + t;
      assert SortedBy(t, key) by {
        forall i, j | 0 <= i < j < |t| && t[i] in key && t[j] in key ensures key[t[i]] <= key[t[j]] {
          assert t[i] == ids[i + 1] && t[j] == ids[j + 1];
        }
      }
      assert forall y :: y in t ==> key[ids[0]] <= key[y] by {
        forall y | y in t ensures key[ids[0]] <= key[y] {
          var i :| 0 <= i < |t| && t[i] == y;
          assert t[i] == ids[i + 1];
        }
      }
      var rest := Insert(t, x, key);
      SortedCons(ids[0], rest, key);
      DistinctCons(ids[0], t);
      DistinctCons(ids[0], rest);
      [ids[0]] + rest
  }

  /** The rows `items` listed once each, in ascending order of `key`. */
  method SortByKey(items: set<nat>, key: map<nat, int>) returns (r: seq<nat>)
    requires items <= key.Keys
    ensures forall y :: y in r <==> y in items
    ensures Distinct(r)
    ensures SortedBy(r, key)
  {
    r := [];
    var rest := items;
    while rest != {}
      invariant rest <= items
      invariant forall y :: y in r <==> y in items && y !in rest
      invariant Distinct(r)
      invariant SortedBy(r, key)
      decreases rest
    {
      var x :| x in rest;
      r := Insert(r, x, key);
      rest := rest - {x};
    }
  }

  /** `Model.findAll({ where: p, order: [[f, 'ASC']] })`: the ids of the rows
      satisfying `p`, each once, in ascending order of `f`. */
  method FindAllOrdered<V>(m: map<nat, V>, p: V -> bool, f: V -> int) returns (r: seq<nat>)
    ensures forall i :: 0 <= i < |r| ==> r[i] in m && p(m[r[i]])
    ensures forall k :: k in m && p(m[k]) ==> k in r
    ensures Distinct(r)
    ensures forall i, j :: 0 <= i < j < |r| ==> f(m[r[i]]) <= f(m[r[j]])
  {
    var items := set k | k in m && p(m[k]);
    var key := map k | k in items :: f(m[k]);
    r := SortByKey(items, key);
    forall i | 0 <= i < |r|
      ensures r[i] in m && p(m[r[i]])
    {
      assert r[i] in r;
    }
  }
}
