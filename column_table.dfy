/** The result of `calcular_FEVD_cholesky` (code/05_irf_fevd_analysis.py)
    is built as a Python dict from column name to column and then turned
    into a DataFrame, whose columns follow the dict's insertion order. This
    module models that dict and the nested loop that fills it: a grid of
    keys and a grid of columns, affected variable outer and cause inner.
    The key type is a parameter; the decomposition uses strings. */
module ColumnTable {
  import opened Common

  /** An insertion-ordered dict from key to column: the keys in insertion
      order, and the map from key to column. */
  datatype Table<K(!new)> = Table(order: seq<K>, data: map<K, seq<real>>)
  {
    /** Each key is listed once, and the listed keys are the map's keys. */
    ghost predicate Valid()
    {
      Distinct(order) && forall key :: key in data <==> key in order
    }
  }

  /** `d[key] = column` on a Python dict: the key maps to the new column,
      every other key keeps its column, an existing key keeps its position
      and a new key goes last. */
  function Put<K(==,!new)>(t: Table<K>, key: K, column: seq<real>): (r: Table<K>)
    ensures r.data.Keys == t.data.Keys + {key} && r.data[key] == column
    ensures forall k :: k in t.data && k != key ==> r.data[k] == t.data[k]
    ensures key in t.data ==> r.order == t.order
    ensures key !in t.data ==> r.order == t.order + [key]
  {
    Table(if key in t.data then t.order else t.order + [key], t.data[key := column])
  }

  /** Assignment keeps the dict well formed. */
  lemma PutKeepsValid<K(!new)>(t: Table<K>, key: K, column: seq<real>)
    requires t.Valid()
    ensures Put(t, key, column).Valid()
  {
  }

  /** `t` after `d[ks[b]] = cs[b]` for b = 0, 1, ... in turn. */
  function PutAll<K(==,!new)>(t: Table<K>, ks: seq<K>, cs: seq<seq<real>>): Table<K>
    requires |cs| == |ks|
  {
    if ks == [] then t
    else Put(PutAll(t, ks[..|ks| - 1], cs[..|cs| - 1]), ks[|ks| - 1], cs[|cs| - 1])
  }

  /** A run of assignments keeps the dict well formed. */
  lemma {:induction false} PutAllValid<K(!new)>(t: Table<K>, ks: seq<K>, cs: seq<seq<real>>)
    requires |cs| == |ks| && t.Valid()
    ensures PutAll(t, ks, cs).Valid()
  {
    if ks != [] {
      PutAllValid(t, ks[..|ks| - 1], cs[..|cs| - 1]);
      PutKeepsValid(PutAll(t, ks[..|ks| - 1], cs[..|cs| - 1]), ks[|ks| - 1], cs[|cs| - 1]);
    }
  }

  /** After a run of assignments the keys are those already present and
      those assigned, and no other. */
  lemma {:induction false} PutAllKeys<K(!new)>(t: Table<K>, ks: seq<K>, cs: seq<seq<real>>)
    requires |cs| == |ks|
    ensures forall key :: key in PutAll(t, ks, cs).data <==> key in t.data || key in ks
  {
    if ks != [] {
      PutAllKeys(t, ks[..|ks| - 1], cs[..|cs| - 1]);
      assert ks == ks[..|ks| - 1] + [ks[|ks| - 1]];
    }
  }

  /** A run of assignments of `steps`-entry columns keeps every column at
      `steps` entries. */
  lemma {:induction false} PutAllLengths<K(!new)>(t: Table<K>, ks: seq<K>, cs: seq<seq<real>>, steps: nat)
    requires |cs| == |ks| && forall b :: 0 <= b < |cs| ==> |cs[b]| == steps
    requires ColumnsOfLength(t, steps)
    ensures ColumnsOfLength(PutAll(t, ks, cs), steps)
  {
    if ks != [] {
      PutAllLengths(t, ks[..|ks| - 1], cs[..|cs| - 1], steps);
    }
  }

  /** Assigning distinct new keys appends them in assignment order. */
  lemma {:induction false} PutAllOrder<K(!new)>(t: Table<K>, ks: seq<K>, cs: seq<seq<real>>)
    requires |cs| == |ks| && Distinct(ks) && forall key :: key in t.data ==> key !in ks
    ensures PutAll(t, ks, cs).order == t.order + ks
  {
    if ks != [] {
      var init := ks[..|ks| - 1];
      var last := ks[|ks| - 1];
      PutAllOrder(t, init, cs[..|cs| - 1]);
      PutAllKeys(t, init, cs[..|cs| - 1]);
      assert last !in init by {
        forall p | 0 <= p < |init|
          ensures init[p] != last
        {
          assert init[p] == ks[p];
        }
      }
      assert ks == init + [last];
    }
  }

  /** Assigning distinct new keys maps each to its column and leaves the
      columns already present alone. */
  lemma {:induction false} PutAllColumns<K(!new)>(t: Table<K>, ks: seq<K>, cs: seq<seq<real>>)
    requires |cs| == |ks| && Distinct(ks) && forall key :: key in t.data ==> key !in ks
    ensures forall b :: 0 <= b < |ks| ==> ks[b] in PutAll(t, ks, cs).data && PutAll(t, ks, cs).data[ks[b]] == cs[b]
    ensures forall key :: key in t.data ==> key in PutAll(t, ks, cs).data && PutAll(t, ks, cs).data[key] == t.data[key]
  {
    if ks != [] {
      var init := ks[..|ks| - 1];
      var last := ks[|ks| - 1];
      var prev := PutAll(t, init, cs[..|cs| - 1]);
      PutAllColumns(t, init, cs[..|cs| - 1]);
      forall b | 0 <= b < |init|
        ensures init[b] != last && init[b] == ks[b]
      {
      }
    }
  }

  /** `cols` is an n-by-n grid of columns of `steps` entries each. */
  predicate Shaped(cols: seq<seq<seq<real>>>, n: nat, steps: nat)
  {
    IsGrid(cols, n) && forall i, j :: 0 <= i < n && 0 <= j < n ==> |cols[i][j]| == steps
  }

  /** Every column of `t` has `steps` entries. */
  ghost predicate ColumnsOfLength<K(!new)>(t: Table<K>, steps: nat)
  {
    forall key :: key in t.data ==> |t.data[key]| == steps
  }

  /** The key grid and the column grid of n variables. */
  predicate Grids<K>(keys: seq<seq<K>>, cols: seq<seq<seq<real>>>, steps: nat)
  {
    IsGrid(keys, |keys|) && Shaped(cols, |keys|, steps)
  }

  /** The dict after the nested loop has handled affected variables
      0..k-1: for each, the columns of every cause in turn. */
  function PutRows<K(==,!new)>(keys: seq<seq<K>>, cols: seq<seq<seq<real>>>, steps: nat, k: nat): Table<K>
    requires Grids(keys, cols, steps) && k <= |keys|
  {
    if k == 0 then Table([], map[])
    else PutAll(PutRows(keys, cols, steps, k - 1), keys[k - 1], cols[k - 1])
  }

  /** The nested loop leaves a well-formed dict. */
  lemma {:induction false} PutRowsValid<K(!new)>(keys: seq<seq<K>>, cols: seq<seq<seq<real>>>, steps: nat, k: nat)
    requires Grids(keys, cols, steps) && k <= |keys|
    ensures PutRows(keys, cols, steps, k).Valid()
  {
    if k > 0 {
      PutRowsValid(keys, cols, steps, k - 1);
      PutAllValid(PutRows(keys, cols, steps, k - 1), keys[k - 1], cols[k - 1]);
    }
  }

  /** `key` is the key of a pair whose affected variable comes before k. */
  ghost predicate KeyBefore<K(!new)>(key: K, keys: seq<seq<K>>, k: nat)
    requires IsGrid(keys, |keys|)
  {
    exists a, b :: 0 <= a < k && a < |keys| && 0 <= b < |keys| && key == keys[a][b]
  }

  /** After affected variables 0..k-1 the dict holds exactly their keys,
      and every column has `steps` entries. */
  lemma {:induction false} PutRowsKeys<K(!new)>(keys: seq<seq<K>>, cols: seq<seq<seq<real>>>, steps: nat, k: nat)
    requires Grids(keys, cols, steps) && k <= |keys|
    ensures forall a, b :: 0 <= a < k && 0 <= b < |keys| ==> keys[a][b] in PutRows(keys, cols, steps, k).data
    ensures forall key :: key in PutRows(keys, cols, steps, k).data ==> KeyBefore(key, keys, k)
    ensures ColumnsOfLength(PutRows(keys, cols, steps, k), steps)
  {
    if k > 0 {
      var before := PutRows(keys, cols, steps, k - 1);
      var after := PutRows(keys, cols, steps, k);
      var row := keys[k - 1];
      PutRowsKeys(keys, cols, steps, k - 1);
      PutAllKeys(before, row, cols[k - 1]);
      PutAllLengths(before, row, cols[k - 1], steps);
      forall a, b | 0 <= a < k && 0 <= b < |keys|
        ensures keys[a][b] in after.data
      {
        if a < k - 1 {
          assert keys[a][b] in before.data;
        } else {
          assert keys[a][b] == row[b];
        }
      }
      forall key | key in after.data
        ensures KeyBefore(key, keys, k)
      {
        if key in before.data {
          assert KeyBefore(key, keys, k - 1);
          var a, b :| 0 <= a < k - 1 && a < |keys| && 0 <= b < |keys| && key == keys[a][b];
        } else {
          var b :| 0 <= b < |row| && key == row[b];
        }
      }
    }
  }

  /** No two cells of the key grid hold the same key. */
  ghost predicate DistinctGrid<K(!new)>(keys: seq<seq<K>>)
    requires IsGrid(keys, |keys|)
  {
    forall a, b, c, d ::
      (0 <= a < |keys| && 0 <= b < |keys| && 0 <= c < |keys| && 0 <= d < |keys|
       && keys[a][b] == keys[c][d]) ==> a == c && b == d
  }

  /** With distinct keys, the keys of row k are distinct and none of them
      belongs to an earlier row. */
  lemma RowIsNew<K(!new)>(keys: seq<seq<K>>, k: nat)
    requires IsGrid(keys, |keys|) && k < |keys| && DistinctGrid(keys)
    ensures Distinct(keys[k])
    ensures forall key :: KeyBefore(key, keys, k) ==> key !in keys[k]
  {
    forall key | KeyBefore(key, keys, k)
      ensures key !in keys[k]
    {
      var a, b :| 0 <= a < k && a < |keys| && 0 <= b < |keys| && key == keys[a][b];
      forall d | 0 <= d < |keys|
        ensures keys[k][d] != key
      {
      }
    }
  }

  /** The keys of affected variables 0..k-1, affected outer and cause
      inner. */
  function LayoutKeys<K>(keys: seq<seq<K>>, k: nat): seq<K>
    requires k <= |keys|
  {
    if k == 0 then [] else LayoutKeys(keys, k - 1) + keys[k - 1]
  }

  /** When no two pairs share a key, the flattened dict lists one column
      per (affected, cause) pair, affected outer and cause inner. */
  lemma {:induction false} FlattenedOrder<K(!new)>(keys: seq<seq<K>>, cols: seq<seq<seq<real>>>, steps: nat, k: nat)
    requires Grids(keys, cols, steps) && k <= |keys| && DistinctGrid(keys)
    ensures PutRows(keys, cols, steps, k).order == LayoutKeys(keys, k)
  {
    if k > 0 {
      var before := PutRows(keys, cols, steps, k - 1);
      FlattenedOrder(keys, cols, steps, k - 1);
      PutRowsKeys(keys, cols, steps, k - 1);
      RowIsNew(keys, k - 1);
      PutAllOrder(before, keys[k - 1], cols[k - 1]);
      assert PutRows(keys, cols, steps, k) == PutAll(before, keys[k - 1], cols[k - 1]);
    }
  }

  /** When no two pairs share a key, the column of affected a and cause b
      holds `cols[a][b]`: nothing is overwritten. */
  lemma {:induction false} FlattenedColumns<K(!new)>(keys: seq<seq<K>>, cols: seq<seq<seq<real>>>, steps: nat, k: nat)
    requires Grids(keys, cols, steps) && k <= |keys| && DistinctGrid(keys)
    ensures forall a, b :: 0 <= a < k && 0 <= b < |keys| ==>
      keys[a][b] in PutRows(keys, cols, steps, k).data && PutRows(keys, cols, steps, k).data[keys[a][b]] == cols[a][b]
  {
    if k > 0 {
      var before := PutRows(keys, cols, steps, k - 1);
      FlattenedColumns(keys, cols, steps, k - 1);
      PutRowsKeys(keys, cols, steps, k - 1);
      RowIsNew(keys, k - 1);
      PutAllColumns(before, keys[k - 1], cols[k - 1]);
      assert PutRows(keys, cols, steps, k) == PutAll(before, keys[k - 1], cols[k - 1]);
    }
  }
}
