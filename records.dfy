/** The records the extractor emits: Python dicts from column name to captured text, built
    by `dict(zip(columns, groups))` and then cleaned by stripping every value. */
module Records {
  import opened Text

  predicate Distinct(xs: seq<string>) {
    forall i, j :: 0 <= i < j < |xs| ==> xs[i] != xs[j]
  }

  /** A dict: its keys in insertion order (the order a JSON encoder writes them in) and the
      value each key maps to. */
  datatype Record = Record(keys: seq<string>, values: map<string, string>)

  /** The dict invariant: each key is listed once, and the listed keys are the mapped ones. */
  ghost predicate Valid(r: Record) {
    Distinct(r.keys) && forall k :: k in r.values <==> k in r.keys
  }

  /** `d[k] = v`: an existing key keeps its place and takes the new value; a new key goes
      to the end. */
  function Put(rec: Record, k: string, v: string): Record {
    Record(if k in rec.values then rec.keys else rec.keys + [k], rec.values[k := v])
  }

  /** The loop inside `dict(zip(columns, groups))`: insert the pairs left to right into
      `acc`, stopping at the end of the shorter sequence. */
  function ZipInto(acc: Record, columns: seq<string>, groups: seq<string>): Record
    decreases |columns|
  {
    if columns == [] || groups == [] then acc
    else ZipInto(Put(acc, columns[0], groups[0]), columns[1..], groups[1..])
  }

  /** Assignment keeps a dict a dict. */
  lemma PutKeepsValid(rec: Record, k: string, v: string)
    requires Valid(rec)
    ensures Valid(Put(rec, k, v))
  {
    if k !in rec.values {
      forall i, j | 0 <= i < j < |rec.keys| + 1 ensures (rec.keys + [k])[i] != (rec.keys + [k])[j] {
        if j == |rec.keys| {
          assert rec.keys[i] in rec.values;
        }
      }
    }
  }

  lemma {:induction false} ZipIntoKeepsValid(acc: Record, columns: seq<string>, groups: seq<string>)
    requires Valid(acc)
    ensures Valid(ZipInto(acc, columns, groups))
    decreases |columns|
  {
    if columns != [] && groups != [] {
      PutKeepsValid(acc, columns[0], groups[0]);
      ZipIntoKeepsValid(Put(acc, columns[0], groups[0]), columns[1..], groups[1..]);
    }
  }

  /** `dict(zip(columns, groups))` */
  function DictZip(columns: seq<string>, groups: seq<string>): (r: Record)
    ensures Valid(r)
  {
    ZipIntoKeepsValid(Record([], map[]), columns, groups);
    ZipInto(Record([], map[]), columns, groups)
  }

  function Min(a: int, b: int): int {
    if a <= b then a else b
  }

  /** Inserting the pairs adds exactly the first min(|columns|, |groups|) column names as
      keys, and leaves the value of every other key alone. */
  lemma {:induction false} ZipIntoKeys(acc: Record, columns: seq<string>, groups: seq<string>, k: string)
    ensures var r := ZipInto(acc, columns, groups);
      && (k in r.values <==> k in acc.values || k in columns[..Min(|columns|, |groups|)])
      && (k !in columns[..Min(|columns|, |groups|)] && k in acc.values ==> r.values[k] == acc.values[k])
    decreases |columns|
  {
    var n := Min(|columns|, |groups|);
    if n > 0 {
      var acc', cs, gs := Put(acc, columns[0], groups[0]), columns[1..], groups[1..];
      assert ZipInto(acc, columns, groups) == ZipInto(acc', cs, gs);
      assert Min(|cs|, |gs|) == n - 1;
      assert k in columns[..n] <==> k == columns[0] || k in cs[..n - 1] by {
        assert columns[..n] == [columns[0]] + cs[..n - 1];
      }
      assert acc'.values == acc.values[columns[0] := groups[0]];
      ZipIntoKeys(acc', cs, gs, k);
    } else {
      assert columns[..n] == [];
    }
  }

  /** The last pair wins: a key takes the group at the last position its name has among
      the first min(|columns|, |groups|) columns. */
  lemma {:induction false} ZipIntoLastWins(acc: Record, columns: seq<string>, groups: seq<string>, j: nat)
    requires j < Min(|columns|, |groups|)
    requires forall i :: j < i < Min(|columns|, |groups|) ==> columns[i] != columns[j]
    ensures columns[j] in ZipInto(acc, columns, groups).values
    ensures ZipInto(acc, columns, groups).values[columns[j]] == groups[j]
    decreases |columns|
  {
    var acc' := Put(acc, columns[0], groups[0]);
    var n := Min(|columns|, |groups|);
    if j == 0 {
      assert columns[0] !in columns[1..][..n - 1] by {
        assert columns[1..][..n - 1] == columns[..n][1..];
        forall i | 0 <= i < n - 1 ensures columns[..n][1..][i] != columns[0] {
          assert columns[..n][0] != columns[..n][i + 1];
        }
      }
      ZipIntoKeys(acc', columns[1..], groups[1..], columns[0]);
    } else {
      ZipIntoLastWins(acc', columns[1..], groups[1..], j - 1);
    }
  }

  /** With distinct column names, none of them already a key, the new keys are appended in
      column order. */
  lemma {:induction false} ZipIntoAppends(acc: Record, columns: seq<string>, groups: seq<string>)
    requires forall i, j :: 0 <= i < j < Min(|columns|, |groups|) ==> columns[i] != columns[j]
    requires forall i :: 0 <= i < Min(|columns|, |groups|) ==> columns[i] !in acc.values
    ensures ZipInto(acc, columns, groups).keys == acc.keys + columns[..Min(|columns|, |groups|)]
    decreases |columns|
  {
    var n := Min(|columns|, |groups|);
    if n > 0 {
      var acc' := Put(acc, columns[0], groups[0]);
      var cs, gs := columns[1..], groups[1..];
      assert Min(|cs|, |gs|) == n - 1;
      assert acc'.keys == acc.keys + [columns[0]];
      assert forall i :: 0 <= i < n - 1 ==> cs[i] !in acc'.values by {
        forall i | 0 <= i < n - 1 ensures cs[i] !in acc'.values {
          assert cs[i] == columns[i + 1];
        }
      }
      assert forall i, j :: 0 <= i < j < n - 1 ==> cs[i] != cs[j] by {
        forall i, j | 0 <= i < j < n - 1 ensures cs[i] != cs[j] {
          assert cs[i] == columns[i + 1] && cs[j] == columns[j + 1];
        }
      }
      calc {
        ZipInto(acc, columns, groups).keys;
        ZipInto(acc', cs, gs).keys;
        { ZipIntoAppends(acc', cs, gs); }
        (acc.keys + [columns[0]]) + cs[..n - 1];
        acc.keys + ([columns[0]] + cs[..n - 1]);
        { assert columns[..n] == [columns[0]] + cs[..n - 1]; }
        acc.keys + columns[..n];
      }
    } else {
      assert columns[..n] == [];
    }
  }

  /** Zip pairing: with distinct column names the record's keys are the first
      min(|columns|, |groups|) columns in order, and column i maps to group i. */
  lemma DictZipPositional(columns: seq<string>, groups: seq<string>)
    requires Distinct(columns[..Min(|columns|, |groups|)])
    ensures var r := DictZip(columns, groups);
      r.keys == columns[..Min(|columns|, |groups|)]
      && forall i :: 0 <= i < Min(|columns|, |groups|) ==> r.values[columns[i]] == groups[i]
  {
    var n := Min(|columns|, |groups|);
    assert forall i, j :: 0 <= i < j < n ==> columns[i] != columns[j] by {
      forall i, j | 0 <= i < j < n ensures columns[i] != columns[j] {
        assert columns[..n][i] != columns[..n][j];
      }
    }
    ZipIntoAppends(Record([], map[]), columns, groups);
    forall i | 0 <= i < n
      ensures DictZip(columns, groups).values[columns[i]] == groups[i]
    {
      forall i' | i < i' < n ensures columns[i'] != columns[i] {
        assert columns[..n][i] != columns[..n][i'];
      }
      ZipIntoLastWins(Record([], map[]), columns, groups, i);
    }
  }

  /** The record after its cleanup loop: the same keys in the same order, each value stripped. */
  function Cleaned(rec: Record): (r: Record)
    requires Valid(rec)
    ensures Valid(r) && r.keys == rec.keys
  {
    Record(rec.keys, map k | k in rec.values :: Strip(rec.values[k]))
  }

  /** After cleaning, every value has no whitespace at either end. */
  lemma CleanedValuesStripped(rec: Record)
    requires Valid(rec)
    ensures forall k :: k in Cleaned(rec).values ==> IsStripped(Cleaned(rec).values[k])
  {
    forall k | k in Cleaned(rec).values ensures IsStripped(Cleaned(rec).values[k]) {
      StripIsStripped(rec.values[k]);
    }
  }

  /** The cleanup loop `for key, value in record.items(): record[key] = value.strip()`,
      which rewrites each value in place. */
  method StripValues(record: Record) returns (cleaned: Record)
    requires Valid(record)
    ensures cleaned == Cleaned(record)
  {
    cleaned := record;
    var keys := record.keys;
    for i := 0 to |keys|
      invariant cleaned.keys == keys && cleaned.values.Keys == record.values.Keys
      invariant forall j :: 0 <= j < i ==> cleaned.values[keys[j]] == Strip(record.values[keys[j]])
      invariant forall j :: i <= j < |keys| ==> cleaned.values[keys[j]] == record.values[keys[j]]
    {
      var key := keys[i];
      var value := cleaned.values[key];
      cleaned := cleaned.(values := cleaned.values[key := Strip(value)]);
      assert forall j :: 0 <= j < |keys| && j != i ==> keys[j] != key;
    }
    forall k | k in record.values
      ensures cleaned.values[k] == Cleaned(record).values[k]
    {
      var j :| 0 <= j < |keys| && keys[j] == k;
    }
  }

  /** The record one matching line produces: `dict(zip(columns, groups))`, then cleaned. */
  function MakeRecord(columns: seq<string>, groups: seq<string>): Record {
    Cleaned(DictZip(columns, groups))
  }
}
