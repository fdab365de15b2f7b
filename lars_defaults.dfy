/**
 * `set_lars_hyperparams` of the ResNet launcher: when the LARS optimizer is
 * chosen, a fixed list of hyperparameter defaults is appended to the
 * forwarded argument list, each one only when its key is not already an
 * element of the list.
 *
 * The defaults are a table of entries (a key and the values that follow it
 * on the command line). `AddDefaults` is the specification: the guarded
 * appends done one entry after the other. `ArgList.SetLarsHyperparams` is
 * the in-place update, proved to compute it.
 */
module LarsDefaults {

  /** One default: `key` is appended, followed by `values`, when `key` is missing. */
  datatype Default = Default(key: string, values: seq<string>)

  /** The LARS defaults, in the order the launcher appends them. */
  const LarsTable: seq<Default> := [
    Default("--base_learning_rate", ["9.5"]),
    Default("--warmup_epochs", ["3"]),
    Default("--lr_schedule", ["polynomial"]),
    Default("--label_smoothing", ["0.1"]),
    Default("--weight_decay", ["0.0001"]),
    Default("--single_l2_loss_op", [])
  ]

  /** One guarded append: `if key not in args: args.extend([key] + values)`. */
  function WithDefault(args: seq<string>, d: Default): seq<string>
  {
    if d.key in args then args else args + [d.key] + d.values
  }

  /** The guarded appends of a whole table, each seeing the list the previous ones left. */
  function AddDefaults(args: seq<string>, table: seq<Default>): seq<string>
    decreases |table|
  {
    if |table| == 0 then args
    else AddDefaults(WithDefault(args, table[0]), table[1..])
  }

  /** The list `set_lars_hyperparams` leaves behind. */
  function WithLarsDefaults(args: seq<string>): seq<string>
  {
    AddDefaults(args, LarsTable)
  }

  /** What a table appends, judged against the original list only. */
  function Appended(args: seq<string>, table: seq<Default>): seq<string>
    decreases |table|
  {
    if |table| == 0 then []
    else (if table[0].key in args then [] else [table[0].key] + table[0].values) + Appended(args, table[1..])
  }

  /** Number of strings a table appends at most: each key and its values. */
  function Size(table: seq<Default>): nat
    decreases |table|
  {
    if |table| == 0 then 0 else 1 + |table[0].values| + Size(table[1..])
  }

  /** Keys are distinct and no key is also used as a value. */
  ghost predicate Independent(table: seq<Default>)
  {
    (forall i, j :: 0 <= i < j < |table| ==> table[i].key != table[j].key) &&
    (forall i, j :: 0 <= i < |table| && 0 <= j < |table| ==> table[j].key !in table[i].values)
  }

  /** `d.key` stands at index `i` of `r`, immediately followed by `d.values`. */
  ghost predicate EntryAt(r: seq<string>, d: Default, i: int)
  {
    0 <= i && i + |d.values| < |r| && r[i] == d.key && r[i + 1..i + 1 + |d.values|] == d.values
  }

  // ---------------------------------------------------------------------------
  // Properties of any table

  /** The guarded appends only ever append: the original list is a prefix. */
  lemma {:induction false} AddDefaultsExtends(args: seq<string>, table: seq<Default>)
    ensures args <= AddDefaults(args, table)
    decreases |table|
  {
    if |table| > 0 {
      var next := WithDefault(args, table[0]);
      AddDefaultsExtends(next, table[1..]);
      assert args <= next;
    }
  }

  /** After the appends, every key of the table is an element of the list. */
  lemma {:induction false} AddDefaultsKeysPresent(args: seq<string>, table: seq<Default>)
    ensures forall d :: d in table ==> d.key in AddDefaults(args, table)
    decreases |table|
  {
    if |table| > 0 {
      var next := WithDefault(args, table[0]);
      var r := AddDefaults(next, table[1..]);
      AddDefaultsKeysPresent(next, table[1..]);
      AddDefaultsExtends(next, table[1..]);
      assert table[0].key in next;
      forall d | d in table ensures d.key in r {
        if d != table[0] {
          assert d in table[1..];
        }
      }
    }
  }

  /** When every key is already present, the appends change nothing. */
  lemma {:induction false} AddDefaultsNoOp(args: seq<string>, table: seq<Default>)
    requires forall d :: d in table ==> d.key in args
    ensures AddDefaults(args, table) == args
    decreases |table|
  {
    if |table| > 0 {
      assert table[0] in table;
      forall d | d in table[1..] ensures d.key in args {
        assert d in table;
      }
      AddDefaultsNoOp(args, table[1..]);
    }
  }

  /** Applying the appends twice is the same as applying them once. */
  lemma AddDefaultsIdempotent(args: seq<string>, table: seq<Default>)
    ensures AddDefaults(AddDefaults(args, table), table) == AddDefaults(args, table)
  {
    AddDefaultsKeysPresent(args, table);
    AddDefaultsNoOp(AddDefaults(args, table), table);
  }

  /** Appending an entry does not change what later, independent entries append. */
  lemma {:induction false} AppendedIgnoresEarlier(args: seq<string>, d: Default, rest: seq<Default>)
    requires forall e :: e in rest ==> e.key != d.key && e.key !in d.values
    ensures Appended(WithDefault(args, d), rest) == Appended(args, rest)
    decreases |rest|
  {
    if |rest| > 0 {
      assert rest[0] in rest;
      forall e | e in rest[1..] ensures e.key != d.key && e.key !in d.values {
        assert e in rest;
      }
      AppendedIgnoresEarlier(args, d, rest[1..]);
      assert rest[0].key in WithDefault(args, d) <==> rest[0].key in args;
    }
  }

  /** For an independent table the whole update is one append of `Appended`. */
  lemma {:induction false} AddDefaultsAppends(args: seq<string>, table: seq<Default>)
    requires Independent(table)
    ensures AddDefaults(args, table) == args + Appended(args, table)
    decreases |table|
  {
    if |table| > 0 {
      var d := table[0];
      var rest := table[1..];
      var next := WithDefault(args, d);
      forall e | e in rest ensures e.key != d.key && e.key !in d.values {
        var j :| 0 <= j < |rest| && rest[j] == e;
        assert table[j + 1] == e;
      }
      assert Independent(rest) by {
        forall i, j | 0 <= i < |rest| && 0 <= j < |rest| ensures rest[j].key !in rest[i].values {
          assert table[j + 1].key !in table[i + 1].values;
        }
        forall i, j | 0 <= i < j < |rest| ensures rest[i].key != rest[j].key {
          assert table[i + 1].key != table[j + 1].key;
        }
      }
      AddDefaultsAppends(next, rest);
      AppendedIgnoresEarlier(args, d, rest);
    }
  }

  /** Everything appended is the key or a value of an entry whose key the caller did not supply. */
  lemma {:induction false} AppendedOrigin(args: seq<string>, table: seq<Default>, x: string)
    requires x in Appended(args, table)
    ensures exists j :: 0 <= j < |table| && table[j].key !in args && (x == table[j].key || x in table[j].values)
    decreases |table|
  {
    var d := table[0];
    var own := if d.key in args then [] else [d.key] + d.values;
    assert Appended(args, table) == own + Appended(args, table[1..]);
    if x in own {
      assert d.key !in args && (x == d.key || x in d.values);
    } else {
      AppendedOrigin(args, table[1..], x);
      var j :| 0 <= j < |table| - 1 && table[1..][j].key !in args
        && (x == table[1..][j].key || x in table[1..][j].values);
      assert table[j + 1] == table[1..][j];
    }
  }

  /** A key the caller already supplied is never appended again. */
  lemma PresentKeyNotAppended(args: seq<string>, table: seq<Default>, k: int)
    requires Independent(table)
    requires 0 <= k < |table| && table[k].key in args
    ensures table[k].key !in Appended(args, table)
  {
    if table[k].key in Appended(args, table) {
      AppendedOrigin(args, table, table[k].key);
    }
  }

  /** A table never appends more than its size, and appends exactly its size when no key was supplied. */
  lemma {:induction false} AppendedSize(args: seq<string>, table: seq<Default>)
    ensures |Appended(args, table)| <= Size(table)
    ensures (forall d :: d in table ==> d.key !in args) ==> |Appended(args, table)| == Size(table)
    decreases |table|
  {
    if |table| > 0 {
      AppendedSize(args, table[1..]);
      if forall d :: d in table ==> d.key !in args {
        assert table[0] in table;
        forall d | d in table[1..] ensures d.key !in args {
          assert d in table;
        }
      }
    }
  }

  /** An entry found in a list is still found, further right, once something is put in front. */
  lemma EntryAtShift(front: seq<string>, r: seq<string>, d: Default, i: int)
    requires EntryAt(r, d, i)
    ensures EntryAt(front + r, d, |front| + i)
  {
    assert (front + r)[|front| + i + 1..|front| + i + 1 + |d.values|] == r[i + 1..i + 1 + |d.values|];
  }

  /** A key the caller did not supply is appended, immediately followed by its values. */
  lemma {:induction false} MissingKeyAppended(args: seq<string>, table: seq<Default>, k: int)
    requires 0 <= k < |table| && table[k].key !in args
    ensures exists i :: EntryAt(Appended(args, table), table[k], i)
    decreases k
  {
    var d := table[0];
    var tail := Appended(args, table[1..]);
    if k == 0 {
      var own := [d.key] + d.values;
      assert Appended(args, table) == own + tail;
      assert (own + tail)[1..1 + |d.values|] == d.values;
      assert EntryAt(own + tail, d, 0);
    } else {
      var own := if d.key in args then [] else [d.key] + d.values;
      assert Appended(args, table) == own + tail;
      MissingKeyAppended(args, table[1..], k - 1);
      var i :| EntryAt(tail, table[1..][k - 1], i);
      EntryAtShift(own, tail, table[k], i);
    }
  }

  // ---------------------------------------------------------------------------
  // Properties of the LARS defaults

  /** The LARS keys are distinct and none of them is a default value. */
  lemma LarsTableIndependent()
    ensures Independent(LarsTable)
  {
    forall i, j | 0 <= i < |LarsTable| && 0 <= j < |LarsTable|
      ensures LarsTable[j].key !in LarsTable[i].values
    {
      LarsEntryLengths(i);
      LarsEntryLengths(j);
    }
    forall i, j | 0 <= i < j < |LarsTable| ensures LarsTable[i].key != LarsTable[j].key {
      LarsEntryLengths(i);
      LarsEntryLengths(j);
    }
  }

  /** The LARS keys have six different lengths, all at least 13; the values are at most 10 long. */
  lemma LarsEntryLengths(i: int)
    requires 0 <= i < |LarsTable|
    ensures |LarsTable[i].key| == [20, 15, 13, 17, 14, 19][i]
    ensures forall v :: v in LarsTable[i].values ==> |v| <= 10
  {
  }

  /** Five key/value pairs and one bare flag: eleven strings. */
  lemma LarsTableSize()
    ensures Size(LarsTable) == 11
  {
  }

  /** The caller's list is left as it was and the new strings are only ever appended after it. */
  lemma WithLarsDefaultsOnlyAppends(args: seq<string>)
    ensures args <= WithLarsDefaults(args)
    ensures WithLarsDefaults(args) == args + Appended(args, LarsTable)
  {
    LarsTableIndependent();
    AddDefaultsAppends(args, LarsTable);
  }

  /** After the update each LARS key is an element of the list. */
  lemma WithLarsDefaultsKeysPresent(args: seq<string>)
    ensures var r := WithLarsDefaults(args);
      "--base_learning_rate" in r && "--warmup_epochs" in r && "--lr_schedule" in r &&
      "--label_smoothing" in r && "--weight_decay" in r && "--single_l2_loss_op" in r
  {
    AddDefaultsKeysPresent(args, LarsTable);
    assert Default("--base_learning_rate", ["9.5"]) in LarsTable;
    assert Default("--warmup_epochs", ["3"]) in LarsTable;
    assert Default("--lr_schedule", ["polynomial"]) in LarsTable;
    assert Default("--label_smoothing", ["0.1"]) in LarsTable;
    assert Default("--weight_decay", ["0.0001"]) in LarsTable;
    assert Default("--single_l2_loss_op", []) in LarsTable;
  }

  /** A LARS key the caller supplied keeps the caller's value and is not appended a second time. */
  lemma WithLarsDefaultsKeepsSuppliedKey(args: seq<string>, k: int)
    requires 0 <= k < |LarsTable| && LarsTable[k].key in args
    ensures WithLarsDefaults(args)[..|args|] == args
    ensures LarsTable[k].key !in WithLarsDefaults(args)[|args|..]
  {
    WithLarsDefaultsOnlyAppends(args);
    LarsTableIndependent();
    PresentKeyNotAppended(args, LarsTable, k);
    assert WithLarsDefaults(args)[|args|..] == Appended(args, LarsTable);
  }

  /** A LARS key the caller did not supply is appended after the caller's list, followed by its default. */
  lemma WithLarsDefaultsAddsMissingKey(args: seq<string>, k: int)
    requires 0 <= k < |LarsTable| && LarsTable[k].key !in args
    ensures exists i :: |args| <= i && EntryAt(WithLarsDefaults(args), LarsTable[k], i)
  {
    WithLarsDefaultsOnlyAppends(args);
    MissingKeyAppended(args, LarsTable, k);
    var app := Appended(args, LarsTable);
    var d := LarsTable[k];
    var i :| EntryAt(app, d, i);
    EntryAtShift(args, app, d, i);
  }

  /** Running the update on its own result changes nothing. */
  lemma WithLarsDefaultsIdempotent(args: seq<string>)
    ensures WithLarsDefaults(WithLarsDefaults(args)) == WithLarsDefaults(args)
  {
    AddDefaultsIdempotent(args, LarsTable);
  }

  /** The list grows by at most eleven strings, and by exactly eleven when no LARS key was supplied. */
  lemma WithLarsDefaultsGrowth(args: seq<string>)
    ensures |args| <= |WithLarsDefaults(args)| <= |args| + 11
    ensures (forall d :: d in LarsTable ==> d.key !in args) ==> |WithLarsDefaults(args)| == |args| + 11
  {
    WithLarsDefaultsOnlyAppends(args);
    AppendedSize(args, LarsTable);
    LarsTableSize();
  }

  /** Every appended string is a LARS key or one of the default values. */
  lemma WithLarsDefaultsAddsOnlyTableStrings(args: seq<string>, x: string)
    requires x in WithLarsDefaults(args)[|args|..]
    ensures exists j :: 0 <= j < |LarsTable| && (x == LarsTable[j].key || x in LarsTable[j].values)
  {
    WithLarsDefaultsOnlyAppends(args);
    assert WithLarsDefaults(args)[|args|..] == Appended(args, LarsTable);
    AppendedOrigin(args, LarsTable, x);
  }

  // ---------------------------------------------------------------------------
  // The argument list the launcher mutates in place

  /** A Python list of command-line strings, updated in place. */
  class ArgList {
    var items: seq<string>

    constructor (args: seq<string>)
      ensures items == args
    {
      items := args;
    }

    /** `if key not in items: items.extend([key] + values)`. */
    method ExtendIfMissing(key: string, values: seq<string>)
      modifies this
      ensures items == WithDefault(old(items), Default(key, values))
      ensures old(items) <= items
    {
      if key !in items {
        items := items + [key] + values;
      }
    }

    /** `set_lars_hyperparams(items)`: the six guarded appends, in the launcher's order. */
    method SetLarsHyperparams()
      modifies this
      ensures items == WithLarsDefaults(old(items))
    {
      // After step k, the remaining entries LarsTable[k + 1..] lead to the same final list.
      ExtendIfMissing("--base_learning_rate", ["9.5"]);
      RemainingDefaults(old(items), items, 0);
      ghost var done := items;
      ExtendIfMissing("--warmup_epochs", ["3"]);
      RemainingDefaults(done, items, 1);
      done := items;
      ExtendIfMissing("--lr_schedule", ["polynomial"]);
      RemainingDefaults(done, items, 2);
      done := items;
      ExtendIfMissing("--label_smoothing", ["0.1"]);
      RemainingDefaults(done, items, 3);
      done := items;
      ExtendIfMissing("--weight_decay", ["0.0001"]);
      RemainingDefaults(done, items, 4);
      done := items;
      ExtendIfMissing("--single_l2_loss_op", []);
      RemainingDefaults(done, items, 5);
    }
  }

  /** Doing step `k` of the LARS table leaves the result of the remaining steps unchanged. */
  lemma RemainingDefaults(before: seq<string>, after: seq<string>, k: int)
    requires 0 <= k < |LarsTable|
    requires after == WithDefault(before, LarsTable[k])
    ensures AddDefaults(after, LarsTable[k + 1..]) == AddDefaults(before, LarsTable[k..])
  {
    assert LarsTable[k..][1..] == LarsTable[k + 1..];
  }
}
