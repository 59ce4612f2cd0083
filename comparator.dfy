/**
 * compare: walks the union of the two records' keys in sorted order and
 * gives every key a status, clearing one `match` flag on any MISSING or FAIL.
 */
module Comparator {
  import opened Wrappers
  import opened Strings
  import opened IntegralFile

  datatype Status = Missing | Pass | Fail

  /** One row of the printed table: the variable, its value in each file
      (None where the file lacks it) and its status. */
  datatype Row = Row(key: string, value1: Option<real>, value2: Option<real>, status: Status)

  /** compare's default tolerance, 1e-6. */
  const DefaultTolerance: real := 0.000001

  function Abs(x: real): real
  {
    if x < 0.0 then -x else x
  }

  /** data.get(key, None) */
  function Lookup(data: Record, key: string): (r: Option<real>)
    ensures r.Some? <==> key in data
    ensures r.Some? ==> r.value == data[key]
  {
    if key in data then Some(data[key]) else None
  }

  /** The files match: the same keys, and every pair of values within the
      tolerance. */
  predicate Matches(data1: Record, data2: Record, tolerance: real)
  {
    && data1.Keys == data2.Keys
    && forall k :: k in data1 ==> Abs(data1[k] - data2[k]) <= tolerance
  }

  /** What compare prints for one key: both lookups, MISSING when either
      file lacks the key, PASS when both have it and the difference is at
      most the tolerance, FAIL otherwise. */
  predicate RowReports(data1: Record, data2: Record, tolerance: real, r: Row)
  {
    && r.value1 == Lookup(data1, r.key)
    && r.value2 == Lookup(data2, r.key)
    && (r.status == Missing <==> r.key !in data1 || r.key !in data2)
    && (r.status == Pass <==> r.key in data1 && r.key in data2 && Abs(data1[r.key] - data2[r.key]) <= tolerance)
  }

  predicate StrictlyAscending(ks: seq<string>)
  {
    forall i, j :: 0 <= i < j < |ks| ==> Less(ks[i], ks[j])
  }

  /** The variable names of the rows, in order. */
  function KeysOf(rows: seq<Row>): (ks: seq<string>)
    ensures |ks| == |rows| && forall i :: 0 <= i < |rows| ==> ks[i] == rows[i].key
  {
    seq(|rows|, i requires 0 <= i < |rows| => rows[i].key)
  }

  /** The table compare prints: one row per key of either record, in
      ascending order of key, each reporting that key. */
  ghost predicate IsReport(data1: Record, data2: Record, tolerance: real, rows: seq<Row>)
  {
    && StrictlyAscending(KeysOf(rows))
    && (forall k :: k in KeysOf(rows) <==> k in data1 || k in data2)
    && (forall i :: 0 <= i < |rows| ==> RowReports(data1, data2, tolerance, rows[i]))
  }

  /** m is the least element of s. */
  predicate IsLeast(m: string, s: set<string>)
  {
    m in s && forall x :: x in s && x != m ==> Less(m, x)
  }

  /** Every non-empty finite set of strings has a least element. */
  lemma {:induction false} MinimumExists(s: set<string>)
    requires s != {}
    ensures exists m :: IsLeast(m, s)
    decreases |s|
  {
    var y :| y in s;
    if s == {y} {
      assert IsLeast(y, s);
    } else {
      var rest := s - {y};
      MinimumExists(rest);
      var m :| IsLeast(m, rest);
      assert s == rest + {y};
      LeastOfInsert(m, rest, y);
    }
  }

  /** Adding y to a set with least element m: the smaller of m and y is
      the new least element. */
  lemma LeastOfInsert(m: string, rest: set<string>, y: string)
    requires IsLeast(m, rest) && y !in rest
    ensures IsLeast(if Less(m, y) then m else y, rest + {y})
  {
    if !Less(m, y) {
      LessTotal(m, y);
      forall x | x in rest + {y} && x != y ensures Less(y, x) {
        if x != m {
          LessTransitive(y, m, x);
        }
      }
    }
  }

  /** sorted(keys): the keys, each once, in ascending order. */
  method SortKeys(keys: set<string>) returns (ks: seq<string>)
    ensures StrictlyAscending(ks)
    ensures forall k :: k in ks <==> k in keys
    ensures |ks| == |keys|
  {
    ks := [];
    var rest := keys;
    while rest != {}
      invariant rest <= keys
      invariant forall k :: k in ks <==> k in keys && k !in rest
      invariant StrictlyAscending(ks)
      invariant forall i, k :: 0 <= i < |ks| && k in rest ==> Less(ks[i], k)
      invariant |ks| + |rest| == |keys|
      decreases |rest|
    {
      MinimumExists(rest);
      var m :| IsLeast(m, rest);
      ks := ks + [m];
      rest := rest - {m};
    }
  }

  lemma SharedNonEmpty(a: seq<string>, b: seq<string>)
    requires a != []
    requires forall k :: k in a <==> k in b
    ensures b != []
  {
    assert a[0] in a;
  }

  /** There is only one ascending arrangement of a set of keys, so the
      order of the rows does not depend on how the keys were found. */
  lemma {:induction false} SortedUnique(a: seq<string>, b: seq<string>)
    requires StrictlyAscending(a) && StrictlyAscending(b)
    requires forall k :: k in a <==> k in b
    ensures a == b
  {
    if a != [] { SharedNonEmpty(a, b); }
    if b != [] { SharedNonEmpty(b, a); }
    if a != [] && b != [] {
      assert a[0] in b && b[0] in a;
      if a[0] != b[0] {
        var i :| 0 < i < |a| && a[i] == b[0];
        var j :| 0 < j < |b| && b[j] == a[0];
        LessAsymmetric(a[0], a[i]);
        assert false;
      }
      forall k ensures k in a[1..] <==> k in b[1..] {
        if k in a[1..] {
          var i :| 1 <= i < |a| && a[i] == k;
          assert k in a;
          var j :| 0 <= j < |b| && b[j] == k;
          if j == 0 { LessIrreflexive(a[0]); }
          assert b[1..][j - 1] == k;
        }
        if k in b[1..] {
          var j :| 1 <= j < |b| && b[j] == k;
          assert k in b;
          var i :| 0 <= i < |a| && a[i] == k;
          if i == 0 { LessIrreflexive(b[0]); }
          assert a[1..][i - 1] == k;
        }
      }
      SortedUnique(a[1..], b[1..]);
    }
  }

  /** The body of compare's loop for one key. */
  method CompareKey(data1: Record, data2: Record, tolerance: real, key: string) returns (row: Row)
    ensures row.key == key && RowReports(data1, data2, tolerance, row)
  {
    var val1 := Lookup(data1, key);
    var val2 := Lookup(data2, key);
    var status;
    if val1.None? || val2.None? {
      status := Missing;
    } else if Abs(val1.value - val2.value) <= tolerance {
      status := Pass;
    } else {
      status := Fail;
    }
    row := Row(key, val1, val2, status);
  }

  /** compare(data1, data2, tolerance) once both files have been parsed:
      one row per key of either record, in ascending order, and the match
      flag. */
  method Compare(data1: Record, data2: Record, tolerance: real) returns (rows: seq<Row>, matched: bool)
    ensures IsReport(data1, data2, tolerance, rows)
    ensures |rows| == |data1.Keys + data2.Keys|
    ensures matched <==> forall i :: 0 <= i < |rows| ==> rows[i].status == Pass
    ensures matched <==> Matches(data1, data2, tolerance)
  {
    var keys := SortKeys(data1.Keys + data2.Keys);
    rows := [];
    matched := true;
    for n := 0 to |keys|
      invariant ReportsKeys(data1, data2, tolerance, keys, n, rows)
      invariant matched <==> AllPass(rows)
    {
      var row := CompareKey(data1, data2, tolerance, keys[n]);
      if row.status != Pass {
        matched := false;
      }
      ReportsKeysAppend(data1, data2, tolerance, keys, n, rows, row);
      rows := rows + [row];
    }
    RowsOfSortedKeys(data1, data2, tolerance, keys, rows);
    if matched {
      AllPassMatches(data1, data2, tolerance, rows);
    }
    if Matches(data1, data2, tolerance) {
      MatchesAllPass(data1, data2, tolerance, rows);
    }
  }

  /** Every row has status PASS. */
  predicate AllPass(rows: seq<Row>)
  {
    forall i :: 0 <= i < |rows| ==> rows[i].status == Pass
  }

  /** rows has one row for each of the first n keys, in the same order, each
      reporting its key. */
  predicate ReportsKeys(data1: Record, data2: Record, tolerance: real, keys: seq<string>, n: nat, rows: seq<Row>)
  {
    && n == |rows| <= |keys|
    && forall i :: 0 <= i < n ==> rows[i].key == keys[i] && RowReports(data1, data2, tolerance, rows[i])
  }

  /** compare's loop step: the row of the next key extends the table, and the
      flag stays set exactly while every row passes. */
  lemma ReportsKeysAppend(data1: Record, data2: Record, tolerance: real, keys: seq<string>, n: nat, rows: seq<Row>, row: Row)
    requires ReportsKeys(data1, data2, tolerance, keys, n, rows) && n < |keys|
    requires row.key == keys[n] && RowReports(data1, data2, tolerance, row)
    ensures ReportsKeys(data1, data2, tolerance, keys, n + 1, rows + [row])
    ensures AllPass(rows + [row]) <==> AllPass(rows) && row.status == Pass
  {
    assert forall i :: 0 <= i < n ==> (rows + [row])[i] == rows[i];
  }

  /** One reporting row per sorted key of the union is the report. */
  lemma RowsOfSortedKeys(data1: Record, data2: Record, tolerance: real, keys: seq<string>, rows: seq<Row>)
    requires StrictlyAscending(keys)
    requires forall k :: k in keys <==> k in data1 || k in data2
    requires ReportsKeys(data1, data2, tolerance, keys, |keys|, rows)
    ensures IsReport(data1, data2, tolerance, rows)
  {
    assert KeysOf(rows) == keys;
  }

  /** When every row of the report passes, the records match. */
  lemma AllPassMatches(data1: Record, data2: Record, tolerance: real, rows: seq<Row>)
    requires IsReport(data1, data2, tolerance, rows)
    requires AllPass(rows)
    ensures Matches(data1, data2, tolerance)
  {
    var ks := KeysOf(rows);
    forall k | k in data1 || k in data2
      ensures k in data1 && k in data2 && Abs(data1[k] - data2[k]) <= tolerance
    {
      assert k in ks;
      var i :| 0 <= i < |ks| && ks[i] == k;
      assert rows[i].status == Pass;
    }
  }

  /** When the records match, every row of the report passes. */
  lemma MatchesAllPass(data1: Record, data2: Record, tolerance: real, rows: seq<Row>)
    requires IsReport(data1, data2, tolerance, rows)
    requires Matches(data1, data2, tolerance)
    ensures AllPass(rows)
  {
    var ks := KeysOf(rows);
    forall i | 0 <= i < |rows| ensures rows[i].status == Pass {
      assert ks[i] in ks;
    }
  }

  /** A record matches itself for any non-negative tolerance. */
  lemma MatchesReflexive(data: Record, tolerance: real)
    requires tolerance >= 0.0
    ensures Matches(data, data, tolerance)
  {
  }

  /** Swapping the two files does not change whether they match. */
  lemma MatchesSymmetric(data1: Record, data2: Record, tolerance: real)
    ensures Matches(data1, data2, tolerance) == Matches(data2, data1, tolerance)
  {
    if Matches(data1, data2, tolerance) {
      forall k | k in data2 ensures Abs(data2[k] - data1[k]) <= tolerance {
        assert Abs(data2[k] - data1[k]) == Abs(data1[k] - data2[k]);
      }
    }
    if Matches(data2, data1, tolerance) {
      forall k | k in data1 ensures Abs(data1[k] - data2[k]) <= tolerance {
        assert Abs(data2[k] - data1[k]) == Abs(data1[k] - data2[k]);
      }
    }
  }

  /** A key present in only one file, or one pair of values further apart
      than the tolerance, is enough to fail. */
  lemma OneDifferenceFails(data1: Record, data2: Record, tolerance: real, k: string)
    requires k in data1 || k in data2
    requires k !in data1 || k !in data2 || Abs(data1[k] - data2[k]) > tolerance
    ensures !Matches(data1, data2, tolerance)
  {
  }

  /** The report is determined by the two records: any two tables that
      report them are the same table. */
  lemma {:induction false} ReportUnique(data1: Record, data2: Record, tolerance: real, rows1: seq<Row>, rows2: seq<Row>)
    requires IsReport(data1, data2, tolerance, rows1)
    requires IsReport(data1, data2, tolerance, rows2)
    ensures rows1 == rows2
  {
    SortedUnique(KeysOf(rows1), KeysOf(rows2));
    forall i | 0 <= i < |rows1| ensures rows1[i] == rows2[i] {
      assert KeysOf(rows1)[i] == KeysOf(rows2)[i];
      ReportedRowUnique(data1, data2, tolerance, rows1[i], rows2[i]);
    }
  }

  lemma ReportedRowUnique(data1: Record, data2: Record, tolerance: real, r1: Row, r2: Row)
    requires RowReports(data1, data2, tolerance, r1) && RowReports(data1, data2, tolerance, r2)
    requires r1.key == r2.key
    ensures r1 == r2
  {
  }

  /** The row with the two files' columns exchanged. */
  function SwapRow(r: Row): Row
  {
    Row(r.key, r.value2, r.value1, r.status)
  }

  /** Exchanging the two files exchanges the value columns and keeps every
      key and every status. */
  lemma ReportSwapped(data1: Record, data2: Record, tolerance: real, rows: seq<Row>)
    requires IsReport(data1, data2, tolerance, rows)
    ensures IsReport(data2, data1, tolerance, seq(|rows|, i requires 0 <= i < |rows| => SwapRow(rows[i])))
  {
    var swapped := seq(|rows|, i requires 0 <= i < |rows| => SwapRow(rows[i]));
    assert KeysOf(swapped) == KeysOf(rows);
    forall i | 0 <= i < |rows| ensures RowReports(data2, data1, tolerance, swapped[i]) {
      var k := rows[i].key;
      if k in data1 && k in data2 {
        assert Abs(data2[k] - data1[k]) == Abs(data1[k] - data2[k]);
      }
    }
  }

  /** Two records with the same keys that differ beyond the tolerance in
      exactly one key k: the report has exactly one FAIL row, k's, and every
      other row passes. */
  lemma SingleDifferenceOneFail(data1: Record, data2: Record, tolerance: real, rows: seq<Row>, k: string)
    requires IsReport(data1, data2, tolerance, rows)
    requires data1.Keys == data2.Keys && k in data1
    requires Abs(data1[k] - data2[k]) > tolerance
    requires forall j :: j in data1 && j != k ==> Abs(data1[j] - data2[j]) <= tolerance
    ensures exists i :: 0 <= i < |rows| && rows[i].key == k && rows[i].status == Fail
    ensures forall i :: 0 <= i < |rows| ==> (rows[i].status == Fail <==> rows[i].key == k)
    ensures forall i :: 0 <= i < |rows| && rows[i].key != k ==> rows[i].status == Pass
  {
    assert k in KeysOf(rows);
    var i :| 0 <= i < |rows| && KeysOf(rows)[i] == k;
    assert RowReports(data1, data2, tolerance, rows[i]);
    forall n | 0 <= n < |rows| ensures rows[n].key in data1 {
      assert KeysOf(rows)[n] in KeysOf(rows);
    }
  }
}
