/** Realigning over-long CSV rows to the width of the header. */
module RowRepair {
  import opened Sequences
  import opened Strings

  type Row = seq<string>

  /** `",".join`. */
  function JoinFields(fields: Row): string {
    if fields == [] then ""
    else if |fields| == 1 then fields[0]
    else fields[0] + "," + JoinFields(fields[1..])
  }

  // ---------- Keyword tests ----------

  function StripDots(s: string): string {
    if s != "" && s[|s| - 1] == '.' then StripDots(s[..|s| - 1]) else s
  }

  predicate IsSeverity(field: string) {
    StripDots(Lower(Strip(field))) in ["critical", "high", "medium", "low", "vital"]
  }

  /** How many digits `s` starts with. */
  function Digits(s: string): (n: nat)
    ensures n <= |s|
  {
    if s != "" && '0' <= s[0] <= '9' then 1 + Digits(s[1..]) else 0
  }

  predicate IsUnit(s: string) {
    s in ["d", "h", "m", "w"]
  }

  /** The pattern: a range like `3-7d` or `1/2`, a size, or a count with a unit. */
  predicate MatchesEffort(s: string) {
    var n := Digits(s);
    || s in ["xs", "s", "m", "l", "xl", "xxl"]
    || (n > 0 && IsUnit(s[n..]))
    || (n > 0 && n < |s| && (s[n] == '-' || s[n] == '/') &&
        var m := Digits(s[n + 1..]);
        m > 0 && (s[n + 1 + m..] == "" || IsUnit(s[n + 1 + m..])))
  }

  predicate IsEffort(field: string) {
    var val := Lower(Strip(field));
    val in ["xs", "s", "m", "l", "xl", "xxl", "3-7d"] || MatchesEffort(val)
  }

  // ---------- The repair ----------

  /** Merges extra fields into the last one. */
  function MergeTailSpec(row: Row, expected: nat): (r: Row)
    requires expected >= 1
  {
    if |row| <= expected then row else row[..expected - 1] + [JoinFields(row[expected - 1..])]
  }

  lemma {:induction false} JoinFieldsLast(fields: Row, a: string, b: string)
    ensures JoinFields(fields + [a + "," + b]) == JoinFields(fields + [a, b])
  {
    if fields == [] {
      assert JoinFields([a, b]) == a + "," + JoinFields([b]) by { assert [a, b][1..] == [b]; }
      assert [] + [a, b] == [a, b] && [] + [a + "," + b] == [a + "," + b];
      assert a + "," + b == a + ("," + b);
    } else {
      assert (fields + [a, b])[1..] == fields[1..] + [a, b];
      assert (fields + [a + "," + b])[1..] == fields[1..] + [a + "," + b];
      JoinFieldsLast(fields[1..], a, b);
    }
  }

  method MergeTail(row: Row, expected: nat) returns (result: Row)
    requires expected >= 1
    ensures result == MergeTailSpec(row, expected)
  {
    result := row;
    while |result| > expected
      invariant |result| >= expected || result == row
      invariant MergeTailSpec(result, expected) == MergeTailSpec(row, expected)
      decreases |result|
    {
      ghost var before := result;
      var last := result[|result| - 1];
      result := result[..|result| - 1];
      var n := |result| - 1;
      result := result[..n] + [result[n] + "," + last];
      MergeStep(before, expected);
      assert result == before[..n] + [before[n] + "," + before[n + 1]];
    }
  }

  lemma MergeStep(row: Row, expected: nat)
    requires 1 <= expected < |row|
    ensures var n := |row| - 2;
      MergeTailSpec(row[..n] + [row[n] + "," + row[n + 1]], expected) == MergeTailSpec(row, expected)
  {
    var n := |row| - 2;
    var merged := row[..n] + [row[n] + "," + row[n + 1]];
    var k := expected - 1;
    assert merged[..k] == row[..k];
    assert merged[k..] == row[k..n] + [row[n] + "," + row[n + 1]];
    assert row[k..] == row[k..n] + [row[n], row[n + 1]];
    JoinFieldsLast(row[k..n], row[n], row[n + 1]);
  }

  /** Index of the first field at or after `start` that passes the test. */
  function FirstFrom(fields: Row, start: nat, test: string -> bool): (idx: Option<nat>)
    ensures idx.Some? ==> start <= idx.value < |fields| && test(fields[idx.value])
    ensures forall j :: start <= j < (if idx.Some? then idx.value else |fields|) ==> !test(fields[j])
    decreases |fields| - start
  {
    if start >= |fields| then None else if test(fields[start]) then Some(start) else FirstFrom(fields, start + 1, test)
  }

  function FirstSeverity(fields: Row, start: nat): (idx: Option<nat>)
    ensures idx.Some? ==> start <= idx.value < |fields| && IsSeverity(fields[idx.value])
  {
    FirstFrom(fields, start, IsSeverity)
  }

  method FindSeverityIdx(fields: Row, start: nat) returns (idx: Option<nat>)
    ensures idx == FirstSeverity(fields, start)
  {
    hide IsSeverity;
    var i := start;
    while i < |fields|
      invariant FirstSeverity(fields, i) == FirstSeverity(fields, start)
    {
      if IsSeverity(fields[i]) {
        return Some(i);
      }
      i := i + 1;
    }
    idx := None;
  }

  /** Index of the last field that passes the test. */
  function LastWith(fields: Row, test: string -> bool): (idx: Option<nat>)
    ensures idx.Some? ==> idx.value < |fields| && test(fields[idx.value])
    ensures forall j :: (if idx.Some? then idx.value else -1) < j < |fields| ==> !test(fields[j])
  {
    if fields == [] then None
    else if test(fields[|fields| - 1]) then Some(|fields| - 1)
    else LastWith(fields[..|fields| - 1], test)
  }

  lemma LastWithUnique(fields: Row, test: string -> bool, m: nat)
    requires m < |fields| && test(fields[m]) && forall j :: m < j < |fields| ==> !test(fields[j])
    ensures LastWith(fields, test) == Some(m)
  {
  }

  function LastEffort(fields: Row): (idx: Option<nat>)
    ensures idx.Some? ==> idx.value < |fields|
  {
    LastWith(fields, IsEffort)
  }

  method MaxOf(xs: seq<nat>) returns (m: nat)
    requires xs != []
    ensures m in xs && forall x :: x in xs ==> x <= m
  {
    m := xs[0];
    for i := 1 to |xs|
      invariant m in xs && forall j :: 0 <= j < i ==> xs[j] <= m
    {
      if xs[i] > m {
        m := xs[i];
      }
    }
  }

  /** Despite its filter for late positions, this finds the last effort value, wherever it is. */
  method FindEffortInList(fields: Row) returns (idx: Option<nat>)
    ensures idx == LastEffort(fields)
  {
    hide IsEffort;
    var candidates: seq<nat> := [];
    for i := 0 to |fields|
      invariant forall j: nat :: j in candidates <==> j < i && IsEffort(fields[j])
    {
      if IsEffort(fields[i]) {
        candidates := candidates + [i];
      }
    }
    if candidates == [] {
      return None;
    }
    var late := (c: nat) => c >= |fields| - 3 || c >= 1;
    var tailCandidates := Select(candidates, late);
    var m;
    if tailCandidates != [] {
      m := MaxOf(tailCandidates);
    } else {
      m := MaxOf(candidates);
    }
    forall j | m < j < |fields| ensures !IsEffort(fields[j]) {
      assert late(j);
    }
    LastWithUnique(fields, IsEffort, m);
    idx := Some(m);
  }

  /** `_repair_buggy`: severity anchors the row; between it and the last field lies one merged field. */
  function RepairBuggy(row: Row, expected: nat): Row
    requires expected >= 1
  {
    match FirstSeverity(row, 5)
    case None => MergeTailSpec(row, expected)
    case Some(sev) =>
      var after := row[sev + 1..];
      var result := row[..sev + 1]
        + (if after == [] then ["", ""]
           else if |after| == 1 then [after[0], ""]
           else [JoinFields(after[..|after| - 1]), after[|after| - 1]]);
      if |result| != expected then MergeTailSpec(row, expected) else result
  }

  /** The last three of the eight columns: dependencies, effort and solution. */
  function AfterSeverity(after: Row): (r: Row)
    ensures |r| == 3
  {
    if |after| >= 3 then
      match LastEffort(after)
      case Some(e) => [JoinFields(after[..e]), after[e], JoinFields(after[e + 1..])]
      case None => [JoinFields(after[..|after| - 2]), after[|after| - 2], after[|after| - 1]]
    else if |after| == 2 then [after[0], after[1], ""]
    else if |after| == 1 then ["", after[0], ""]
    else ["", "", ""]
  }

  function RepairMissingSpec(row: Row): Row {
    match FirstSeverity(row, 3)
    case None => MergeTailSpec(row, 8)
    case Some(sev) => row[..3] + [JoinFields(row[3..sev])] + [row[sev]] + AfterSeverity(row[sev + 1..])
  }

  /** The second half of `_repair_missing`, which appends to the first five fields. */
  method AppendAfterSeverity(start: Row, after: Row) returns (result: Row)
    requires |start| == 5
    ensures result == start + AfterSeverity(after)
  {
    hide JoinFields, LastEffort;
    result := start;
    if |after| >= 3 {
      var effort := FindEffortInList(after);
      if effort.Some? {
        result := result + [JoinFields(after[..effort.value])];
        result := result + [after[effort.value]];
        result := result + [JoinFields(after[effort.value + 1..])];
        if |result| == 8 {
          return;
        }
        assert false;  // five fields before, three here
      }
      result := result + [JoinFields(after[..|after| - 2])];
      result := result + [after[|after| - 2]];
      result := result + [after[|after| - 1]];
    } else if |after| == 2 {
      result := result + [after[0], after[1], ""];
    } else if |after| == 1 {
      result := result + ["", after[0], ""];
    } else {
      result := result + ["", "", ""];
    }
  }

  method RepairMissing(row: Row) returns (result: Row)
    ensures result == RepairMissingSpec(row)
  {
    hide JoinFields, FirstSeverity, MergeTailSpec, AfterSeverity;
    var sevIdx := FindSeverityIdx(row, 3);
    if sevIdx.None? {
      result := MergeTail(row, 8);
      return;
    }
    var sev := sevIdx.value;
    result := row[..3];
    result := result + [JoinFields(row[3..sev])];
    result := result + [row[sev]];
    result := AppendAfterSeverity(result, row[sev + 1..]);
    if |result| == 8 {
      return;
    }
    assert false;  // eight fields on every path: the fallback that follows in the original is never taken
  }

  /** `None`: merging into an empty header raises an index error. */
  function RepairRow(row: Row, headers: seq<string>): Option<Row> {
    var expected := |headers|;
    if |row| <= expected then Some(row)
    else if expected == 0 then None
    else if "category" in headers then Some(MergeTailSpec(row, expected))
    else if "bug_type" in headers then Some(RepairBuggy(row, expected))
    else if "severity" in headers && "dependencies" in headers && "effort_estimate" in headers then
      var result := RepairMissingSpec(row);
      if |result| == expected then Some(result) else Some(MergeTailSpec(row, expected))
    else Some(MergeTailSpec(row, expected))
  }

  // ---------- Conservation ----------

  ghost predicate BlockAt(row: Row, result: Row, cuts: seq<nat>, i: nat) {
    && i < |result| && i + 1 < |cuts|
    && cuts[i] <= cuts[i + 1] <= |row|
    && result[i] == JoinFields(row[cuts[i]..cuts[i + 1]])
  }

  /** `cuts` splits `row` into consecutive, possibly empty, blocks, and the fields of `result` are
      those blocks, comma-joined: nothing lost, duplicated or moved. */
  ghost predicate Partition(row: Row, result: Row, cuts: seq<nat>) {
    && |cuts| == |result| + 1
    && cuts[0] == 0 && cuts[|result|] == |row|
    && (forall i: nat :: i < |result| ==> BlockAt(row, result, cuts, i))
  }

  ghost predicate Conserves(row: Row, result: Row) {
    exists cuts :: Partition(row, result, cuts)
  }

  lemma BlockConserves(row: Row)
    ensures Conserves(row, [JoinFields(row)])
  {
    assert row[0..|row|] == row;
    assert Partition(row, [JoinFields(row)], [0, |row|]);
  }

  lemma NothingConserves()
    ensures Conserves([], [])
  {
    assert Partition([], [], [0]);
  }

  lemma ConcatConserves(a: Row, ra: Row, b: Row, rb: Row)
    requires Conserves(a, ra) && Conserves(b, rb)
    ensures Conserves(a + b, ra + rb)
  {
    var ca :| Partition(a, ra, ca);
    var cb :| Partition(b, rb, cb);
    var row, result := a + b, ra + rb;
    var cuts: seq<nat> := seq(|result| + 1, i requires 0 <= i <= |result| =>
      if i <= |ra| then ca[i] else |a| + cb[i - |ra|]);
    forall i: nat | i < |result| ensures BlockAt(row, result, cuts, i) {
      if i < |ra| {
        assert BlockAt(a, ra, ca, i);
        assert row[ca[i]..ca[i + 1]] == a[ca[i]..ca[i + 1]];
      } else {
        var k := i - |ra|;
        assert BlockAt(b, rb, cb, k);
        assert row[|a| + cb[k]..|a| + cb[k + 1]] == b[cb[k]..cb[k + 1]];
        assert cuts[i] == |a| + cb[k];
      }
    }
    assert Partition(row, result, cuts);
  }

  lemma {:induction false} SameConserves(row: Row)
    ensures Conserves(row, row)
  {
    if row == [] {
      NothingConserves();
    } else {
      BlockConserves(row[..1]);
      assert [JoinFields(row[..1])] == row[..1];
      SameConserves(row[1..]);
      ConcatConserves(row[..1], row[..1], row[1..], row[1..]);
      assert row[..1] + row[1..] == row;
    }
  }

  lemma MergeTailConserves(row: Row, expected: nat)
    requires expected >= 1
    ensures Conserves(row, MergeTailSpec(row, expected))
  {
    SameConserves(row);
    if |row| > expected {
      var k := expected - 1;
      SameConserves(row[..k]);
      BlockConserves(row[k..]);
      ConcatConserves(row[..k], row[..k], row[k..], [JoinFields(row[k..])]);
      assert row[..k] + row[k..] == row;
    }
  }

  /** Two joined blocks next to each other. */
  lemma TwoBlocks(a: Row, b: Row)
    ensures Conserves(a + b, [JoinFields(a), JoinFields(b)])
  {
    BlockConserves(a);
    BlockConserves(b);
    ConcatConserves(a, [JoinFields(a)], b, [JoinFields(b)]);
    assert [JoinFields(a)] + [JoinFields(b)] == [JoinFields(a), JoinFields(b)];
  }

  lemma ThreeBlocks(a: Row, b: Row, c: Row)
    ensures Conserves(a + b + c, [JoinFields(a), JoinFields(b), JoinFields(c)])
  {
    TwoBlocks(a, b);
    BlockConserves(c);
    ConcatConserves(a + b, [JoinFields(a), JoinFields(b)], c, [JoinFields(c)]);
    assert [JoinFields(a), JoinFields(b)] + [JoinFields(c)] == [JoinFields(a), JoinFields(b), JoinFields(c)];
  }

  lemma BuggyConserves(row: Row, expected: nat)
    requires expected >= 1
    ensures Conserves(row, RepairBuggy(row, expected))
  {
    hide Conserves, FirstSeverity, MergeTailSpec;
    MergeTailConserves(row, expected);
    var sev := FirstSeverity(row, 5);
    if sev.Some? {
      var before, after := row[..sev.value + 1], row[sev.value + 1..];
      var k := if after == [] then 0 else if |after| == 1 then 1 else |after| - 1;
      TwoBlocks(after[..k], after[k..]);
      assert after[..k] + after[k..] == after;
      SameConserves(before);
      ConcatConserves(before, before, after, [JoinFields(after[..k]), JoinFields(after[k..])]);
      assert before + after == row;
    }
  }

  lemma AfterSeverityConserves(after: Row)
    ensures Conserves(after, AfterSeverity(after))
  {
    hide Conserves, LastEffort;
    var e := LastEffort(after);
    var i, j :=
      if |after| >= 3 then (if e.Some? then e.value else |after| - 2)
      else if |after| == 2 then 1 else 0,
      if |after| >= 3 then (if e.Some? then e.value + 1 else |after| - 1)
      else |after|;
    ThreeBlocks(after[..i], after[i..j], after[j..]);
    assert after[..i] + after[i..j] + after[j..] == after;
  }

  /** Columns three and four: the joined fields before the severity, and the severity itself. */
  lemma SeverityConserves(row: Row, s: nat)
    requires 3 <= s < |row|
    ensures Conserves(row[..s + 1], row[..3] + [JoinFields(row[3..s])] + [row[s]])
  {
    hide Conserves;
    var mid, sev := row[3..s], row[s..s + 1];
    TwoBlocks(mid, sev);
    SameConserves(row[..3]);
    assert JoinFields(sev) == row[s];
    hide JoinFields;
    ConcatConserves(row[..3], row[..3], mid + sev, [JoinFields(mid), JoinFields(sev)]);
    assert row[..3] + (mid + sev) == row[..s + 1];
    assert row[..3] + [JoinFields(mid), JoinFields(sev)] == row[..3] + [JoinFields(mid)] + [row[s]];
  }

  lemma MissingConserves(row: Row)
    ensures Conserves(row, RepairMissingSpec(row))
  {
    hide Conserves, AfterSeverity, FirstSeverity, JoinFields, MergeTailSpec;
    MergeTailConserves(row, 8);
    var sev := FirstSeverity(row, 3);
    if sev.Some? {
      var s := sev.value;
      var after := row[s + 1..];
      SeverityConserves(row, s);
      AfterSeverityConserves(after);
      ConcatConserves(row[..s + 1], row[..3] + [JoinFields(row[3..s])] + [row[s]], after, AfterSeverity(after));
      assert row[..s + 1] + after == row;
    }
  }

  /** Repairing an over-long row gives exactly one field per header, on every branch and fallback,
      and the fields partition the raw row in order; only an empty header makes it raise.  Any other row
      stays as it is. */
  lemma {:induction false} RepairConserves(row: Row, headers: seq<string>)
    ensures RepairRow(row, headers).None? <==> |row| > 0 == |headers|
    ensures |row| <= |headers| ==> RepairRow(row, headers) == Some(row)
    ensures |row| > |headers| > 0 ==>
      |RepairRow(row, headers).value| == |headers| && Conserves(row, RepairRow(row, headers).value)
  {
    hide Conserves, FirstSeverity, AfterSeverity, JoinFields;
    if |row| > |headers| > 0 {
      MergeTailConserves(row, |headers|);
      BuggyConserves(row, |headers|);
      MissingConserves(row);
    }
  }

  /** Rows without a usable anchor keep every column but the last. */
  lemma UnanchoredColumns(row: Row, headers: seq<string>)
    requires |row| > |headers| > 0
    requires "category" in headers
          || ("bug_type" !in headers && !("severity" in headers && "dependencies" in headers && "effort_estimate" in headers))
    ensures RepairRow(row, headers).value[..|headers| - 1] == row[..|headers| - 1]
  {
    hide JoinFields, RepairBuggy, RepairMissingSpec;
  }

  /** A bug row whose first severity (from column 5 on) sits in the third column from the end of the
      header keeps everything up to it, and its last field; any other keeps all columns but the last,
      which takes all that is left. */
  lemma BugColumns(row: Row, headers: seq<string>)
    requires |row| > |headers| > 0 && "category" !in headers && "bug_type" in headers
    ensures var r, n := RepairRow(row, headers).value, |headers|;
      if FirstSeverity(row, 5) == Some(n - 3)
      then r[..n - 2] == row[..n - 2] && r[n - 1] == row[|row| - 1] && r[n - 2] == JoinFields(row[n - 2..|row| - 1])
      else r[..n - 1] == row[..n - 1] && r[n - 1] == JoinFields(row[n - 1..])
  {
    hide FirstSeverity, JoinFields, RepairMissingSpec, IsSeverity;
    assert RepairRow(row, headers) == Some(RepairBuggy(row, |headers|));
    if FirstSeverity(row, 5) == Some(|headers| - 3) {
      var after := row[|headers| - 2..];
      assert |after| > 1 && after[..|after| - 1] == row[|headers| - 2..|row| - 1];
    }
  }

  /** A missing-component row keeps three columns, joins what comes before its first severity (from
      column 3 on) and gets that severity in column 4.  Column 6 is its last effort value if three or
      more fields follow and one of them is an effort, the last but one if none is; of two fields or
      fewer it is the last, and column 7 stays empty. */
  lemma MissingColumns(row: Row, s: nat)
    requires FirstSeverity(row, 3) == Some(s)
    ensures var r, after := RepairMissingSpec(row), row[s + 1..];
      && |r| == 8 && r[..3] == row[..3] && s >= 3 && r[3] == JoinFields(row[3..s]) && r[4] == row[s]
      && r[5..] == AfterSeverity(after)
    ensures var r, after := RepairMissingSpec(row), row[s + 1..];
      if |after| < 3 then r[6] == (if after == [] then "" else after[|after| - 1]) && r[7] == ""
      else r[6] == after[if LastEffort(after).Some? then LastEffort(after).value else |after| - 2]
  {
    var after := row[s + 1..];
    EffortColumn(after);
    hide FirstSeverity, LastEffort, JoinFields, AfterSeverity, IsSeverity;
    assert RepairMissingSpec(row)[5..] == AfterSeverity(after);
    assert RepairMissingSpec(row)[6] == RepairMissingSpec(row)[5..][1];
    assert RepairMissingSpec(row)[7] == RepairMissingSpec(row)[5..][2];
  }

  lemma EffortColumn(after: Row)
    ensures if |after| < 3 then
        AfterSeverity(after)[1] == (if after == [] then "" else after[|after| - 1]) && AfterSeverity(after)[2] == ""
      else AfterSeverity(after)[1] == after[if LastEffort(after).Some? then LastEffort(after).value else |after| - 2]
  {
    hide LastEffort, JoinFields;
  }

  /** Text of the fields without any commas. */
  function Letters(fields: Row): string {
    if fields == [] then "" else Select(fields[0], c => c != ',') + Letters(fields[1..])
  }

  lemma {:induction false} SelectConcat(s: string, t: string)
    ensures Select(s + t, c => c != ',') == Select(s, c => c != ',') + Select(t, c => c != ',')
  {
    if s == "" {
      assert s + t == t;
    } else {
      assert (s + t)[1..] == s[1..] + t;
      SelectConcat(s[1..], t);
    }
  }

  lemma {:induction false} LettersOfJoin(fields: Row)
    ensures Select(JoinFields(fields), c => c != ',') == Letters(fields)
  {
    if |fields| == 1 {
      assert Letters(fields[1..]) == "";
    } else if |fields| > 1 {
      LettersOfJoin(fields[1..]);
      SelectConcat(fields[0] + ",", JoinFields(fields[1..]));
      SelectConcat(fields[0], ",");
      assert Select(",", c => c != ',') == "";
    }
  }

  lemma {:induction false} LettersConcat(a: Row, b: Row)
    ensures Letters(a + b) == Letters(a) + Letters(b)
  {
    if a == [] {
      assert a + b == b;
    } else {
      assert (a + b)[1..] == a[1..] + b;
      LettersConcat(a[1..], b);
    }
  }

  lemma {:induction false} PartitionKeepsLetters(row: Row, result: Row, cuts: seq<nat>, n: nat)
    requires Partition(row, result, cuts) && n <= |result|
    ensures cuts[n] <= |row| && Letters(result[..n]) == Letters(row[..cuts[n]])
  {
    if n > 0 {
      PartitionKeepsLetters(row, result, cuts, n - 1);
      assert BlockAt(row, result, cuts, n - 1);
      var block := row[cuts[n - 1]..cuts[n]];
      assert row[..cuts[n]] == row[..cuts[n - 1]] + block;
      assert result[..n] == result[..n - 1] + [result[n - 1]];
      LettersConcat(row[..cuts[n - 1]], block);
      LettersConcat(result[..n - 1], [result[n - 1]]);
      LettersOfJoin(block);
      assert Letters([result[n - 1]]) == Select(result[n - 1], c => c != ',');
    }
  }

  /** Apart from commas, a repaired row reads exactly like the raw one. */
  lemma RepairKeepsText(row: Row, headers: seq<string>)
    requires |headers| > 0
    ensures Letters(RepairRow(row, headers).value) == Letters(row)
  {
    if |row| > |headers| {
      RepairConserves(row, headers);
      var result := RepairRow(row, headers).value;
      var cuts :| Partition(row, result, cuts);
      PartitionKeepsLetters(row, result, cuts, |result|);
      assert result[..|result|] == result && row[..cuts[|result|]] == row;
    }
  }
}
