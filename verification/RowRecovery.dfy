/** When realigning gives back the row that was written: its fields were split at unquoted commas. */
module RowRecovery {
  import opened Sequences
  import opened RowRepair

  // ---------- Splitting at commas ----------

  /** A field written without quotes, as it is read back. */
  function Pieces(field: string): (r: Row)
    ensures r != []
  {
    if field == "" then [""]
    else
      var rest := Pieces(field[1..]);
      if field[0] == ',' then [""] + rest else [[field[0]] + rest[0]] + rest[1..]
  }

  function Fragments(row: Row): Row {
    if row == [] then [] else Pieces(row[0]) + Fragments(row[1..])
  }

  predicate Plain(field: string) {
    ',' !in field
  }

  predicate AllPlain(row: Row) {
    forall i :: 0 <= i < |row| ==> Plain(row[i])
  }

  /** Only column `c` may contain a comma. */
  predicate PlainBut(row: Row, c: int) {
    forall i :: 0 <= i < |row| && i != c ==> Plain(row[i])
  }

  lemma {:induction false} JoinPieces(field: string)
    ensures JoinFields(Pieces(field)) == field
  {
    if field != "" {
      var rest := Pieces(field[1..]);
      JoinPieces(field[1..]);
      if field[0] == ',' {
        assert Pieces(field)[1..] == rest;
      } else {
        assert Pieces(field)[1..] == rest[1..] && Pieces(field)[0] == [field[0]] + rest[0];
      }
    }
  }

  lemma {:induction false} PiecesPlain(field: string)
    ensures AllPlain(Pieces(field))
    ensures Plain(field) <==> |Pieces(field)| == 1
    ensures Plain(field) ==> Pieces(field) == [field]
  {
    if field != "" {
      PiecesPlain(field[1..]);
      assert [field[0]] + field[1..] == field;
    }
  }

  lemma {:induction false} PiecesOfPlainPrefix(head: string, field: string)
    requires Plain(head)
    ensures Pieces(head + field) == [head + Pieces(field)[0]] + Pieces(field)[1..]
  {
    if head == "" {
      assert head + field == field && "" + Pieces(field)[0] == Pieces(field)[0];
    } else {
      assert (head + field)[1..] == head[1..] + field;
      PiecesOfPlainPrefix(head[1..], field);
      assert [head[0]] + (head[1..] + Pieces(field)[0]) == head + Pieces(field)[0];
    }
  }

  lemma {:induction false} PiecesOfJoin(block: Row)
    requires block != [] && AllPlain(block)
    ensures Pieces(JoinFields(block)) == block
  {
    if |block| == 1 {
      PiecesPlain(block[0]);
    } else {
      var rest := "," + JoinFields(block[1..]);
      PiecesOfJoin(block[1..]);
      assert rest[1..] == JoinFields(block[1..]);
      PiecesOfPlainPrefix(block[0], rest);
      assert JoinFields(block) == block[0] + rest && block[0] + "" == block[0];
    }
  }

  lemma {:induction false} FragmentsConcat(a: Row, b: Row)
    ensures Fragments(a + b) == Fragments(a) + Fragments(b)
  {
    if a == [] {
      assert a + b == b;
    } else {
      assert (a + b)[1..] == a[1..] + b;
      FragmentsConcat(a[1..], b);
    }
  }

  lemma {:induction false} FragmentsPlain(row: Row)
    ensures AllPlain(Fragments(row)) && |Fragments(row)| >= |row|
    ensures AllPlain(row) ==> Fragments(row) == row
    ensures |Fragments(row)| == |row| ==> AllPlain(row)
  {
    if row != [] {
      PiecesPlain(row[0]);
      FragmentsPlain(row[1..]);
    }
  }

  lemma FragmentsOfOne(field: string)
    ensures Fragments([field]) == Pieces(field)
  {
    assert Fragments([field][1..]) == [];
  }

  /** Where the fragments of column `i` start. */
  function Start(row: Row, i: nat): nat
    requires i <= |row|
  {
    |Fragments(row[..i])|
  }

  lemma StartStep(row: Row, i: nat)
    requires i < |row|
    ensures Start(row, i + 1) == Start(row, i) + |Pieces(row[i])|
  {
    assert row[..i + 1] == row[..i] + [row[i]];
    FragmentsConcat(row[..i], [row[i]]);
    FragmentsOfOne(row[i]);
  }

  // ---------- A recovered row is cut where it was split ----------

  /** A non-empty block that joins up to a column consists of that column's fragments. */
  lemma BlockFits(want: Row, cuts: seq<nat>, i: nat)
    requires Partition(Fragments(want), want, cuts) && i < |want|
    ensures cuts[i] <= cuts[i + 1] <= cuts[i] + |Pieces(want[i])| && cuts[i + 1] <= |Fragments(want)|
    ensures cuts[i] < cuts[i + 1] ==> Fragments(want)[cuts[i]..cuts[i + 1]] == Pieces(want[i])
  {
    assert BlockAt(Fragments(want), want, cuts, i);
    if cuts[i] < cuts[i + 1] {
      FragmentsPlain(want);
      PiecesOfJoin(Fragments(want)[cuts[i]..cuts[i + 1]]);
    }
  }

  lemma {:induction false} CutsNotAhead(want: Row, cuts: seq<nat>, i: nat)
    requires Partition(Fragments(want), want, cuts) && i <= |want|
    ensures cuts[i] <= Start(want, i)
  {
    if i > 0 {
      CutsNotAhead(want, cuts, i - 1);
      BlockFits(want, cuts, i - 1);
      StartStep(want, i - 1);
    }
  }

  lemma {:induction false} CutsNotBehind(want: Row, cuts: seq<nat>, i: nat)
    requires Partition(Fragments(want), want, cuts) && i <= |want|
    ensures cuts[i] >= Start(want, i)
    decreases |want| - i
  {
    if i < |want| {
      CutsNotBehind(want, cuts, i + 1);
      BlockFits(want, cuts, i);
      StartStep(want, i);
    } else {
      assert want[..i] == want;
    }
  }

  /** However the fragments are cut, if the blocks join up to the written row then every block holds
      exactly the fragments of its column. */
  lemma CutsAreForced(want: Row, cuts: seq<nat>, i: nat)
    requires Partition(Fragments(want), want, cuts) && i < |want|
    ensures cuts[i] <= cuts[i + 1] <= |Fragments(want)|
    ensures Fragments(want)[cuts[i]..cuts[i + 1]] == Pieces(want[i])
  {
    CutsNotAhead(want, cuts, i);
    CutsNotBehind(want, cuts, i);
    CutsNotAhead(want, cuts, i + 1);
    CutsNotBehind(want, cuts, i + 1);
    StartStep(want, i);
    BlockFits(want, cuts, i);
  }

  lemma OneFragmentIsPlain(want: Row, cuts: seq<nat>, i: nat)
    requires Partition(Fragments(want), want, cuts) && i < |want| && cuts[i + 1] == cuts[i] + 1
    ensures Plain(want[i])
  {
    CutsAreForced(want, cuts, i);
    PiecesPlain(want[i]);
  }

  /** A row with commas in one column only. */
  lemma FragmentsPlainBut(want: Row, c: nat)
    requires c < |want| && PlainBut(want, c)
    ensures Fragments(want) == want[..c] + Pieces(want[c]) + want[c + 1..]
  {
    hide Fragments, Pieces, Plain;
    assert want == want[..c] + ([want[c]] + want[c + 1..]);
    FragmentsConcat(want[..c], [want[c]] + want[c + 1..]);
    FragmentsConcat([want[c]], want[c + 1..]);
    FragmentsOfOne(want[c]);
    FragmentsPlain(want[..c]);
    FragmentsPlain(want[c + 1..]);
  }

  /** Such a row up to column `c`, in column `c`, and after it. */
  lemma AroundColumn(want: Row, c: nat)
    requires c < |want| && PlainBut(want, c)
    ensures var row := Fragments(want);
      var end := |row| - (|want| - c - 1);
      c <= end && row[..c] == want[..c] && row[c..end] == Pieces(want[c]) && row[end..] == want[c + 1..]
  {
    FragmentsPlainBut(want, c);
  }

  // ---------- Rows merged at the tail ----------

  lemma MergeRecovers(want: Row)
    requires want != [] && |Fragments(want)| > |want|
    ensures MergeTailSpec(Fragments(want), |want|) == want <==> PlainBut(want, |want| - 1)
  {
    var row, n := Fragments(want), |want|;
    if MergeTailSpec(row, n) == want {
      var cuts := MergeCuts(row, n);
      MergePartition(row, n);
      forall i | 0 <= i < n - 1 ensures Plain(want[i]) {
        OneFragmentIsPlain(want, cuts, i);
      }
    }
    if PlainBut(want, n - 1) {
      AroundColumn(want, n - 1);
      JoinPieces(want[n - 1]);
      hide Fragments, Pieces, JoinFields;
      assert row[n - 1..] == Pieces(want[n - 1]);
    }
  }

  function MergeCuts(row: Row, n: nat): seq<nat> {
    seq(n, i => i) + [|row|]
  }

  lemma MergePartition(row: Row, n: nat)
    requires 0 < n < |row|
    ensures Partition(row, MergeTailSpec(row, n), MergeCuts(row, n))
  {
    var result, cuts := MergeTailSpec(row, n), MergeCuts(row, n);
    forall i: nat | i < n ensures BlockAt(row, result, cuts, i) {
      if i < n - 1 {
        assert row[i..i + 1] == [row[i]];
      } else {
        assert row[i..|row|] == row[n - 1..];
      }
    }
  }

  predicate IsMissing(headers: seq<string>) {
    "severity" in headers && "dependencies" in headers && "effort_estimate" in headers
  }

  /** Category rows and rows of no known kind come back exactly when only the last column has commas. */
  lemma UnanchoredRowsRecover(want: Row, headers: seq<string>)
    requires |want| == |headers| && ("category" in headers || ("bug_type" !in headers && !IsMissing(headers)))
    ensures RepairRow(Fragments(want), headers) == Some(want) <==> PlainBut(want, |want| - 1)
  {
    FragmentsPlain(want);
    if |Fragments(want)| > |want| && want != [] {
      MergeRecovers(want);
    }
  }

  // ---------- Bug rows ----------

  lemma SameAnchor(a: Row, b: Row, start: nat, m: nat)
    requires m < |a| && m < |b| && a[..m + 1] == b[..m + 1]
    ensures FirstSeverity(a, start) == Some(m) <==> FirstSeverity(b, start) == Some(m)
  {
    hide IsSeverity;
    assert forall j :: 0 <= j <= m ==> a[j] == a[..m + 1][j] == b[..m + 1][j] == b[j];
  }

  lemma BuggyLayout(row: Row, n: nat)
    requires 0 < n < |row|
    ensures RepairBuggy(row, n) ==
      if FirstSeverity(row, 5) == Some(n - 3)
      then row[..n - 2] + [JoinFields(row[n - 2..|row| - 1]), row[|row| - 1]] else MergeTailSpec(row, n)
  {
    hide JoinFields, FirstSeverity, IsSeverity;
    if FirstSeverity(row, 5) == Some(n - 3) {
      var after := row[n - 2..];
      assert |after| > 1 && after[..|after| - 1] == row[n - 2..|row| - 1] && after[|after| - 1] == row[|row| - 1];
    }
  }

  function BuggyCuts(row: Row, n: nat): seq<nat>
    requires 1 < n < |row|
  {
    seq(n - 1, i => i) + [|row| - 1, |row|]
  }

  lemma BuggyPartition(row: Row, n: nat)
    requires 5 < n < |row| && FirstSeverity(row, 5) == Some(n - 3)
    ensures Partition(row, RepairBuggy(row, n), BuggyCuts(row, n))
  {
    hide FirstSeverity, RepairBuggy, JoinFields, MergeTailSpec;
    BuggyLayout(row, n);
    var result, cuts := RepairBuggy(row, n), BuggyCuts(row, n);
    forall i: nat | i < n ensures BlockAt(row, result, cuts, i) {
      assert cuts[i] == if i == n - 1 then |row| - 1 else i;
      if i != n - 2 {
        SingleBlock(row, cuts[i]);
      }
    }
  }

  lemma SingleBlock(row: Row, i: nat)
    requires i < |row|
    ensures JoinFields(row[i..i + 1]) == row[i]
  {
  }

  lemma RecoveredBugIsPlain(want: Row)
    requires 5 < |want| < |Fragments(want)| && FirstSeverity(Fragments(want), 5) == Some(|want| - 3)
    requires RepairBuggy(Fragments(want), |want|) == want
    ensures PlainBut(want, |want| - 2)
  {
    var row, n := Fragments(want), |want|;
    BuggyPartition(row, n);
    hide FirstSeverity, RepairBuggy, Partition, Fragments;
    forall i | 0 <= i < n && i != n - 2 ensures Plain(want[i]) {
      OneFragmentIsPlain(want, BuggyCuts(row, n), i);
    }
  }

  lemma PlainBugRecovers(want: Row)
    requires 5 < |want| < |Fragments(want)| && FirstSeverity(Fragments(want), 5) == Some(|want| - 3)
    requires PlainBut(want, |want| - 2)
    ensures RepairBuggy(Fragments(want), |want|) == want
  {
    hide *;
    var n := |want|;
    BuggyLayout(Fragments(want), n);
    FragmentsPlainBut(want, n - 2);
    assert want[n - 1..] == [want[n - 1]];
    InThreeParts(want[..n - 2], Pieces(want[n - 2]), want[n - 1]);
    JoinPieces(want[n - 2]);
    assert want == want[..n - 2] + [want[n - 2], want[n - 1]];
  }

  lemma InThreeParts(a: Row, b: Row, last: string)
    ensures var row := a + b + [last];
      row[..|a|] == a && row[|a|..|row| - 1] == b && row[|row| - 1] == last
  {
  }

  /** Commas after the severity do not move it. */
  lemma BugAnchorStays(want: Row)
    requires PlainBut(want, |want| - 1) || PlainBut(want, |want| - 2)
    ensures FirstSeverity(Fragments(want), 5) == Some(|want| - 3) <==> FirstSeverity(want, 5) == Some(|want| - 3)
  {
    var n := |want|;
    hide *;
    if n >= 3 {
      var c := if PlainBut(want, n - 1) then n - 1 else n - 2;
      AroundColumn(want, c);
      FragmentsPlain(want);
      assert Fragments(want)[..n - 2] == Fragments(want)[..c][..n - 2] == want[..c][..n - 2] == want[..n - 2];
      SameAnchor(Fragments(want), want, 5, n - 3);
    }
  }

  /** A bug row comes back exactly when commas occur only in the column after its severity, if that is
      in the third column from the end, and only in the last column otherwise. */
  lemma BugRowsRecover(want: Row, headers: seq<string>)
    requires |want| == |headers| && "category" !in headers && "bug_type" in headers
    ensures RepairRow(Fragments(want), headers) == Some(want) <==>
            PlainBut(want, if FirstSeverity(want, 5) == Some(|want| - 3) then |want| - 2 else |want| - 1)
  {
    var row, n := Fragments(want), |want|;
    FragmentsPlain(want);
    if |row| > n {
      BuggyLayout(row, n);
      MergeRecovers(want);
      if PlainBut(want, n - 1) || PlainBut(want, n - 2) {
        BugAnchorStays(want);
      }
      if FirstSeverity(row, 5) == Some(n - 3) {
        if RepairBuggy(row, n) == want {
          RecoveredBugIsPlain(want);
        }
        if PlainBut(want, n - 2) {
          PlainBugRecovers(want);
        }
      }
      hide FirstSeverity, MergeTailSpec, RepairBuggy, JoinFields;
    }
  }

  // ---------- Missing-component rows ----------

  predicate NoSeverity(fields: Row) {
    forall i :: 0 <= i < |fields| ==> !IsSeverity(fields[i])
  }

  predicate NoEffort(fields: Row) {
    forall i :: 0 <= i < |fields| ==> !IsEffort(fields[i])
  }

  /** The anchors stand out: the severity in column 4 is the first after column 2, the effort in column
      6 is the last after the severity; or, without any effort, no comma follows column 5. */
  predicate Anchored(want: Row)
    requires |want| == 8
  {
    && Plain(want[0]) && Plain(want[1]) && Plain(want[2]) && Plain(want[4]) && Plain(want[6])
    && NoSeverity(Pieces(want[3])) && IsSeverity(want[4])
    && if IsEffort(want[6]) then NoEffort(Pieces(want[7]))
       else NoEffort(Pieces(want[5])) && NoEffort([want[7]]) && Plain(want[7])
  }

  predicate Unanchored(want: Row)
    requires |want| == 8
  {
    PlainBut(want, 7) && NoSeverity(want[3..7]) && NoSeverity(Pieces(want[7]))
  }

  /** The fragments of column 6 within those after the severity. */
  function EffortSpan(after: Row): (r: (nat, nat))
    ensures r.0 <= r.1 <= |after|
  {
    if |after| < 3 then (if |after| == 2 then 1 else 0, |after|)
    else match LastEffort(after) case Some(e) => (e, e + 1) case None => (|after| - 2, |after| - 1)
  }

  function MissingCuts(row: Row, s: nat): seq<nat>
    requires s < |row|
  {
    var span := EffortSpan(row[s + 1..]);
    [0, 1, 2, 3, s, s + 1, s + 1 + span.0, s + 1 + span.1, |row|]
  }

  lemma AfterSeverityBlocks(after: Row)
    ensures var span := EffortSpan(after);
      AfterSeverity(after) == [JoinFields(after[..span.0]), JoinFields(after[span.0..span.1]), JoinFields(after[span.1..])]
  {
    hide LastEffort;
  }

  lemma MissingLayout(row: Row, s: nat)
    requires FirstSeverity(row, 3) == Some(s)
    ensures RepairMissingSpec(row) == [row[0], row[1], row[2], JoinFields(row[3..s]), row[s]] + AfterSeverity(row[s + 1..])
  {
    hide FirstSeverity, JoinFields, AfterSeverity, IsSeverity;
  }

  lemma MissingBlockAt(row: Row, s: nat, i: nat)
    requires FirstSeverity(row, 3) == Some(s) && i < 8
    ensures BlockAt(row, RepairMissingSpec(row), MissingCuts(row, s), i)
  {
    hide FirstSeverity, LastEffort, RepairMissingSpec, JoinFields, AfterSeverity, EffortSpan, IsSeverity, BlockAt;
    var after := row[s + 1..];
    var span := EffortSpan(after);
    AfterSeverityBlocks(after);
    MissingLayout(row, s);
    assert MissingCuts(row, s) == [0, 1, 2, 3, s, s + 1, s + 1 + span.0, s + 1 + span.1, |row|];
    BlocksOfEight(row, s, span.0, span.1, RepairMissingSpec(row), MissingCuts(row, s), i);
  }

  lemma BlocksOfEight(row: Row, s: nat, d: nat, e: nat, result: Row, cuts: seq<nat>, i: nat)
    requires 3 <= s < |row| && d <= e <= |row| - s - 1 && i < 8
    requires cuts == [0, 1, 2, 3, s, s + 1, s + 1 + d, s + 1 + e, |row|]
    requires var after := row[s + 1..];
      result == [row[0], row[1], row[2], JoinFields(row[3..s]), row[s]]
                + [JoinFields(after[..d]), JoinFields(after[d..e]), JoinFields(after[e..])]
    ensures BlockAt(row, result, cuts, i)
  {
    hide JoinFields;
    var after := row[s + 1..];
    if i == 5 {
      assert after[..d] == row[s + 1..s + 1 + d];
    } else if i == 6 {
      assert after[d..e] == row[s + 1 + d..s + 1 + e];
    } else if i == 7 {
      assert after[e..] == row[s + 1 + e..|row|];
    } else if i != 3 {
      SingleBlock(row, cuts[i]);
    }
  }

  lemma MissingPartition(row: Row, s: nat)
    requires FirstSeverity(row, 3) == Some(s)
    ensures Partition(row, RepairMissingSpec(row), MissingCuts(row, s))
  {
    hide BlockAt, FirstSeverity, RepairMissingSpec, JoinFields, EffortSpan, AfterSeverity, IsSeverity, LastEffort;
    MissingLayout(row, s);
    forall i: nat | i < 8 ensures BlockAt(row, RepairMissingSpec(row), MissingCuts(row, s), i) {
      MissingBlockAt(row, s, i);
    }
  }

  /** The columns of a recovered row with its severity at `s` of the fragments, effort at `d..e` after it. */
  lemma RecoveredColumns(want: Row, s: nat)
    requires |want| == 8 && FirstSeverity(Fragments(want), 3) == Some(s) && RepairMissingSpec(Fragments(want)) == want
    ensures Plain(want[0]) && Plain(want[1]) && Plain(want[2]) && Plain(want[4])
    ensures Pieces(want[3]) == Fragments(want)[3..s] && want[4] == Fragments(want)[s]
    ensures var after := Fragments(want)[s + 1..];
      var span := EffortSpan(after);
      Pieces(want[5]) == after[..span.0] && Pieces(want[6]) == after[span.0..span.1] && Pieces(want[7]) == after[span.1..]
  {
    hide FirstSeverity, LastEffort, RepairMissingSpec, JoinFields, EffortSpan, IsSeverity, Partition, Fragments, Pieces;
    var row, cuts := Fragments(want), MissingCuts(Fragments(want), s);
    MissingPartition(row, s);
    CutsAreForced(want, cuts, 3);
    CutsAreForced(want, cuts, 4);
    CutsAreForced(want, cuts, 5);
    CutsAreForced(want, cuts, 6);
    CutsAreForced(want, cuts, 7);
    OneFragmentIsPlain(want, cuts, 0);
    OneFragmentIsPlain(want, cuts, 1);
    OneFragmentIsPlain(want, cuts, 2);
    OneFragmentIsPlain(want, cuts, 4);
    PiecesPlain(want[4]);
    assert row[s..s + 1] == [row[s]];
    var after, span := row[s + 1..], EffortSpan(row[s + 1..]);
    SliceOfRest(row, s + 1, 0, span.0);
    SliceOfRest(row, s + 1, span.0, span.1);
    SliceOfRest(row, s + 1, span.1, |after|);
  }

  lemma SliceOfRest(row: Row, from: nat, a: nat, b: nat)
    requires from <= |row| && a <= b <= |row| - from
    ensures row[from + a..from + b] == row[from..][a..b]
  {
  }

  lemma EffortColumns(p5: Row, effort: string, p6: Row, p7: Row)
    requires p5 != [] && p7 != [] && p6 == Pieces(effort)
    requires var after, span := p5 + p6 + p7, EffortSpan(p5 + p6 + p7); span == (|p5|, |p5| + |p6|)
    ensures Plain(effort)
    ensures IsEffort(effort) ==> NoEffort(p7)
    ensures !IsEffort(effort) ==> NoEffort(p5) && NoEffort(p7) && |p7| == 1
  {
    hide IsEffort, Pieces;
    var after := p5 + p6 + p7;
    PiecesPlain(effort);
    assert |after| >= 3;
    assert after[|p5|] == p6[0];
    assert forall j :: 0 <= j < |p5| ==> after[j] == p5[j];
    assert forall j :: 0 <= j < |p7| ==> after[|p5| + |p6| + j] == p7[j];
  }

  lemma NoSeverityBefore(row: Row, s: nat)
    requires FirstSeverity(row, 3) == Some(s)
    ensures NoSeverity(row[3..s]) && IsSeverity(row[s])
  {
    hide IsSeverity;
    assert forall j :: 0 <= j < s - 3 ==> row[3..s][j] == row[3 + j];
  }

  lemma RecoveredIsAnchored(want: Row, s: nat)
    requires |want| == 8 && FirstSeverity(Fragments(want), 3) == Some(s) && RepairMissingSpec(Fragments(want)) == want
    ensures Anchored(want)
  {
    hide FirstSeverity, LastEffort, RepairMissingSpec, JoinFields, EffortSpan, IsSeverity, IsEffort, Fragments, Pieces;
    var row := Fragments(want);
    var after := row[s + 1..];
    RecoveredColumns(want, s);
    NoSeverityBefore(row, s);
    assert after == Pieces(want[5]) + Pieces(want[6]) + Pieces(want[7]);
    EffortColumns(Pieces(want[5]), want[6], Pieces(want[6]), Pieces(want[7]));
    PiecesPlain(want[7]);
  }

  lemma FragmentsOfAnchored(want: Row)
    requires |want| == 8 && Anchored(want)
    ensures Fragments(want) ==
      want[..3] + Pieces(want[3]) + [want[4]] + (Pieces(want[5]) + [want[6]] + Pieces(want[7]))
  {
    hide IsSeverity, IsEffort, NoSeverity, NoEffort, Fragments, Pieces;
    assert want == want[..3] + ([want[3]] + ([want[4]] + ([want[5]] + ([want[6]] + [want[7]]))));
    FragmentsConcat(want[..3], [want[3]] + ([want[4]] + ([want[5]] + ([want[6]] + [want[7]]))));
    FragmentsConcat([want[3]], [want[4]] + ([want[5]] + ([want[6]] + [want[7]])));
    FragmentsConcat([want[4]], [want[5]] + ([want[6]] + [want[7]]));
    FragmentsConcat([want[5]], [want[6]] + [want[7]]);
    FragmentsConcat([want[6]], [want[7]]);
    FragmentsPlain(want[..3]);
    FragmentsOfOne(want[3]);
    FragmentsPlain([want[4]]);
    FragmentsOfOne(want[5]);
    FragmentsPlain([want[6]]);
    FragmentsOfOne(want[7]);
  }

  lemma FirstSeverityIs(head: Row, before: Row, severity: string, after: Row)
    requires |head| == 3 && NoSeverity(before) && IsSeverity(severity)
    ensures var row, s := head + before + [severity] + after, 3 + |before|;
      && FirstSeverity(row, 3) == Some(s)
      && row[..3] == head && row[3..s] == before && row[s] == severity && row[s + 1..] == after
  {
    hide IsSeverity;
    var row := head + before + [severity] + after;
    assert forall j :: 3 <= j < 3 + |before| ==> row[j] == before[j - 3];
    assert row[3 + |before|] == severity;
  }

  lemma LastEffortIs(p5: Row, effort: string, p7: Row)
    requires p5 != [] && p7 != []
    requires if IsEffort(effort) then NoEffort(p7) else NoEffort(p5) && NoEffort(p7) && |p7| == 1
    ensures EffortSpan(p5 + [effort] + p7) == (|p5|, |p5| + 1)
    ensures var after := p5 + [effort] + p7;
      after[..|p5|] == p5 && after[|p5|..|p5| + 1] == [effort] && after[|p5| + 1..] == p7
  {
    hide IsEffort;
    var after := p5 + [effort] + p7;
    assert after[|p5|] == effort;
    assert forall j :: 0 <= j < |p5| ==> after[j] == p5[j];
    assert forall j :: |p5| < j < |after| ==> after[j] == p7[j - |p5| - 1];
    if IsEffort(effort) {
      LastWithUnique(after, IsEffort, |p5|);
    }
  }

  lemma AnchoredRecovers(want: Row)
    requires |want| == 8 && Anchored(want)
    ensures FirstSeverity(Fragments(want), 3).Some? && RepairMissingSpec(Fragments(want)) == want
  {
    hide FirstSeverity, LastEffort, RepairMissingSpec, JoinFields, EffortSpan, AfterSeverity, IsSeverity, IsEffort, Fragments, Pieces;
    var row, p3, p5, p7 := Fragments(want), Pieces(want[3]), Pieces(want[5]), Pieces(want[7]);
    var after := p5 + [want[6]] + p7;
    FragmentsOfAnchored(want);
    FirstSeverityIs(want[..3], p3, want[4], after);
    PiecesPlain(want[7]);
    LastEffortIs(p5, want[6], p7);
    MissingLayout(row, 3 + |p3|);
    AfterSeverityBlocks(after);
    JoinPieces(want[3]);
    JoinPieces(want[5]);
    SingleBlock([want[6]], 0);
    JoinPieces(want[7]);
    assert [want[6]][0..1] == [want[6]];
  }

  lemma NoSeverityAfter(head: Row, a: Row, b: Row)
    requires |head| == 3
    ensures FirstSeverity(head + (a + b), 3).None? <==> NoSeverity(a) && NoSeverity(b)
  {
    hide IsSeverity;
    var row := head + (a + b);
    assert forall i :: 0 <= i < |a| ==> a[i] == row[3 + i];
    assert forall i :: 0 <= i < |b| ==> b[i] == row[3 + |a| + i];
    var first := FirstSeverity(row, 3);
    if first.Some? {
      assert row[first.value] == if first.value < 3 + |a| then a[first.value - 3] else b[first.value - 3 - |a|];
    }
  }

  lemma UnanchoredRecovers(want: Row)
    requires |want| == 8 < |Fragments(want)|
    ensures (FirstSeverity(Fragments(want), 3).None? && RepairMissingSpec(Fragments(want)) == want) <==> Unanchored(want)
  {
    hide IsSeverity, JoinFields, Fragments, Pieces, MergeTailSpec, AfterSeverity;
    MergeRecovers(want);
    if PlainBut(want, 7) {
      var row := Fragments(want);
      FragmentsPlainBut(want, 7);
      assert row == want[..3] + (want[3..7] + Pieces(want[7]));
      NoSeverityAfter(want[..3], want[3..7], Pieces(want[7]));
    }
    hide FirstSeverity, NoSeverity;
  }

  /** A missing-component row of eight columns comes back exactly when it has no comma, or its anchors
      stand out, or it has no severity and commas only in the last column; with another header width,
      only in the last case. */
  lemma MissingRowsRecover(want: Row, headers: seq<string>)
    requires |want| == |headers| && "category" !in headers && "bug_type" !in headers && IsMissing(headers)
    ensures RepairRow(Fragments(want), headers) == Some(want) <==>
            if |want| == 8 then AllPlain(want) || Anchored(want) || Unanchored(want) else PlainBut(want, |want| - 1)
  {
    hide FirstSeverity, JoinFields, AfterSeverity, IsSeverity, IsEffort, Fragments, Pieces;
    var row := Fragments(want);
    FragmentsPlain(want);
    if |row| > |want| {
      MergeRecovers(want);
      if |want| == 8 {
        UnanchoredRecovers(want);
        if Anchored(want) {
          AnchoredRecovers(want);
        }
        if FirstSeverity(row, 3).Some? && RepairMissingSpec(row) == want {
          RecoveredIsAnchored(want, FirstSeverity(row, 3).value);
        }
      }
    }
    hide RepairMissingSpec, Anchored, Unanchored, MergeTailSpec;
  }
}
