/** Cycle report and emission order of the file nodes of a taxonomy. */
module DependencyParser {
  import opened Sequences
  import opened Digraphs
  import CycleDetection
  import KahnSort

  /** One item of the taxonomy dictionary, in insertion order. */
  datatype TaxonomyItem = TaxonomyItem(id: Id, nodeType: Option<string>)

  datatype SortEntry = Emitted(id: Id) | CycleMarker(remaining: seq<Id>)

  function Keys(taxonomy: seq<TaxonomyItem>): (r: seq<Id>)
    ensures |r| == |taxonomy| && forall i :: 0 <= i < |r| ==> r[i] == taxonomy[i].id
  {
    seq(|taxonomy|, i requires 0 <= i < |taxonomy| => taxonomy[i].id)
  }

  function FileIds(taxonomy: seq<TaxonomyItem>): (r: seq<Id>)
    ensures forall x :: x in r <==> TaxonomyItem(x, Some("file")) in taxonomy
  {
    if taxonomy == [] then []
    else (if taxonomy[0].nodeType == Some("file") then [taxonomy[0].id] else []) + FileIds(taxonomy[1..])
  }

  lemma {:induction false} FileIdsDistinct(taxonomy: seq<TaxonomyItem>)
    requires Distinct(Keys(taxonomy))
    ensures Distinct(FileIds(taxonomy))
  {
    if taxonomy != [] {
      var rest := taxonomy[1..];
      assert Keys(rest) == Keys(taxonomy)[1..];
      FileIdsDistinct(rest);
      forall x | x in FileIds(rest) ensures x != taxonomy[0].id {
        var i :| 0 <= i < |rest| && rest[i] == TaxonomyItem(x, Some("file"));
        assert Keys(taxonomy)[i + 1] == x;
      }
    }
  }

  /** The import graph restricted to file nodes. */
  function FileGraph(taxonomy: seq<TaxonomyItem>, edges: map<Id, seq<Id>>): Digraph {
    Digraph(Elements(FileIds(taxonomy)), edges)
  }

  method DetectCycles(taxonomy: seq<TaxonomyItem>, edges: map<Id, seq<Id>>) returns (cycles: seq<seq<Id>>)
    ensures CycleReport(FileGraph(taxonomy, edges), cycles)
    ensures forall c, x :: c in cycles && x in c ==> TaxonomyItem(x, Some("file")) in taxonomy
  {
    hide CutsEveryCycle, ClosedOnce, Digraph.Cyclic;
    cycles := CycleDetection.DetectCycles(FileIds(taxonomy), edges);
    forall c, x | c in cycles && x in c ensures TaxonomyItem(x, Some("file")) in taxonomy {
      assert FileGraph(taxonomy, edges).IsElementaryCycle(c);
    }
  }

  /** The list the sort returns: emitted ids, then one marker if any node was left over, with those ids
      once each in the order of `order`. */
  ghost predicate SortResult(g: Digraph, order: seq<Id>, result: seq<SortEntry>, emitted: seq<Id>, remaining: seq<Id>) {
    && KahnSort.KahnResult(g, emitted, remaining)
    && Distinct(remaining) && remaining == Select(order, v => v !in emitted)
    && |result| == |emitted| + (if remaining == [] then 0 else 1)
    && (forall i :: 0 <= i < |emitted| ==> result[i] == SortEntry.Emitted(emitted[i]))
    && (remaining != [] ==> result[|emitted|] == CycleMarker(remaining))
  }

  lemma MarkedExactlyWhenCyclic(g: Digraph, order: seq<Id>, result: seq<SortEntry>, emitted: seq<Id>, remaining: seq<Id>)
    requires SortResult(g, order, result, emitted, remaining)
    ensures (exists e :: e in result && e.CycleMarker?) <==> g.Cyclic()
  {
    if remaining != [] {
      assert result[|emitted|] in result;
    }
  }

  method TopologicalSort(taxonomy: seq<TaxonomyItem>, edges: map<Id, seq<Id>>) returns (result: seq<SortEntry>)
    requires Distinct(Keys(taxonomy))
    ensures exists emitted, remaining :: SortResult(FileGraph(taxonomy, edges), FileIds(taxonomy), result, emitted, remaining)
    ensures (exists e :: e in result && e.CycleMarker?) <==> FileGraph(taxonomy, edges).Cyclic()
  {
    hide KahnSort.KahnResult, Digraph.Cyclic;
    FileIdsDistinct(taxonomy);
    var emitted, remaining := KahnSort.Sort(FileIds(taxonomy), edges);
    result := seq(|emitted|, i requires 0 <= i < |emitted| => SortEntry.Emitted(emitted[i]));
    if remaining != [] {
      result := result + [CycleMarker(remaining)];
    }
    SelectDistinct(FileIds(taxonomy), v => v !in emitted);
    assert SortResult(FileGraph(taxonomy, edges), FileIds(taxonomy), result, emitted, remaining);
    MarkedExactlyWhenCyclic(FileGraph(taxonomy, edges), FileIds(taxonomy), result, emitted, remaining);
  }
}
