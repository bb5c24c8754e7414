/** Facts about sequences that several components share. */
module Sequences {

  datatype Option<+T> = None | Some(value: T)

  ghost predicate Distinct<T>(s: seq<T>) {
    forall i, j :: 0 <= i < j < |s| ==> s[i] != s[j]
  }

  ghost predicate Increasing(s: seq<nat>) {
    forall j, k :: 0 <= j < k < |s| ==> s[j] < s[k]
  }

  function Elements<T>(s: seq<T>): (r: set<T>)
  {
    set x | x in s
  }

  /** The list `s` back to front. */
  function Reversed<T>(s: seq<T>): (r: seq<T>)
    ensures |r| == |s|
  {
    if s == [] then [] else [s[|s| - 1]] + Reversed(s[..|s| - 1])
  }

  lemma ReversedSnoc<T>(s: seq<T>, x: T)
    ensures Reversed(s + [x]) == [x] + Reversed(s)
  {
    assert (s + [x])[..|s|] == s;
  }

  lemma DistinctConcat<T>(a: seq<T>, b: seq<T>)
    requires Distinct(a) && Distinct(b) && forall x :: x in a ==> x !in b
    ensures Distinct(a + b)
  {
    var s := a + b;
    forall i, j | 0 <= i < j < |s| ensures s[i] != s[j] {
      if i < |a| <= j {
        assert s[i] in a && s[j] in b;
      }
    }
  }

  /** The entries of `s` that satisfy `keep`, in order. */
  function Select<T(!new)>(s: seq<T>, keep: T -> bool): (r: seq<T>)
    ensures forall x :: x in r <==> x in s && keep(x)
  {
    if s == [] then [] else (if keep(s[0]) then [s[0]] else []) + Select(s[1..], keep)
  }

  lemma {:induction false} SelectDistinct<T(!new)>(s: seq<T>, keep: T -> bool)
    requires Distinct(s)
    ensures Distinct(Select(s, keep))
  {
    if s != [] {
      SelectDistinct(s[1..], keep);
      assert s[0] !in s[1..];
    }
  }

  lemma {:induction false} SelectSnoc<T(!new)>(s: seq<T>, x: T, keep: T -> bool)
    ensures Select(s + [x], keep) == if keep(x) then Select(s, keep) + [x] else Select(s, keep)
  {
    if s == [] {
      assert s + [x] == [x] && Select([x][1..], keep) == [];
    } else {
      assert (s + [x])[1..] == s[1..] + [x];
      SelectSnoc(s[1..], x, keep);
    }
  }

  lemma {:induction false} SelectAgrees<T(!new)>(s: seq<T>, keep: T -> bool, keep': T -> bool)
    requires forall x :: x in s ==> keep(x) == keep'(x)
    ensures Select(s, keep) == Select(s, keep')
  {
    if s != [] {
      SelectAgrees(s[1..], keep, keep');
    }
  }

  /** All chunks one after the other. */
  function Flatten<T>(chunks: seq<seq<T>>): (r: seq<T>)
  {
    if chunks == [] then [] else chunks[0] + Flatten(chunks[1..])
  }

  lemma {:induction false} FlattenSnoc<T>(chunks: seq<seq<T>>, last: seq<T>)
    ensures Flatten(chunks + [last]) == Flatten(chunks) + last
  {
    if chunks == [] {
      assert Flatten([last]) == last + Flatten<T>([]);
    } else {
      assert (chunks + [last])[1..] == chunks[1..] + [last];
      FlattenSnoc(chunks[1..], last);
    }
  }

  /** Pigeonhole: a list without repetition cannot be longer than a set it draws from. */
  lemma {:induction false} DistinctFits<T>(s: seq<T>, domain: set<T>)
    requires Distinct(s)
    requires forall x :: x in s ==> x in domain
    ensures |s| <= |domain|
  {
    if s != [] {
      var n := |s| - 1;
      assert s[n] in domain;
      DistinctFits(s[..n], domain - {s[n]});
    }
  }

  /** A number that is not in use. */
  lemma {:induction false} Unused(used: set<nat>) returns (unused: nat)
    ensures forall t :: t in used ==> t < unused
  {
    if used == {} {
      unused := 0;
    } else {
      var t :| t in used;
      var rest := Unused(used - {t});
      unused := if t < rest then rest else t + 1;
      assert forall u :: u in used ==> u == t || u in used - {t};
    }
  }
}
