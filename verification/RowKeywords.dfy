/** Which fields of a row count as a severity or an effort, described from the outside. */
module RowKeywords {
  import opened Sequences
  import opened Strings
  import opened RowRepair

  // ---------- Blanks and letter case ----------

  ghost predicate AllSpace(s: string) {
    forall i :: 0 <= i < |s| ==> IsSpace(s[i])
  }

  /** `field` is `core` with white space around it. */
  ghost predicate Padded(field: string, pre: string, core: string, post: string) {
    field == pre + core + post && AllSpace(pre) && AllSpace(post)
  }

  predicate Trimmed(core: string) {
    core != "" ==> !IsSpace(core[0]) && !IsSpace(core[|core| - 1])
  }

  lemma {:induction false} StripRightLeaves(s: string) returns (post: string)
    ensures s == StripRight(s) + post && AllSpace(post)
  {
    hide IsSpace;
    if s != "" && IsSpace(s[|s| - 1]) {
      var rest := StripRightLeaves(s[..|s| - 1]);
      post := rest + [s[|s| - 1]];
      assert s == s[..|s| - 1] + [s[|s| - 1]];
    } else {
      post := "";
    }
  }

  lemma {:induction false} StripLeftLeaves(s: string) returns (pre: string)
    ensures s == pre + StripLeft(s) && AllSpace(pre)
    ensures StripLeft(s) != "" ==> !IsSpace(StripLeft(s)[0])
  {
    hide IsSpace;
    if s != "" && IsSpace(s[0]) {
      var rest := StripLeftLeaves(s[1..]);
      pre := [s[0]] + rest;
      assert s == [s[0]] + s[1..];
    } else {
      pre := "";
    }
  }

  lemma {:induction false} StripRightOf(core: string, post: string)
    requires AllSpace(post) && (core != "" ==> !IsSpace(core[|core| - 1]))
    ensures StripRight(core + post) == core
  {
    hide IsSpace;
    var s := core + post;
    if post == "" {
      assert s == core;
    } else {
      assert s[..|s| - 1] == core + post[..|post| - 1];
      StripRightOf(core, post[..|post| - 1]);
    }
  }

  lemma {:induction false} StripLeftOf(pre: string, rest: string)
    requires AllSpace(pre) && (rest != "" ==> !IsSpace(rest[0]))
    ensures StripLeft(pre + rest) == rest
  {
    hide IsSpace;
    if pre == "" {
      assert pre + rest == rest;
    } else {
      assert (pre + rest)[1..] == pre[1..] + rest;
      StripLeftOf(pre[1..], rest);
    }
  }

  lemma StripOf(pre: string, core: string, post: string)
    requires AllSpace(pre) && AllSpace(post) && Trimmed(core) && core != ""
    ensures Strip(pre + core + post) == core
  {
    hide IsSpace;
    assert pre + core + post == pre + (core + post);
    StripLeftOf(pre, core + post);
    StripRightOf(core, post);
  }

  lemma StripLeaves(field: string) returns (pre: string, post: string)
    ensures Padded(field, pre, Strip(field), post) && Trimmed(Strip(field))
  {
    hide IsSpace;
    pre := StripLeftLeaves(field);
    post := StripRightLeaves(StripLeft(field));
    assert field == pre + Strip(field) + post;
  }

  /** `s` is `word` in any mixture of cases. */
  predicate AnyCase(s: string, word: string) {
    |s| == |word| && forall i :: 0 <= i < |s| ==>
      s[i] == word[i] || ('a' <= word[i] <= 'z' && s[i] as int + 32 == word[i] as int)
  }

  /** Lower-case letters other than `k`, which the Kelvin sign lowers to. */
  predicate IsWord(word: string) {
    forall i :: 0 <= i < |word| ==> 'a' <= word[i] <= 'z' && word[i] != 'k'
  }

  lemma LowerIsWord(s: string, word: string)
    requires IsWord(word)
    ensures Lower(s) == word <==> AnyCase(s, word)
  {
    if Lower(s) == word {
      assert forall i :: 0 <= i < |s| ==> Lower(s)[i] == word[i];
    }
    if AnyCase(s, word) {
      assert forall i :: 0 <= i < |s| ==> Lower(s)[i] == word[i];
    }
  }

  lemma LowerLength(s: string)
    ensures |Lower(s)| == |s|
  {
  }

  /** A word starts and ends with letters. */
  lemma WordIsTrimmed(s: string, word: string)
    requires AnyCase(s, word) && IsWord(word) && word != ""
    ensures s != "" && !IsSpace(s[0]) && !IsSpace(s[|s| - 1])
  {
  }

  lemma LowerConcat(s: string, t: string)
    ensures Lower(s + t) == Lower(s) + Lower(t)
  {
  }

  // ---------- Severity ----------

  predicate SeverityWord(s: string) {
    AnyCase(s, "critical") || AnyCase(s, "high") || AnyCase(s, "medium") || AnyCase(s, "low") || AnyCase(s, "vital")
  }

  ghost predicate AllDots(s: string) {
    forall i :: 0 <= i < |s| ==> s[i] == '.'
  }

  lemma {:induction false} StripDotsLeaves(s: string) returns (dots: string)
    ensures s == StripDots(s) + dots && AllDots(dots)
  {
    if s != "" && s[|s| - 1] == '.' {
      var rest := StripDotsLeaves(s[..|s| - 1]);
      dots := rest + ".";
      assert s == s[..|s| - 1] + ".";
    } else {
      dots := "";
    }
  }

  lemma {:induction false} StripDotsOf(word: string, dots: string)
    requires AllDots(dots) && (word != "" ==> word[|word| - 1] != '.')
    ensures StripDots(word + dots) == word
  {
    var s := word + dots;
    if dots == "" {
      assert s == word;
    } else {
      assert s[..|s| - 1] == word + dots[..|dots| - 1];
      StripDotsOf(word, dots[..|dots| - 1]);
    }
  }

  lemma LowerDots(s: string)
    ensures AllDots(Lower(s)) <==> AllDots(s)
    ensures AllDots(s) ==> Lower(s) == s
  {
    var low := Lower(s);
    assert forall i :: 0 <= i < |s| ==> (low[i] == '.' <==> s[i] == '.');
  }

  lemma SeverityWords(w: string)
    ensures SeverityWord(w) <==> Lower(w) in ["critical", "high", "medium", "low", "vital"]
  {
    LowerIsWord(w, "critical");
    LowerIsWord(w, "high");
    LowerIsWord(w, "medium");
    LowerIsWord(w, "low");
    LowerIsWord(w, "vital");
  }

  /** The field is one of the five words, in any case, with dots after it and white space around. */
  ghost predicate WritesSeverity(field: string, pre: string, word: string, dots: string, post: string) {
    Padded(field, pre, word + dots, post) && SeverityWord(word) && AllDots(dots)
  }

  lemma SeverityIsWritten(field: string) returns (pre: string, word: string, dots: string, post: string)
    requires IsSeverity(field)
    ensures WritesSeverity(field, pre, word, dots, post)
  {
    hide IsSpace, Strip, Lower, StripDots, SeverityWord, AllDots, AllSpace;
    pre, post := StripLeaves(field);
    var core := Strip(field);
    var low := Lower(core);
    var low' := StripDotsLeaves(low);
    var n := |StripDots(low)|;
    LowerLength(core);
    word, dots := core[..n], core[n..];
    assert core == word + dots;
    LowerConcat(word, dots);
    LowerLength(word);
    assert Lower(word) == low[..n] == StripDots(low) && Lower(dots) == low[n..] == low';
    SeverityWords(word);
    LowerDots(dots);
  }

  lemma WrittenIsSeverity(field: string, pre: string, word: string, dots: string, post: string)
    requires WritesSeverity(field, pre, word, dots, post)
    ensures IsSeverity(field)
  {
    hide StripDots, Strip, Lower;
    var core := word + dots;
    assert |word| > 0 && !IsSpace(word[0]) && !IsSpace(word[|word| - 1]);
    assert dots != "" ==> core[|core| - 1] == '.';
    StripOf(pre, core, post);
    LowerConcat(word, dots);
    LowerDots(dots);
    SeverityWords(word);
    StripDotsOf(Lower(word), dots);
  }

  /** Exactly which fields are taken for a severity. */
  lemma SeverityExactly(field: string)
    ensures IsSeverity(field) <==> exists pre, word, dots, post :: WritesSeverity(field, pre, word, dots, post)
  {
    hide IsSeverity, WritesSeverity;
    if IsSeverity(field) {
      var pre, word, dots, post := SeverityIsWritten(field);
    }
    if exists pre, word, dots, post :: WritesSeverity(field, pre, word, dots, post) {
      var pre, word, dots, post :| WritesSeverity(field, pre, word, dots, post);
      WrittenIsSeverity(field, pre, word, dots, post);
    }
  }

  // ---------- Effort ----------

  ghost predicate AllDigits(s: string) {
    s != "" && forall i :: 0 <= i < |s| ==> '0' <= s[i] <= '9'
  }

  predicate UnitText(s: string) {
    AnyCase(s, "d") || AnyCase(s, "h") || AnyCase(s, "w") || AnyCase(s, "m")
  }

  predicate SizeText(s: string) {
    AnyCase(s, "xs") || AnyCase(s, "s") || AnyCase(s, "m") || AnyCase(s, "l") || AnyCase(s, "xl") || AnyCase(s, "xxl")
  }

  /** A count with a unit. */
  ghost predicate CountText(core: string, d: string, u: string) {
    core == d + u && AllDigits(d) && UnitText(u)
  }

  /** A range of two counts, with or without a unit. */
  ghost predicate RangeText(core: string, d: string, sep: char, e: string, u: string) {
    core == d + [sep] + e + u && AllDigits(d) && AllDigits(e) && (sep == '-' || sep == '/') && (u == "" || UnitText(u))
  }

  ghost predicate EffortText(core: string) {
    || SizeText(core)
    || (exists d, u :: CountText(core, d, u))
    || (exists d, sep, e, u :: RangeText(core, d, sep, e, u))
  }

  lemma {:induction false} DigitsAre(s: string)
    ensures Digits(s) > 0 ==> AllDigits(s[..Digits(s)])
  {
    if s != "" && '0' <= s[0] <= '9' {
      DigitsAre(s[1..]);
      assert forall i :: 0 < i < Digits(s) ==> s[i] == s[1..][i - 1];
    }
  }

  lemma {:induction false} DigitsOf(d: string, rest: string)
    requires d == "" || AllDigits(d)
    requires rest != "" ==> !('0' <= rest[0] <= '9')
    ensures Digits(d + rest) == |d|
  {
    if d == "" {
      assert d + rest == rest;
    } else {
      assert (d + rest)[1..] == d[1..] + rest;
      DigitsOf(d[1..], rest);
    }
  }

  lemma LowerDigits(s: string)
    ensures AllDigits(Lower(s)) <==> AllDigits(s)
    ensures AllDigits(s) ==> Lower(s) == s
  {
    var low := Lower(s);
    assert forall i :: 0 <= i < |s| ==> ('0' <= low[i] <= '9' <==> '0' <= s[i] <= '9');
  }

  lemma LowerSlice(s: string, a: nat, b: nat)
    requires a <= b <= |s|
    ensures Lower(s)[a..b] == Lower(s[a..b])
  {
  }

  lemma LowerUnit(u: string)
    ensures UnitText(u) <==> IsUnit(Lower(u))
  {
    LowerIsWord(u, "d");
    LowerIsWord(u, "h");
    LowerIsWord(u, "m");
    LowerIsWord(u, "w");
  }

  lemma LowerSize(s: string)
    ensures SizeText(s) <==> Lower(s) in ["xs", "s", "m", "l", "xl", "xxl"]
  {
    LowerIsWord(s, "xs");
    LowerIsWord(s, "s");
    LowerIsWord(s, "m");
    LowerIsWord(s, "l");
    LowerIsWord(s, "xl");
    LowerIsWord(s, "xxl");
  }

  /** What the pattern finds in the lowered text. */
  lemma CountMatches(core: string, d: string, u: string)
    requires CountText(core, d, u)
    ensures MatchesEffort(Lower(core))
  {
    LowerConcat(d, u);
    LowerDigits(d);
    LowerUnit(u);
    DigitsOf(d, Lower(u));
    hide Lower;
    assert (d + Lower(u))[|d|..] == Lower(u);
  }

  lemma RangeOfLow(d: string, sep: char, e: string, v: string)
    requires AllDigits(d) && AllDigits(e) && (sep == '-' || sep == '/') && (v == "" || IsUnit(v))
    ensures MatchesEffort(d + [sep] + e + v)
  {
    DigitsOf(d, [sep] + e + v);
    DigitsOf(e, v);
    hide Digits, AllDigits;
    var low := d + [sep] + e + v;
    assert low == d + ([sep] + e + v) && low[|d|] == sep && low[|d| + 1..] == e + v;
    assert low[|d| + 1 + |e|..] == v;
  }

  lemma RangeMatches(core: string, d: string, sep: char, e: string, u: string)
    requires RangeText(core, d, sep, e, u)
    ensures MatchesEffort(Lower(core))
  {
    LowerConcat(d + [sep] + e, u);
    LowerConcat(d + [sep], e);
    LowerConcat(d, [sep]);
    LowerDigits(d);
    LowerDigits(e);
    LowerUnit(u);
    assert Lower([sep]) == [sep] && (u == "" ==> Lower(u) == "");
    RangeOfLow(d, sep, e, Lower(u));
    hide Lower, MatchesEffort;
  }

  lemma MatchIsText(core: string)
    requires MatchesEffort(Lower(core))
    ensures EffortText(core)
  {
    var low := Lower(core);
    var n := Digits(low);
    LowerSize(core);
    if low !in ["xs", "s", "m", "l", "xl", "xxl"] {
      var d, rest := core[..n], core[n..];
      DigitsAre(low);
      LowerSlice(core, 0, n);
      LowerSlice(core, n, |core|);
      LowerDigits(d);
      LowerUnit(rest);
      hide Lower, Digits;
      assert core[0..n] == d && core[n..|core|] == rest && low[0..n] == low[..n] && low[n..|core|] == low[n..];
      assert core == d + rest;
      if IsUnit(low[n..]) {
        assert CountText(core, d, rest);
      } else {
        RangeIsText(core, n);
      }
    }
  }

  lemma RangeIsText(core: string, n: nat)
    requires n <= |core| && AllDigits(core[..n])
    requires var low := Lower(core);
      n < |low| && (low[n] == '-' || low[n] == '/') &&
      var m := Digits(low[n + 1..]);
      m > 0 && (low[n + 1 + m..] == "" || IsUnit(low[n + 1 + m..]))
    ensures EffortText(core)
  {
    hide Digits, UnitText, AllDigits;
    var low := Lower(core);
    var m := Digits(low[n + 1..]);
    var d, sep, e, u := core[..n], core[n], core[n + 1..n + 1 + m], core[n + 1 + m..];
    assert sep == low[n];
    DigitsAre(low[n + 1..]);
    LowerSlice(core, n + 1, n + 1 + m);
    LowerSlice(core, n + 1 + m, |core|);
    LowerDigits(e);
    LowerUnit(u);
    hide Lower;
    assert low[n + 1..][..m] == low[n + 1..n + 1 + m];
    assert core[n + 1 + m..|core|] == u && low[n + 1 + m..|core|] == low[n + 1 + m..];
    assert core == d + [sep] + e + u;
    assert RangeText(core, d, sep, e, u);
  }

  lemma ListedIsMatched(val: string)
    requires val in ["xs", "s", "m", "l", "xl", "xxl", "3-7d"]
    ensures MatchesEffort(val)
  {
    if val == "3-7d" {
      DigitsOf("3", "-7d");
      DigitsOf("7", "d");
      assert "3" + "-7d" == val && "7" + "d" == val[2..];
    }
  }

  lemma EffortOfCore(core: string)
    ensures MatchesEffort(Lower(core)) <==> EffortText(core)
  {
    hide MatchesEffort, CountText, RangeText, Lower, SizeText;
    if MatchesEffort(Lower(core)) {
      MatchIsText(core);
    }
    if SizeText(core) {
      SizeMatches(core);
    }
    if d, u :| CountText(core, d, u) {
      CountMatches(core, d, u);
    }
    if d, sep, e, u :| RangeText(core, d, sep, e, u) {
      RangeMatches(core, d, sep, e, u);
    }
  }

  lemma SizeMatches(core: string)
    requires SizeText(core)
    ensures MatchesEffort(Lower(core))
  {
    LowerSize(core);
  }

  ghost predicate WritesEffort(field: string, pre: string, core: string, post: string) {
    Padded(field, pre, core, post) && EffortText(core)
  }

  lemma DigitsAreTrimmed(d: string)
    requires AllDigits(d)
    ensures d != "" && Trimmed(d)
  {
  }

  lemma UnitIsTrimmed(u: string)
    requires UnitText(u)
    ensures u != "" && Trimmed(u)
  {
    var unit := if AnyCase(u, "d") then "d" else if AnyCase(u, "h") then "h" else if AnyCase(u, "w") then "w" else "m";
    WordIsTrimmed(u, unit);
  }

  lemma SizeIsTrimmed(s: string)
    requires SizeText(s)
    ensures s != "" && Trimmed(s)
  {
    var size := if AnyCase(s, "xs") then "xs" else if AnyCase(s, "s") then "s" else if AnyCase(s, "m") then "m"
                else if AnyCase(s, "l") then "l" else if AnyCase(s, "xl") then "xl" else "xxl";
    WordIsTrimmed(s, size);
  }

  lemma EffortIsTrimmed(core: string)
    requires EffortText(core)
    ensures core != "" && Trimmed(core)
  {
    hide IsSpace, AnyCase;
    if SizeText(core) {
      SizeIsTrimmed(core);
    } else if d, u :| CountText(core, d, u) {
      DigitsAreTrimmed(d);
      UnitIsTrimmed(u);
      hide AllDigits, UnitText;
      assert core[0] == d[0] && core[|core| - 1] == u[|u| - 1];
    } else {
      var d, sep, e, u :| RangeText(core, d, sep, e, u);
      DigitsAreTrimmed(d);
      DigitsAreTrimmed(e);
      if u != "" {
        UnitIsTrimmed(u);
      }
      hide AllDigits, UnitText;
      assert core[0] == d[0] && core[|core| - 1] == if u == "" then e[|e| - 1] else u[|u| - 1];
    }
  }

  /** Exactly which fields are taken for an effort: a size, a count with a unit, or a range, in any case
      and with white space around it. */
  lemma EffortExactly(field: string)
    ensures IsEffort(field) <==> exists pre, core, post :: WritesEffort(field, pre, core, post)
  {
    var val := Lower(Strip(field));
    assert IsEffort(field) <==> MatchesEffort(val) by {
      if val in ["xs", "s", "m", "l", "xl", "xxl", "3-7d"] {
        ListedIsMatched(val);
      }
    }
    hide IsEffort, MatchesEffort, Lower, Strip, EffortText, IsSpace;
    if IsEffort(field) {
      var pre, post := StripLeaves(field);
      EffortOfCore(Strip(field));
      assert WritesEffort(field, pre, Strip(field), post);
    }
    if pre, core, post :| WritesEffort(field, pre, core, post) {
      EffortIsTrimmed(core);
      StripOf(pre, core, post);
      EffortOfCore(core);
    }
  }
}
