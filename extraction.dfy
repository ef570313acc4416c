/**
 * Ingredient extraction from free text. Every ingredient contributes its
 * aliases and its own key as search terms, normalised; the terms are tried
 * longest first, each as a whole word or phrase against a working copy of
 * the normalised query padded with a space on each side, and every hit is
 * blanked out of the working copy so that no later, shorter alias can
 * match inside it.
 */
module Extraction {
  import opened Wrappers
  import opened Text
  import opened Sorting
  import opened Records

  /** A normalised alias together with the ingredient key it stands for. */
  datatype SearchTerm = SearchTerm(alias: string, key: string)

  /** The aliases searched for an ingredient: its stored alias list, then its key. */
  function SearchAliases(ing: Ingredient): seq<string>
  {
    ing.aliases.GetOr([]) + [ing.key]
  }

  /**
   * The side effect of building the search terms: the key is appended to
   * the ingredient's stored alias list. A record without an alias list gets
   * a fresh empty list to append to, which is not stored.
   */
  function GrowAliases(ing: Ingredient): (r: Ingredient)
  {
    match ing.aliases
    case None => ing
    case Some(a) => ing.(aliases := Some(a + [ing.key]))
  }

  /** `GrowAliases` applied to every record of the table. */
  function GrowAll(t: Table): (r: Table)
    ensures |r| == |t|
    ensures forall i :: 0 <= i < |t| ==> r[i] == GrowAliases(t[i])
  {
    seq(|t|, i requires 0 <= i < |t| => GrowAliases(t[i]))
  }

  /** Growing the alias lists changes no key, no name form and no scientific name. */
  lemma GrowAllKeepsKeys(t: Table)
    ensures Keys(GrowAll(t)) == Keys(t)
    ensures forall i :: 0 <= i < |t| ==>
      GrowAll(t)[i].key == t[i].key && GrowAll(t)[i].nameForms == t[i].nameForms
      && GrowAll(t)[i].scientificName == t[i].scientificName
  {
    var g := GrowAll(t);
    assert forall i :: 0 <= i < |t| ==> g[i].key == t[i].key;
    forall k | k in Keys(t) ensures k in Keys(g) {
      var i :| 0 <= i < |t| && t[i].key == k;
      assert g[i].key == k;
    }
  }

  /** Growing the alias lists keeps the table a dictionary. */
  lemma GrowAllDistinct(t: Table)
    requires DistinctKeys(t)
    ensures DistinctKeys(GrowAll(t))
  {
    GrowAllKeepsKeys(t);
  }

  /** Growing the records one at a time, in table order, ends in `GrowAll`. */
  lemma GrowOne(t: Table, cur: Table, i: nat)
    requires i < |t| && cur == GrowAll(t[..i]) + t[i..]
    ensures cur[i := GrowAliases(t[i])] == GrowAll(t[..i + 1]) + t[i + 1..]
  {
    var next := cur[i := GrowAliases(t[i])];
    var want := GrowAll(t[..i + 1]) + t[i + 1..];
    assert |next| == |want|;
    forall k | 0 <= k < |next|
      ensures next[k] == want[k]
    {
      if k < i {
        assert next[k] == GrowAll(t[..i])[k] == GrowAliases(t[k]);
      } else if k > i {
        assert next[k] == t[k];
      }
    }
  }

  /** Once every record has been grown, the table is `GrowAll` of the original. */
  lemma GrowAllDone(t: Table, cur: Table)
    requires cur == GrowAll(t[..|t|]) + t[|t|..]
    ensures cur == GrowAll(t)
  {
    assert t[..|t|] == t && t[|t|..] == [];
    assert cur == GrowAll(t) + [];
  }

  /** One search term per alias, in alias order. */
  function AliasTerms(aliases: seq<string>, key: string): (r: seq<SearchTerm>)
    ensures |r| == |aliases|
    ensures forall i :: 0 <= i < |r| ==> r[i] == SearchTerm(Normalize(aliases[i]), key)
  {
    if aliases == [] then []
    else AliasTerms(aliases[..|aliases| - 1], key) + [SearchTerm(Normalize(aliases[|aliases| - 1]), key)]
  }

  /** The search terms of the whole table, record after record, before sorting. */
  function SearchTerms(t: Table): seq<SearchTerm>
  {
    if t == [] then []
    else SearchTerms(t[..|t| - 1]) + AliasTerms(SearchAliases(t[|t| - 1]), t[|t| - 1].key)
  }

  lemma SearchTermsSnoc(t: Table, i: nat)
    requires i < |t|
    ensures SearchTerms(t[..i + 1]) == SearchTerms(t[..i]) + AliasTerms(SearchAliases(t[i]), t[i].key)
  {
    assert t[..i + 1][..i] == t[..i];
  }

  function TermKeys(terms: seq<SearchTerm>): set<string>
  {
    set i | 0 <= i < |terms| :: terms[i].key
  }

  /** Every key of the table, and nothing else, is the key of some search term. */
  lemma {:induction false} SearchTermKeys(t: Table)
    ensures TermKeys(SearchTerms(t)) == Keys(t)
  {
    if t != [] {
      var init := t[..|t| - 1];
      var last := t[|t| - 1];
      var a := AliasTerms(SearchAliases(last), last.key);
      SearchTermKeys(init);
      var s := SearchTerms(t);
      assert s == SearchTerms(init) + a;
      assert a[|a| - 1].key == last.key;
      forall k | k in TermKeys(s) ensures k in Keys(t) {
        var i :| 0 <= i < |s| && s[i].key == k;
        if i < |SearchTerms(init)| {
          assert s[i] == SearchTerms(init)[i];
          assert k in Keys(init);
          var j :| 0 <= j < |init| && init[j].key == k;
          assert t[j] == init[j];
        } else {
          assert s[i] == a[i - |SearchTerms(init)|];
          assert t[|t| - 1].key == k;
        }
      }
      forall k | k in Keys(t) ensures k in TermKeys(s) {
        var j :| 0 <= j < |t| && t[j].key == k;
        if j < |init| {
          assert init[j].key == k;
          assert k in Keys(init);
          var i :| 0 <= i < |SearchTerms(init)| && SearchTerms(init)[i].key == k;
          assert s[i] == SearchTerms(init)[i];
        } else {
          assert s[|s| - 1] == a[|a| - 1];
        }
      }
    }
  }

  /** The sort key: the length of the normalised alias. */
  function AliasLength(st: SearchTerm): seq<int>
  {
    [|st.alias|]
  }

  /** `all_search_terms.sort(key=lambda x: len(x[0]), reverse=True)`. */
  function SortedSearchTerms(t: Table): seq<SearchTerm>
  {
    SortDesc(SearchTerms(t), AliasLength)
  }

  /**
   * The search order: longest alias first; among aliases of equal length,
   * the table's order; and the same terms as before sorting.
   */
  lemma SearchOrder(t: Table)
    ensures multiset(SortedSearchTerms(t)) == multiset(SearchTerms(t))
    ensures forall i, j :: 0 <= i < j < |SortedSearchTerms(t)| ==>
      |SortedSearchTerms(t)[j].alias| <= |SortedSearchTerms(t)[i].alias|
    ensures forall n: nat :: WithKey(SortedSearchTerms(t), AliasLength, [n])
                           == WithKey(SearchTerms(t), AliasLength, [n])
  {
    var s := SortedSearchTerms(t);
    SortDescSorted(SearchTerms(t), AliasLength);
    forall i, j | 0 <= i < j < |s|
      ensures |s[j].alias| <= |s[i].alias|
    {
      LexLeSingleton(|s[j].alias|, |s[i].alias|);
    }
    forall n: nat
      ensures WithKey(s, AliasLength, [n]) == WithKey(SearchTerms(t), AliasLength, [n])
    {
      SortDescStable(SearchTerms(t), AliasLength, [n]);
    }
  }

  // ---------------------------------------------------------------------------
  // The scan
  // ---------------------------------------------------------------------------

  /** The working text and the keys found so far. */
  datatype Scan = Scan(work: string, found: set<string>)

  /** `" " + text + " "`. */
  function Pad(text: string): string
  {
    " " + text + " "
  }

  /** One search term tried: on a whole-word hit, record its key and blank the leftmost match. */
  function Step(st: SearchTerm, s: Scan): (r: Scan)
  {
    match FindWholeWord(s.work, st.alias)
    case None => s
    case Some(i) => Scan(Blank(s.work, i, |st.alias|), s.found + {st.key})
  }

  /** All search terms tried in order. */
  function ScanAll(terms: seq<SearchTerm>, s: Scan): (r: Scan)
    ensures |r.work| == |s.work|
    ensures s.found <= r.found
    ensures r.found - s.found <= TermKeys(terms)
    decreases |terms|
  {
    if terms == [] then s
    else
      var r := ScanAll(terms[1..], Step(terms[0], s));
      assert forall k :: k in TermKeys(terms[1..]) ==> k in TermKeys(terms) by {
        forall k | k in TermKeys(terms[1..]) ensures k in TermKeys(terms) {
          var i :| 0 <= i < |terms[1..]| && terms[1..][i].key == k;
          assert terms[i + 1].key == k;
        }
      }
      r
  }

  /** `parse_user_query(text)` on the table as it stands when the call starts. */
  function ExtractKeys(t: Table, text: string): set<string>
  {
    ScanAll(SortedSearchTerms(t), Scan(Pad(Normalize(text)), {})).found
  }

  /** The parser returns only keys present in the ingredient table. */
  lemma ExtractKeysInTable(t: Table, text: string)
    ensures ExtractKeys(t, text) <= Keys(t)
  {
    var sorted := SortedSearchTerms(t);
    SearchTermKeys(t);
    forall k | k in TermKeys(sorted) ensures k in Keys(t) {
      var i :| 0 <= i < |sorted| && sorted[i].key == k;
      assert sorted[i] in multiset(SearchTerms(t));
      var j :| 0 <= j < |SearchTerms(t)| && SearchTerms(t)[j] == sorted[i];
    }
  }

  lemma {:induction false} ScanAllAppend(a: seq<SearchTerm>, b: seq<SearchTerm>, s: Scan)
    ensures ScanAll(a + b, s) == ScanAll(b, ScanAll(a, s))
    decreases |a|
  {
    if a == [] {
      assert a + b == b;
    } else {
      assert (a + b)[0] == a[0];
      assert (a + b)[1..] == a[1..] + b;
      ScanAllAppend(a[1..], b, Step(a[0], s));
    }
  }

  /** Term `m` is tried when its key is still missing, and its alias occurs in the text left for it. */
  ghost predicate HitAt(terms: seq<SearchTerm>, s: Scan, k: string, m: nat)
    requires m < |terms|
  {
    terms[m].key == k && HasWholeWord(ScanAll(terms[..m], s).work, terms[m].alias)
  }

  lemma HitAtPrefix(terms: seq<SearchTerm>, s: Scan, k: string, m: nat)
    requires m < |terms| - 1
    ensures HitAt(terms, s, k, m) <==> HitAt(terms[..|terms| - 1], s, k, m)
  {
    assert terms[..|terms| - 1][..m] == terms[..m];
  }

  lemma StepFound(st: SearchTerm, s: Scan, k: string)
    requires k !in s.found
    ensures k in Step(st, s).found <==> st.key == k && HasWholeWord(s.work, st.alias)
  {
  }

  /**
   * A key is found exactly when one of its search terms, at its turn, occurs
   * as a whole word in the working text left by the terms before it.
   */
  lemma {:induction false} FoundIff(terms: seq<SearchTerm>, s: Scan, k: string)
    requires k !in s.found
    ensures k in ScanAll(terms, s).found <==> exists m :: 0 <= m < |terms| && HitAt(terms, s, k, m)
    decreases |terms|
  {
    if terms != [] {
      var n := |terms| - 1;
      var init := terms[..n];
      assert terms == init + [terms[n]];
      ScanAllAppend(init, [terms[n]], s);
      var before := ScanAll(init, s);
      assert ScanAll([terms[n]], before) == Step(terms[n], before);
      assert ScanAll(terms, s) == Step(terms[n], before);
      FoundIff(init, s, k);
      forall m | 0 <= m < n
        ensures HitAt(terms, s, k, m) <==> HitAt(init, s, k, m)
      {
        HitAtPrefix(terms, s, k, m);
      }
      assert HitAt(terms, s, k, n) <==> terms[n].key == k && HasWholeWord(before.work, terms[n].alias);
      if k !in before.found {
        StepFound(terms[n], before, k);
      }
    }
  }

  /** The scan only ever writes spaces: a space in the working text stays a space. */
  lemma {:induction false} ScanKeepsSpaces(terms: seq<SearchTerm>, s: Scan, k: nat)
    requires k < |s.work| && s.work[k] == ' '
    ensures ScanAll(terms, s).work[k] == ' '
    decreases |terms|
  {
    if terms != [] {
      var next := Step(terms[0], s);
      assert |next.work| == |s.work| && next.work[k] == ' ';
      ScanKeepsSpaces(terms[1..], next, k);
    }
  }

  /**
   * A consumed span stays consumed: once term `m` has blanked its (non-empty)
   * match, no alias without a space occurs in the working text over any part
   * of that span, at any later point of the scan.
   */
  lemma ConsumedSpanInert(terms: seq<SearchTerm>, s: Scan, m: nat, l: nat, b: string, j: nat)
    requires m < l <= |terms|
    requires FindWholeWord(ScanAll(terms[..m], s).work, terms[m].alias).Some?
    requires |b| > 0 && ' ' !in b
    requires OccursAt(ScanAll(terms[..l], s).work, b, j)
    ensures var i := FindWholeWord(ScanAll(terms[..m], s).work, terms[m].alias).value;
            |terms[m].alias| == 0 || j + |b| <= i || i + |terms[m].alias| <= j
  {
    ScanSplitAt(terms, s, m, l);
    BlankedStaysInert(ScanAll(terms[..m], s), terms[m], terms[m + 1..l], b, j);
  }

  /** The step for `x` blanks its match; no later scan puts a space-free alias over it. */
  lemma BlankedStaysInert(before: Scan, x: SearchTerm, rest: seq<SearchTerm>, b: string, j: nat)
    requires FindWholeWord(before.work, x.alias).Some?
    requires |b| > 0 && ' ' !in b
    requires OccursAt(ScanAll(rest, Step(x, before)).work, b, j)
    ensures var i := FindWholeWord(before.work, x.alias).value;
            |x.alias| == 0 || j + |b| <= i || i + |x.alias| <= j
  {
    var i := FindWholeWord(before.work, x.alias).value;
    var after := Step(x, before);
    assert after.work == Blank(before.work, i, |x.alias|);
    var later := ScanAll(rest, after);
    if !(|x.alias| == 0 || j + |b| <= i || i + |x.alias| <= j) {
      var q := if i <= j then j else i;
      assert after.work[q] == ' ';
      ScanKeepsSpaces(rest, after, q);
      PlainCharInBlankedSpan(later.work, b, j, q);
    }
  }

  /** The scan up to `l` is the scan up to `m`, then term `m`, then the terms after it. */
  lemma ScanSplitAt(terms: seq<SearchTerm>, s: Scan, m: nat, l: nat)
    requires m < l <= |terms|
    ensures ScanAll(terms[..l], s) == ScanAll(terms[m + 1..l], Step(terms[m], ScanAll(terms[..m], s)))
  {
    var before := ScanAll(terms[..m], s);
    assert terms[..m + 1] == terms[..m] + [terms[m]];
    ScanAllAppend(terms[..m], [terms[m]], s);
    assert ScanAll([terms[m]], before) == Step(terms[m], before);
    assert terms[..l] == terms[..m + 1] + terms[m + 1..l];
    ScanAllAppend(terms[..m + 1], terms[m + 1..l], s);
  }

  // ---------------------------------------------------------------------------
  // Growing alias lists change later answers
  // ---------------------------------------------------------------------------

  /** Two ingredients: "x", and "y", which also answers to "x". */
  function TwoIngredients(): Table
  {
    [Ingredient("x", Some([]), map[], None), Ingredient("y", Some(["x"]), map[], None)]
  }

  lemma SameAliasLength(terms: seq<SearchTerm>)
    requires forall i :: 0 <= i < |terms| ==> |terms[i].alias| == 1
    ensures SortDesc(terms, AliasLength) == terms
  {
    SortDescEqualKeys(terms, AliasLength);
  }

  lemma NormalizedLetters()
    ensures Normalize("x") == "x" && Normalize("y") == "y" && Normalize("x x") == "x x"
  {
    assert LowerStr("x") == "x" && LowerStr("y") == "y" && LowerStr("x x") == "x x";
  }

  /** The search terms of a two-record table: the first record's, then the second's. */
  lemma SearchTermsPair(a: Ingredient, b: Ingredient)
    ensures SearchTerms([a, b]) == AliasTerms(SearchAliases(a), a.key) + AliasTerms(SearchAliases(b), b.key)
  {
    assert [a, b][..1] == [a];
    assert [a][..0] == [];
    assert SearchTerms([a]) == [] + AliasTerms(SearchAliases(a), a.key);
    assert [] + AliasTerms(SearchAliases(a), a.key) == AliasTerms(SearchAliases(a), a.key);
  }

  /** Aliases that are single letters normalise to themselves. */
  lemma AliasTermsLetters(aliases: seq<string>, key: string)
    requires forall i :: 0 <= i < |aliases| ==> aliases[i] == "x" || aliases[i] == "y"
    ensures AliasTerms(aliases, key) == seq(|aliases|, i requires 0 <= i < |aliases| => SearchTerm(aliases[i], key))
  {
    NormalizedLetters();
  }

  lemma FirstQueryTerms()
    ensures SearchTerms(TwoIngredients())
         == [SearchTerm("x", "x"), SearchTerm("x", "y"), SearchTerm("y", "y")]
  {
    var t := TwoIngredients();
    SearchTermsPair(t[0], t[1]);
    assert SearchAliases(t[0]) == ["x"] && SearchAliases(t[1]) == ["x", "y"];
    AliasTermsLetters(["x"], "x");
    AliasTermsLetters(["x", "y"], "y");
  }

  lemma SecondQueryTerms()
    ensures SearchTerms(GrowAll(TwoIngredients()))
         == [SearchTerm("x", "x"), SearchTerm("x", "x"), SearchTerm("x", "y"), SearchTerm("y", "y"), SearchTerm("y", "y")]
  {
    var t := TwoIngredients();
    var g := GrowAll(t);
    assert g == [GrowAliases(t[0]), GrowAliases(t[1])];
    assert [] + ["x"] == ["x"] && ["x"] + ["y"] == ["x", "y"];
    SearchTermsPair(g[0], g[1]);
    assert SearchAliases(g[0]) == ["x", "x"] && SearchAliases(g[1]) == ["x", "y", "y"];
    AliasTermsLetters(["x", "x"], "x");
    AliasTermsLetters(["x", "y", "y"], "y");
  }

  /** The scan of "x x": the first occurrence of "x" is taken and blanked. */
  lemma FirstBlank()
    ensures Step(SearchTerm("x", "x"), Scan(" x x ", {})) == Scan("   x ", {"x"})
    ensures Step(SearchTerm("x", "y"), Scan(" x x ", {})) == Scan("   x ", {"y"})
  {
    FindWholeWordAt(" x x ", "x", 1);
    assert Blank(" x x ", 1, 1) == "   x ";
  }

  /** Then the second one. */
  lemma SecondBlank(found: set<string>, key: string)
    ensures Step(SearchTerm("x", key), Scan("   x ", found)) == Scan("     ", found + {key})
  {
    FindWholeWordAt("   x ", "x", 3);
    assert Blank("   x ", 3, 1) == "     ";
  }

  /** After which nothing is left to find. */
  lemma NothingLeft(found: set<string>, alias: string, key: string)
    requires alias == "x" || alias == "y"
    ensures Step(SearchTerm(alias, key), Scan("     ", found)) == Scan("     ", found)
  {
    FindWholeWordAbsent("     ", alias);
  }

  /** A scan traced state by state: `states[i]` is the state before term `i` is tried. */
  lemma {:induction false} ScanTrace(terms: seq<SearchTerm>, states: seq<Scan>)
    requires |states| == |terms| + 1
    requires forall i :: 0 <= i < |terms| ==> Step(terms[i], states[i]) == states[i + 1]
    ensures ScanAll(terms, states[0]) == states[|terms|]
    decreases |terms|
  {
    if terms != [] {
      ScanTrace(terms[1..], states[1..]);
    }
  }

  lemma ScanThree(t0: SearchTerm, t1: SearchTerm, t2: SearchTerm, s0: Scan, s1: Scan, s2: Scan, s3: Scan)
    requires Step(t0, s0) == s1 && Step(t1, s1) == s2 && Step(t2, s2) == s3
    ensures ScanAll([t0, t1, t2], s0) == s3
  {
    ScanTrace([t0, t1, t2], [s0, s1, s2, s3]);
  }

  lemma ScanFive(t0: SearchTerm, t1: SearchTerm, t2: SearchTerm, t3: SearchTerm, t4: SearchTerm,
                 s0: Scan, s1: Scan, s2: Scan, s3: Scan, s4: Scan, s5: Scan)
    requires Step(t0, s0) == s1 && Step(t1, s1) == s2 && Step(t2, s2) == s3
    requires Step(t3, s3) == s4 && Step(t4, s4) == s5
    ensures ScanAll([t0, t1, t2, t3, t4], s0) == s5
  {
    ScanTrace([t0, t1, t2, t3, t4], [s0, s1, s2, s3, s4, s5]);
  }

  lemma FirstQueryScan()
    ensures ScanAll([SearchTerm("x", "x"), SearchTerm("x", "y"), SearchTerm("y", "y")], Scan(" x x ", {})).found
         == {"x", "y"}
  {
    FirstBlank();
    SecondBlank({"x"}, "y");
    NothingLeft({"x", "y"}, "y", "y");
    ScanThree(SearchTerm("x", "x"), SearchTerm("x", "y"), SearchTerm("y", "y"),
              Scan(" x x ", {}), Scan("   x ", {"x"}), Scan("     ", {"x", "y"}), Scan("     ", {"x", "y"}));
  }

  lemma SecondQueryScan()
    ensures ScanAll([SearchTerm("x", "x"), SearchTerm("x", "x"), SearchTerm("x", "y"), SearchTerm("y", "y"), SearchTerm("y", "y")],
                    Scan(" x x ", {})).found
         == {"x"}
  {
    var done := Scan("     ", {"x"});
    FirstBlank();
    SecondBlank({"x"}, "x");
    assert {"x"} + {"x"} == {"x"};
    NothingLeft({"x"}, "x", "y");
    NothingLeft({"x"}, "y", "y");
    ScanFive(SearchTerm("x", "x"), SearchTerm("x", "x"), SearchTerm("x", "y"), SearchTerm("y", "y"), SearchTerm("y", "y"),
             Scan(" x x ", {}), Scan("   x ", {"x"}), done, done, done, done);
  }

  /**
   * The same query asked twice gets two answers. The first query finds both
   * ingredients in "x x": "x" takes the first occurrence and "y"'s alias
   * "x" the second. By the second query the key "x" has been appended to
   * the alias list of "x", so "x" now has two search terms of its own; they
   * take both occurrences before "y"'s alias is tried.
   */
  lemma RepeatedQueryDiffers()
    ensures ExtractKeys(TwoIngredients(), "x x") == {"x", "y"}
    ensures ExtractKeys(GrowAll(TwoIngredients()), "x x") == {"x"}
  {
    FirstQuery();
    SecondQuery();
  }

  lemma FirstQuery()
    ensures ExtractKeys(TwoIngredients(), "x x") == {"x", "y"}
  {
    NormalizedLetters();
    assert Pad(Normalize("x x")) == " x x ";
    FirstQueryTerms();
    SameAliasLength(SearchTerms(TwoIngredients()));
    FirstQueryScan();
  }

  lemma SecondQuery()
    ensures ExtractKeys(GrowAll(TwoIngredients()), "x x") == {"x"}
  {
    NormalizedLetters();
    assert Pad(Normalize("x x")) == " x x ";
    SecondQueryTerms();
    SameAliasLength(SearchTerms(GrowAll(TwoIngredients())));
    SecondQueryScan();
  }
}
