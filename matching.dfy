/**
 * Recipe selection. The ingredient path classifies every recipe with a
 * non-empty trigger set against the extracted keys: complete recipes are
 * perfect candidates, recipes with at least one matching key and at most
 * two missing ones are partial candidates. A perfect candidate of highest
 * priority wins outright; otherwise up to three partial candidates are
 * offered, best score first. The direct paths look a recipe up by an
 * intention phrase or by category.
 */
module Matching {
  import opened Wrappers
  import opened Text
  import opened Sorting
  import opened Records

  /** A partial candidate and the figures it is ranked by. */
  datatype Candidate = Candidate(
    recipe: Recipe,
    matchCount: nat,
    missingKeys: set<string>,
    excessKeys: set<string>,
    score: seq<int>)

  /** The outcome of `find_matching_recipe`: status "perfect", "partial_options" or "none". */
  datatype MatchResult =
    | Perfect(recipe: Recipe)
    | PartialOptions(options: seq<Candidate>)
    | NoMatch

  // ---------------------------------------------------------------------------
  // Classification of one recipe
  // ---------------------------------------------------------------------------

  /** Every trigger key was found (recipes without trigger keys never qualify). */
  predicate IsPerfect(r: Recipe, found: set<string>)
  {
    r.triggerKeys != {} && r.triggerKeys - found == {}
  }

  /** Some trigger key was found, and one or two are missing. */
  predicate IsPartial(r: Recipe, found: set<string>)
  {
    && r.triggerKeys != {}
    && r.triggerKeys - found != {}
    && found * r.triggerKeys != {}
    && |r.triggerKeys - found| <= 2
  }

  /** The candidate record, with its score (matches, -missing, -excess, priority). */
  function MakeCandidate(r: Recipe, found: set<string>): Candidate
  {
    var matching := found * r.triggerKeys;
    var missing := r.triggerKeys - found;
    var excess := found - r.triggerKeys;
    Candidate(r, |matching|, missing, excess, [|matching|, -|missing|, -|excess|, Priority(r)])
  }

  function PriorityKey(r: Recipe): seq<int>
  {
    [Priority(r)]
  }

  function ScoreKey(c: Candidate): seq<int>
  {
    c.score
  }

  /** The perfect candidates, in recipe order. */
  function PerfectCandidates(rs: seq<Recipe>, found: set<string>): seq<Recipe>
  {
    if rs == [] then []
    else PerfectCandidates(rs[..|rs| - 1], found)
         + (if IsPerfect(rs[|rs| - 1], found) then [rs[|rs| - 1]] else [])
  }

  /** The partial candidates, in recipe order. */
  function PartialCandidates(rs: seq<Recipe>, found: set<string>): seq<Candidate>
  {
    if rs == [] then []
    else PartialCandidates(rs[..|rs| - 1], found)
         + (if !IsPerfect(rs[|rs| - 1], found) && IsPartial(rs[|rs| - 1], found)
            then [MakeCandidate(rs[|rs| - 1], found)] else [])
  }

  /** The candidates with at least one match, in order. */
  function Positive(cs: seq<Candidate>): seq<Candidate>
  {
    if cs == [] then []
    else Positive(cs[..|cs| - 1]) + (if cs[|cs| - 1].matchCount > 0 then [cs[|cs| - 1]] else [])
  }

  /** The first three candidates with at least one match (fewer if there are fewer). */
  function TopOptions(cs: seq<Candidate>): seq<Candidate>
  {
    var p := Positive(cs);
    if |p| <= 3 then p else p[..3]
  }

  /** `find_matching_recipe`, as a specification. */
  function Match(rs: seq<Recipe>, found: set<string>): MatchResult
  {
    var perfect := PerfectCandidates(rs, found);
    if perfect != [] then Perfect(SortDesc(perfect, PriorityKey)[0])
    else
      var partial := PartialCandidates(rs, found);
      if partial == [] then NoMatch
      else
        var top := TopOptions(SortDesc(partial, ScoreKey));
        if top == [] then NoMatch else PartialOptions(top)
  }

  // ---------------------------------------------------------------------------
  // The method
  // ---------------------------------------------------------------------------

  /** The pass over the recipes: perfect recipes and partial candidates, each in recipe order. */
  method CollectCandidates(recipes: seq<Recipe>, found: set<string>)
    returns (perfect: seq<Recipe>, partial: seq<Candidate>)
    ensures perfect == PerfectCandidates(recipes, found)
    ensures partial == PartialCandidates(recipes, found)
  {
    perfect, partial := [], [];
    for i := 0 to |recipes|
      invariant perfect == PerfectCandidates(recipes[..i], found)
      invariant partial == PartialCandidates(recipes[..i], found)
    {
      assert recipes[..i + 1][..i] == recipes[..i];
      var recipe := recipes[i];
      var triggers := recipe.triggerKeys;
      if triggers == {} {
        continue;
      }
      var matching := found * triggers;
      var missing := triggers - found;
      var excess := found - triggers;
      if missing == {} {
        perfect := perfect + [recipe];
        continue;
      }
      if matching != {} && |missing| <= 2 {
        partial := partial + [Candidate(recipe, |matching|, missing, excess,
                                        [|matching|, -|missing|, -|excess|, Priority(recipe)])];
      }
    }
    assert recipes[..|recipes|] == recipes;
  }

  /** The loop over the sorted candidates that keeps at most three with a match. */
  method TakeTopOptions(sorted: seq<Candidate>) returns (top: seq<Candidate>)
    ensures top == TopOptions(sorted)
  {
    top := [];
    for k := 0 to |sorted|
      invariant top == Positive(sorted[..k])
      invariant |top| < 3
    {
      assert sorted[..k + 1][..k] == sorted[..k];
      if sorted[k].matchCount > 0 {
        top := top + [sorted[k]];
      }
      if |top| >= 3 {
        PositiveAppend(sorted[..k + 1], sorted[k + 1..]);
        assert sorted[..k + 1] + sorted[k + 1..] == sorted;
        return;
      }
    }
    assert sorted[..|sorted|] == sorted;
  }

  /** One pass over the recipes collecting candidates, then the choice among them. */
  method FindMatchingRecipe(recipes: seq<Recipe>, found: set<string>) returns (result: MatchResult)
    ensures result == Match(recipes, found)
  {
    var perfect, partial := CollectCandidates(recipes, found);
    if perfect != [] {
      return Perfect(SortDesc(perfect, PriorityKey)[0]);
    }
    if partial != [] {
      var sorted := SortDesc(partial, ScoreKey);
      var top := TakeTopOptions(sorted);
      if top != [] {
        return PartialOptions(top);
      }
    }
    return NoMatch;
  }

  // ---------------------------------------------------------------------------
  // What the choice guarantees
  // ---------------------------------------------------------------------------

  lemma {:induction false} PositiveAppend(a: seq<Candidate>, b: seq<Candidate>)
    ensures Positive(a + b) == Positive(a) + Positive(b)
    decreases |b|
  {
    if b == [] {
      assert a + b == a;
    } else {
      assert (a + b)[..|a + b| - 1] == a + b[..|b| - 1];
      PositiveAppend(a, b[..|b| - 1]);
    }
  }

  /** The perfect candidates are exactly the perfect recipes. */
  lemma {:induction false} PerfectMembers(rs: seq<Recipe>, found: set<string>, x: Recipe)
    ensures x in PerfectCandidates(rs, found) <==> x in rs && IsPerfect(x, found)
  {
    if rs != [] {
      PerfectMembers(rs[..|rs| - 1], found, x);
      assert rs == rs[..|rs| - 1] + [rs[|rs| - 1]];
    }
  }

  /** The p-th perfect candidate sits at some index i of the recipes, after exactly the first p. */
  lemma {:induction false} PerfectIndex(rs: seq<Recipe>, found: set<string>, p: nat) returns (i: nat)
    requires p < |PerfectCandidates(rs, found)|
    ensures i < |rs| && rs[i] == PerfectCandidates(rs, found)[p]
    ensures PerfectCandidates(rs[..i], found) == PerfectCandidates(rs, found)[..p]
  {
    var n := |rs| - 1;
    var init := rs[..n];
    if p < |PerfectCandidates(init, found)| {
      i := PerfectIndex(init, found, p);
      assert rs[..i] == init[..i];
    } else {
      i := n;
    }
  }

  /** Every candidate of the partial class is a partial, not perfect, recipe with its figures. */
  lemma {:induction false} PartialMembers(rs: seq<Recipe>, found: set<string>, c: Candidate)
    ensures c in PartialCandidates(rs, found) <==>
      c.recipe in rs && !IsPerfect(c.recipe, found) && IsPartial(c.recipe, found)
      && c == MakeCandidate(c.recipe, found)
  {
    if rs != [] {
      PartialMembers(rs[..|rs| - 1], found, c);
      assert rs == rs[..|rs| - 1] + [rs[|rs| - 1]];
    }
  }

  lemma {:induction false} PositiveOfPartial(cs: seq<Candidate>)
    requires forall c :: c in cs ==> c.matchCount > 0
    ensures Positive(cs) == cs
  {
    if cs != [] {
      PositiveOfPartial(cs[..|cs| - 1]);
      assert cs == cs[..|cs| - 1] + [cs[|cs| - 1]];
    }
  }

  /** No perfect recipe has a higher priority than the one the sort puts first. */
  lemma PerfectBelowBest(rs: seq<Recipe>, found: set<string>, best: Recipe)
    requires PerfectCandidates(rs, found) != []
    requires forall q :: 0 <= q < |PerfectCandidates(rs, found)| ==>
      LexLe(PriorityKey(PerfectCandidates(rs, found)[q]), PriorityKey(best))
    ensures forall j :: 0 <= j < |rs| && IsPerfect(rs[j], found) ==> Priority(rs[j]) <= Priority(best)
  {
    var perfect := PerfectCandidates(rs, found);
    forall j | 0 <= j < |rs| && IsPerfect(rs[j], found)
      ensures Priority(rs[j]) <= Priority(best)
    {
      PerfectMembers(rs, found, rs[j]);
      var q :| 0 <= q < |perfect| && perfect[q] == rs[j];
      LexLeSingleton(Priority(rs[j]), Priority(best));
    }
  }

  /** The perfect recipes before the first one of the top priority have lower priorities. */
  lemma PerfectBeforeBest(rs: seq<Recipe>, found: set<string>, best: Recipe, p: nat, i: nat)
    requires p < |PerfectCandidates(rs, found)| && i <= |rs|
    requires PerfectCandidates(rs[..i], found) == PerfectCandidates(rs, found)[..p]
    requires forall q :: 0 <= q < |PerfectCandidates(rs, found)| ==>
      LexLe(PriorityKey(PerfectCandidates(rs, found)[q]), PriorityKey(best))
    requires forall q :: 0 <= q < p ==> PriorityKey(PerfectCandidates(rs, found)[q]) != PriorityKey(best)
    ensures forall j :: 0 <= j < i && IsPerfect(rs[j], found) ==> Priority(rs[j]) < Priority(best)
  {
    var perfect := PerfectCandidates(rs, found);
    forall j | 0 <= j < i && IsPerfect(rs[j], found)
      ensures Priority(rs[j]) < Priority(best)
    {
      PerfectMembers(rs[..i], found, rs[j]);
      assert rs[j] in rs[..i];
      var q :| 0 <= q < p && perfect[q] == rs[j];
      LexLeSingleton(Priority(rs[j]), Priority(best));
    }
  }

  /** The recipe chosen among the perfect ones, located in the recipe list. */
  lemma BestPerfect(rs: seq<Recipe>, found: set<string>) returns (i: nat)
    requires PerfectCandidates(rs, found) != []
    ensures i < |rs| && rs[i] == SortDesc(PerfectCandidates(rs, found), PriorityKey)[0]
    ensures IsPerfect(rs[i], found)
    ensures forall j :: 0 <= j < |rs| && IsPerfect(rs[j], found) ==> Priority(rs[j]) <= Priority(rs[i])
    ensures forall j :: 0 <= j < i && IsPerfect(rs[j], found) ==> Priority(rs[j]) < Priority(rs[i])
  {
    var perfect := PerfectCandidates(rs, found);
    var best := SortDesc(perfect, PriorityKey)[0];
    var p := SortDescHead(perfect, PriorityKey);
    i := PerfectIndex(rs, found, p);
    PerfectMembers(rs, found, best);
    PerfectBelowBest(rs, found, best);
    PerfectBeforeBest(rs, found, best, p, i);
  }

  /**
   * Perfect dominance: the result is "perfect" exactly when some recipe has
   * all its trigger keys found. The recipe returned is then a perfect one of
   * highest priority, and every perfect recipe before it in the recipe
   * sequence has a strictly lower priority.
   */
  lemma MatchPerfect(rs: seq<Recipe>, found: set<string>)
    ensures Match(rs, found).Perfect? <==> exists i :: 0 <= i < |rs| && IsPerfect(rs[i], found)
    ensures Match(rs, found).Perfect? ==>
      exists i :: 0 <= i < |rs| && rs[i] == Match(rs, found).recipe && IsPerfect(rs[i], found)
        && (forall j :: 0 <= j < |rs| && IsPerfect(rs[j], found) ==> Priority(rs[j]) <= Priority(rs[i]))
        && (forall j :: 0 <= j < i && IsPerfect(rs[j], found) ==> Priority(rs[j]) < Priority(rs[i]))
  {
    if exists i :: 0 <= i < |rs| && IsPerfect(rs[i], found) {
      var i :| 0 <= i < |rs| && IsPerfect(rs[i], found);
      PerfectMembers(rs, found, rs[i]);
    }
    if PerfectCandidates(rs, found) != [] {
      var i := BestPerfect(rs, found);
    }
  }

  /** What every partial candidate carries, wherever the sort puts it. */
  lemma SortedPartialMember(rs: seq<Recipe>, found: set<string>, c: Candidate)
    requires c in SortDesc(PartialCandidates(rs, found), ScoreKey)
    ensures c.recipe in rs && IsPartial(c.recipe, found) && c == MakeCandidate(c.recipe, found)
    ensures c.matchCount > 0 && |c.missingKeys| <= 2
  {
    assert c in multiset(SortDesc(PartialCandidates(rs, found), ScoreKey));
    PartialMembers(rs, found, c);
  }

  /** When every candidate has a match, the options are simply the first three. */
  lemma TopOptionsOfPositive(cs: seq<Candidate>)
    requires forall c :: c in cs ==> c.matchCount > 0
    ensures TopOptions(cs) == cs[..if |cs| < 3 then |cs| else 3]
  {
    PositiveOfPartial(cs);
  }

  /**
   * Without a perfect recipe, the result is "partial_options" exactly when
   * some recipe is a partial candidate.
   */
  lemma MatchPartialIff(rs: seq<Recipe>, found: set<string>)
    requires forall i :: 0 <= i < |rs| ==> !IsPerfect(rs[i], found)
    ensures Match(rs, found).PartialOptions? <==> exists i :: 0 <= i < |rs| && IsPartial(rs[i], found)
  {
    NoPerfectCandidates(rs, found);
    var partial := PartialCandidates(rs, found);
    if partial == [] {
      forall i | 0 <= i < |rs|
        ensures !IsPartial(rs[i], found)
      {
        if IsPartial(rs[i], found) {
          PartialMembers(rs, found, MakeCandidate(rs[i], found));
        }
      }
    } else {
      var sorted := SortDesc(partial, ScoreKey);
      forall c | c in sorted
        ensures c.matchCount > 0
      {
        SortedPartialMember(rs, found, c);
      }
      TopOptionsOfPositive(sorted);
      assert Match(rs, found) == PartialOptions(TopOptions(sorted));
      assert partial[0] in partial;
      PartialMembers(rs, found, partial[0]);
      var i :| 0 <= i < |rs| && rs[i] == partial[0].recipe;
    }
  }

  lemma NoPerfectCandidates(rs: seq<Recipe>, found: set<string>)
    requires forall i :: 0 <= i < |rs| ==> !IsPerfect(rs[i], found)
    ensures PerfectCandidates(rs, found) == []
  {
    if PerfectCandidates(rs, found) != [] {
      PerfectMembers(rs, found, PerfectCandidates(rs, found)[0]);
    }
  }

  /**
   * The options offered are one to three partial candidates, each with at
   * least one matching key and at most two missing ones, ordered by score
   * from best to worst: the first options of the stable sort of the partial
   * candidates taken in recipe order.
   */
  lemma MatchPartialOptions(rs: seq<Recipe>, found: set<string>)
    requires Match(rs, found).PartialOptions?
    ensures
      var opts := Match(rs, found).options;
      var sorted := SortDesc(PartialCandidates(rs, found), ScoreKey);
      && 1 <= |opts| <= 3
      && |opts| == (if |sorted| < 3 then |sorted| else 3)
      && opts == sorted[..|opts|]
      && (forall k :: 0 <= k < |opts| ==>
            opts[k].recipe in rs && IsPartial(opts[k].recipe, found)
            && opts[k] == MakeCandidate(opts[k].recipe, found)
            && opts[k].matchCount > 0 && |opts[k].missingKeys| <= 2)
      && (forall k, l :: 0 <= k < l < |opts| ==> LexLe(opts[l].score, opts[k].score))
  {
    var partial := PartialCandidates(rs, found);
    var sorted := SortDesc(partial, ScoreKey);
    forall c | c in sorted
      ensures c.matchCount > 0
    {
      SortedPartialMember(rs, found, c);
    }
    TopOptionsOfPositive(sorted);
    SortDescSorted(partial, ScoreKey);
    var opts := TopOptions(sorted);
    assert Match(rs, found).options == opts;
    forall k | 0 <= k < |opts|
      ensures opts[k].recipe in rs && IsPartial(opts[k].recipe, found)
      ensures opts[k] == MakeCandidate(opts[k].recipe, found)
      ensures opts[k].matchCount > 0 && |opts[k].missingKeys| <= 2
    {
      assert opts[k] == sorted[k];
      SortedPartialMember(rs, found, sorted[k]);
    }
  }

  /** The result is "none" exactly when no recipe is a perfect or partial candidate. */
  lemma MatchNone(rs: seq<Recipe>, found: set<string>)
    ensures Match(rs, found).NoMatch? <==>
      forall i :: 0 <= i < |rs| ==> !IsPerfect(rs[i], found) && !IsPartial(rs[i], found)
  {
    MatchPerfect(rs, found);
    if forall i :: 0 <= i < |rs| ==> !IsPerfect(rs[i], found) {
      MatchPartialIff(rs, found);
    }
  }

  // ---------------------------------------------------------------------------
  // Direct lookups
  // ---------------------------------------------------------------------------

  /** One of the recipe's intention phrases occurs, as a plain substring, in the query. */
  predicate HasIntention(r: Recipe, query: string)
  {
    match r.intentionAliases
    case None => false
    case Some(aliases) => exists k | 0 <= k < |aliases| :: Contains(query, aliases[k])
  }

  function FirstWithIntention(rs: seq<Recipe>, query: string, from: nat): (r: Option<Recipe>)
    requires from <= |rs|
    decreases |rs| - from
    ensures r.None? <==> forall i :: from <= i < |rs| ==> !HasIntention(rs[i], query)
    ensures r.Some? ==> exists i :: from <= i < |rs| && rs[i] == r.value && HasIntention(rs[i], query)
                           && forall j :: from <= j < i ==> !HasIntention(rs[j], query)
  {
    if from == |rs| then None
    else if HasIntention(rs[from], query) then Some(rs[from])
    else FirstWithIntention(rs, query, from + 1)
  }

  /**
   * `find_recipe_by_intention`: the first recipe, in recipe order, one of
   * whose intention phrases occurs in the lower-cased query. The phrases
   * themselves are compared as written.
   */
  function FindRecipeByIntention(rs: seq<Recipe>, query: string): (r: Option<Recipe>)
    ensures r.None? <==> forall i :: 0 <= i < |rs| ==> !HasIntention(rs[i], LowerStr(query))
    ensures r.Some? ==> exists i :: 0 <= i < |rs| && rs[i] == r.value && HasIntention(rs[i], LowerStr(query))
                           && forall j :: 0 <= j < i ==> !HasIntention(rs[j], LowerStr(query))
  {
    FirstWithIntention(rs, LowerStr(query), 0)
  }

  /** The recipes of a category, in order. */
  function InCategory(rs: seq<Recipe>, category: string): seq<Recipe>
  {
    if rs == [] then []
    else (if rs[0].category == Some(category) then [rs[0]] else []) + InCategory(rs[1..], category)
  }

  /** The candidates are exactly the recipes of the category. */
  lemma {:induction false} InCategoryMembers(rs: seq<Recipe>, category: string)
    ensures forall x :: x in InCategory(rs, category) <==> x in rs && x.category == Some(category)
  {
    if rs != [] {
      InCategoryMembers(rs[1..], category);
      assert rs == [rs[0]] + rs[1..];
    }
  }

  /**
   * `find_random_recipe_by_category`: nothing when no recipe has the
   * category, otherwise the candidate `random.choice` picks; the draw is
   * the injected random number.
   */
  function FindRandomRecipeByCategory(rs: seq<Recipe>, category: string, draw: nat): Option<Recipe>
  {
    var candidates := InCategory(rs, category);
    if candidates == [] then None else Some(Pick(candidates, draw))
  }

  /** Nothing exactly when no recipe has the category; otherwise a recipe of the category. */
  lemma CategoryPick(rs: seq<Recipe>, category: string, draw: nat)
    ensures FindRandomRecipeByCategory(rs, category, draw).None?
        <==> forall i :: 0 <= i < |rs| ==> rs[i].category != Some(category)
    ensures FindRandomRecipeByCategory(rs, category, draw).Some? ==>
      FindRandomRecipeByCategory(rs, category, draw).value in rs
      && FindRandomRecipeByCategory(rs, category, draw).value.category == Some(category)
  {
    var candidates := InCategory(rs, category);
    InCategoryMembers(rs, category);
    if candidates == [] {
      forall i | 0 <= i < |rs|
        ensures rs[i].category != Some(category)
      {
        assert rs[i] !in candidates;
      }
    } else {
      assert Pick(candidates, draw) in candidates;
    }
  }

  /** `random.choice(candidates)`, with the draw as the injected random number. */
  function Pick(candidates: seq<Recipe>, draw: nat): (r: Recipe)
    requires candidates != []
    ensures r in candidates
  {
    candidates[draw % |candidates|]
  }

  /** Every recipe of the category is the pick of some draw. */
  lemma CategoryReachable(rs: seq<Recipe>, category: string, i: nat) returns (draw: nat)
    requires i < |rs| && rs[i].category == Some(category)
    ensures FindRandomRecipeByCategory(rs, category, draw) == Some(rs[i])
  {
    draw := CategoryIndex(rs, category, i);
    ModSmall(draw, |InCategory(rs, category)|);
  }

  lemma ModSmall(a: nat, n: nat)
    requires a < n
    ensures a % n == a
  {
  }

  /** Where a recipe of the category sits among the candidates. */
  lemma {:induction false} CategoryIndex(rs: seq<Recipe>, category: string, i: nat) returns (k: nat)
    requires i < |rs| && rs[i].category == Some(category)
    ensures k < |InCategory(rs, category)| && InCategory(rs, category)[k] == rs[i]
  {
    if i == 0 {
      k := 0;
    } else {
      var j := CategoryIndex(rs[1..], category, i - 1);
      k := j + |InCategory(rs, category)| - |InCategory(rs[1..], category)|;
    }
  }
}
