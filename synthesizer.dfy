/**
 * The knowledge base and the entry points that use it: loading, parsing a
 * user's query, and composing the reply.
 *
 * The knowledge base is a module-level dictionary in the program; here it is
 * an object whose fields the operations update in place. The JSON files
 * arrive as parsed values, in directory-listing order.
 */
module Synthesizer {
  import opened Wrappers
  import opened Text
  import opened Sorting
  import opened Records
  import opened Extraction
  import opened Matching
  import opened Rendering

  /** How loading ended: the two fatal conditions, or success with a warning flag for an empty glossary. */
  datatype LoadStatus = Loaded(noTerms: bool) | NoRecipes | NoIngredients

  /** `phrases["rejection_phrases"].get(name, "Ошибка.")`, with an absent section read as empty. */
  function Rejection(ph: Phrases, name: string): string
  {
    if name in ph.rejectionPhrases then ph.rejectionPhrases[name] else "Ошибка."
  }

  /**
   * `synthesize_response(query)` on the knowledge base as it stands when the
   * call starts (`t` is the ingredient table before the parser grows its
   * alias lists; assembly sees the grown table).
   */
  function Reply(t: Table, recipes: seq<Recipe>, phrases: Phrases, terms: map<string, Term>,
                 query: string, draw: nat -> nat): Option<Response>
  {
    var found := ExtractKeys(t, query);
    if found == {} then Some(Response(Rejection(phrases, "no_ingredients_found"), {}))
    else
      match Match(recipes, found)
      case Perfect(r) => Assembled(r, GrowAll(t), phrases, terms, draw)
      case _ => Some(Response(Rejection(phrases, "no_recipe_found"), {}))
  }

  /**
   * Without a recipe whose every trigger key was found, the reply is the
   * matching rejection phrase and mentions no terms; partial options are
   * never offered to the user.
   */
  lemma ReplyRejects(t: Table, recipes: seq<Recipe>, phrases: Phrases, terms: map<string, Term>,
                     query: string, draw: nat -> nat)
    requires forall i :: 0 <= i < |recipes| ==> !IsPerfect(recipes[i], ExtractKeys(t, query))
    ensures ExtractKeys(t, query) == {} ==>
      Reply(t, recipes, phrases, terms, query, draw) == Some(Response(Rejection(phrases, "no_ingredients_found"), {}))
    ensures ExtractKeys(t, query) != {} ==>
      Reply(t, recipes, phrases, terms, query, draw) == Some(Response(Rejection(phrases, "no_recipe_found"), {}))
  {
    MatchPerfect(recipes, ExtractKeys(t, query));
  }

  /**
   * With a recipe whose every trigger key was found, the reply is a recipe
   * assembled from one of the perfect recipes, of the highest priority among
   * them; it fails only on an empty list of sarcastic comments.
   */
  lemma ReplyAssembles(t: Table, recipes: seq<Recipe>, phrases: Phrases, terms: map<string, Term>,
                       query: string, draw: nat -> nat, j: nat)
    requires j < |recipes| && IsPerfect(recipes[j], ExtractKeys(t, query))
    ensures exists i :: (0 <= i < |recipes| && IsPerfect(recipes[i], ExtractKeys(t, query))
      && Priority(recipes[j]) <= Priority(recipes[i])
      && Reply(t, recipes, phrases, terms, query, draw) == Assembled(recipes[i], GrowAll(t), phrases, terms, draw))
    ensures Match(recipes, ExtractKeys(t, query)).Perfect?
    ensures Reply(t, recipes, phrases, terms, query, draw)
         == Assembled(Match(recipes, ExtractKeys(t, query)).recipe, GrowAll(t), phrases, terms, draw)
    ensures CommentPool(phrases) != [] ==> Reply(t, recipes, phrases, terms, query, draw).Some?
  {
    var found := ExtractKeys(t, query);
    MatchPerfect(recipes, found);
    var r := Match(recipes, found).recipe;
    var i :| 0 <= i < |recipes| && recipes[i] == r && IsPerfect(recipes[i], found);
    assert found != {} by {
      var x :| x in recipes[j].triggerKeys;
      assert x in found;
    }
    assert Priority(recipes[j]) <= Priority(r);
    if CommentPool(phrases) != [] {
      AssembleTotal(r, Context(GrowAll(t), CommentPool(phrases), draw));
    }
  }

  /**
   * Step 3 of `parse_user_query`: each search term in turn is looked for as
   * a whole word in the padded text, and each hit is blanked out.
   */
  method ScanQuery(sorted: seq<SearchTerm>, cleaned: string) returns (found: set<string>)
    ensures found == ScanAll(sorted, Scan(Pad(cleaned), {})).found
  {
    var work := Pad(cleaned);
    found := {};
    for k := 0 to |sorted|
      invariant ScanAll(sorted[k..], Scan(work, found)) == ScanAll(sorted, Scan(Pad(cleaned), {}))
    {
      var st := sorted[k];
      assert sorted[k..][0] == st && sorted[k..][1..] == sorted[k + 1..];
      var m := FindWholeWord(work, st.alias);
      if m.Some? {
        found := found + {st.key};
        var start, end := m.value, m.value + |st.alias|;
        work := work[..start] + Spaces(end - start) + work[end..];
      }
    }
  }

  /** The inner loop of step 1: one normalised search term per alias, appended in order. */
  method AppendAliasTerms(all: seq<SearchTerm>, aliases: seq<string>, key: string)
    returns (r: seq<SearchTerm>)
    ensures r == all + AliasTerms(aliases, key)
  {
    r := all;
    for j := 0 to |aliases|
      invariant r == all + AliasTerms(aliases[..j], key)
    {
      assert aliases[..j + 1][..j] == aliases[..j];
      r := r + [SearchTerm(Normalize(aliases[j]), key)];
    }
    assert aliases[..|aliases|] == aliases;
  }

  /**
   * Step 1 of `parse_user_query`: every alias and key of every ingredient,
   * normalised, record after record. Appending the key to a record's alias
   * list in place grows that record.
   */
  method GrowAndCollect(table: Table) returns (grown: Table, all: seq<SearchTerm>)
    ensures grown == GrowAll(table)
    ensures all == SearchTerms(table)
  {
    grown := table;
    all := [];
    for i := 0 to |table|
      invariant all == SearchTerms(table[..i])
      invariant grown == GrowAll(table[..i]) + table[i..]
    {
      var ing := table[i];
      var aliases := SearchAliases(ing);
      GrowOne(table, grown, i);
      grown := grown[i := GrowAliases(ing)];
      SearchTermsSnoc(table, i);
      all := AppendAliasTerms(all, aliases, ing.key);
    }
    assert all == SearchTerms(table) by {
      assert table[..|table|] == table;
    }
    GrowAllDone(table, grown);
  }

  /** The knowledge base. */
  class KnowledgeBase {
    var ingredients: Table
    var recipes: seq<Recipe>
    var phrases: Phrases
    var terms: map<string, Term>

    /**
     * The ingredient table is a dictionary: no key occurs twice, so every
     * stored record is what its key looks up (`Records.LookupStored`).
     */
    ghost predicate Valid()
      reads this
    {
      DistinctKeys(ingredients)
    }

    /** The empty knowledge base, as it is before loading. */
    constructor()
      ensures Valid()
      ensures ingredients == [] && recipes == [] && terms == map[]
      ensures phrases == Phrases(None, map[])
    {
      ingredients := [];
      recipes := [];
      phrases := Phrases(None, map[]);
      terms := map[];
    }

    /**
     * `load_knowledge_base`: ingredient files merged into one table, recipe
     * files concatenated, the phrases taken whole and the terms keyed by id.
     * Every field is set before the checks, so a failed load leaves them filled.
     */
    method Load(ingredientFiles: seq<seq<Ingredient>>, recipeFiles: seq<seq<Recipe>>,
                phraseDoc: Phrases, termList: seq<Term>) returns (status: LoadStatus)
      modifies this
      ensures Valid()
      ensures ingredients == MergeIngredients(ingredientFiles)
      ensures recipes == Flatten(recipeFiles)
      ensures phrases == phraseDoc
      ensures terms == TermsById(termList)
      ensures status == if recipes == [] then NoRecipes
                        else if ingredients == [] then NoIngredients
                        else Loaded(termList == [])
    {
      ingredients := [];
      for i := 0 to |ingredientFiles|
        invariant ingredients == MergeIngredients(ingredientFiles[..i])
      {
        assert ingredientFiles[..i + 1][..i] == ingredientFiles[..i];
        ingredients := Update(ingredients, ingredientFiles[i]);
      }
      assert ingredientFiles[..|ingredientFiles|] == ingredientFiles;
      MergeIngredientsDistinct(ingredientFiles);

      recipes := [];
      for i := 0 to |recipeFiles|
        invariant recipes == Flatten(recipeFiles[..i])
        invariant ingredients == MergeIngredients(ingredientFiles)
      {
        assert recipeFiles[..i + 1][..i] == recipeFiles[..i];
        recipes := recipes + recipeFiles[i];
      }
      assert recipeFiles[..|recipeFiles|] == recipeFiles;

      phrases := phraseDoc;
      terms := TermsById(termList);

      if recipes == [] {
        return NoRecipes;
      }
      if ingredients == [] {
        return NoIngredients;
      }
      TermsByIdEmpty(termList);
      return Loaded(terms == map[]);
    }

    /**
     * Step 1 of `parse_user_query`, with the grown alias lists written back
     * to the table.
     */
    method CollectSearchTerms() returns (all: seq<SearchTerm>)
      requires Valid()
      modifies this
      ensures Valid()
      ensures ingredients == GrowAll(old(ingredients))
      ensures recipes == old(recipes) && phrases == old(phrases) && terms == old(terms)
      ensures all == SearchTerms(old(ingredients))
    {
      var grown;
      grown, all := GrowAndCollect(ingredients);
      GrowAllDistinct(ingredients);
      ingredients := grown;
    }

    /**
     * `parse_user_query`: the keys of the ingredients named in `text`. As a
     * side effect every stored alias list gets its ingredient's key appended.
     */
    method ParseUserQuery(text: string) returns (found: set<string>)
      requires Valid()
      modifies this
      ensures Valid()
      ensures ingredients == GrowAll(old(ingredients))
      ensures recipes == old(recipes) && phrases == old(phrases) && terms == old(terms)
      ensures found == ExtractKeys(old(ingredients), text)
    {
      var cleaned := Normalize(text);
      var all := CollectSearchTerms();
      // Step 2: longest aliases first.
      var sorted := SortDesc(all, AliasLength);
      found := ScanQuery(sorted, cleaned);
    }

    /**
     * `synthesize_response`: parse the query, match it against the recipes,
     * and either assemble the best perfect recipe or answer with a rejection
     * phrase. `None` is the crash of a random choice from an empty list.
     */
    method SynthesizeResponse(query: string, draw: nat -> nat) returns (res: Option<Response>)
      requires Valid()
      modifies this
      ensures Valid()
      ensures ingredients == GrowAll(old(ingredients))
      ensures recipes == old(recipes) && phrases == old(phrases) && terms == old(terms)
      ensures res == Reply(old(ingredients), recipes, phrases, terms, query, draw)
    {
      var found := ParseUserQuery(query);
      if found == {} {
        return Some(Response(Rejection(phrases, "no_ingredients_found"), {}));
      }
      var matchResult := FindMatchingRecipe(recipes, found);
      if matchResult.Perfect? {
        res := AssembleRecipe(matchResult.recipe, ingredients, phrases, terms, draw);
      } else {
        res := Some(Response(Rejection(phrases, "no_recipe_found"), {}));
      }
    }
  }
}
