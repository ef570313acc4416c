/**
 * The knowledge base's records, as the JSON files describe them, and the
 * aggregation the loader performs on them: ingredient fragments merged into
 * one table (the last fragment to mention a key wins), recipe fragments
 * concatenated in order, the term list keyed by `term_id`.
 *
 * An absent optional JSON field is `None` (or an empty collection where the
 * code reads it with an empty default).
 */
module Records {
  import opened Wrappers

  datatype Ingredient = Ingredient(
    key: string,
    aliases: Option<seq<string>>,      // None: the record has no "aliases" field
    nameForms: map<string, string>,    // grammatical case label -> inflected name
    scientificName: Option<string>)

  /** A procedure is either a list of steps or one string. */
  datatype Procedure = Steps(steps: seq<string>) | Whole(text: string)

  datatype Templates = Templates(
    reagents: Option<string>,
    procedure: Option<Procedure>,
    effects: Option<string>)

  datatype Recipe = Recipe(
    id: string,
    title: Option<string>,
    category: Option<string>,
    triggerKeys: set<string>,
    priority: Option<int>,
    templates: Templates,
    intentionAliases: Option<seq<string>>)

  /** The parts of a term the core reads. */
  datatype Term = Term(termId: string, aliases: seq<string>)

  datatype Phrases = Phrases(
    sarcasticComments: Option<seq<string>>,
    rejectionPhrases: map<string, string>)

  /** `recipe.get("priority", 0)`. */
  function Priority(r: Recipe): int
  {
    r.priority.GetOr(0)
  }

  // ---------------------------------------------------------------------------
  // The ingredient table: a dictionary keyed by ingredient key, in insertion order
  // ---------------------------------------------------------------------------

  type Table = seq<Ingredient>

  ghost predicate DistinctKeys(t: Table)
  {
    forall i, j :: 0 <= i < j < |t| ==> t[i].key != t[j].key
  }

  function Keys(t: Table): set<string>
  {
    set i | 0 <= i < |t| :: t[i].key
  }

  lemma KeysCons(h: Ingredient, t: Table)
    ensures Keys([h] + t) == {h.key} + Keys(t)
  {
    var r := [h] + t;
    assert forall i :: 0 < i < |r| ==> r[i] == t[i - 1];
    forall k | k in Keys(t)
      ensures k in Keys(r)
    {
      var i :| 0 <= i < |t| && t[i].key == k;
      assert r[i + 1] == t[i];
    }
    assert r[0].key == h.key;
  }

  /** `table.get(k)`. */
  function Lookup(t: Table, k: string): (r: Option<Ingredient>)
    ensures r.Some? ==> r.value in t && r.value.key == k
    ensures r.None? <==> k !in Keys(t)
  {
    if t == [] then None
    else if t[0].key == k then Some(t[0])
    else
      assert t == [t[0]] + t[1..];
      KeysCons(t[0], t[1..]);
      Lookup(t[1..], k)
  }

  /** In a table with distinct keys, every stored record is the one its key looks up. */
  lemma {:induction false} LookupStored(t: Table, i: nat)
    requires DistinctKeys(t) && i < |t|
    ensures Lookup(t, t[i].key) == Some(t[i])
  {
    if i > 0 {
      assert t[0].key != t[i].key;
      assert t[1..][i - 1] == t[i];
      LookupStored(t[1..], i - 1);
    }
  }

  /** `table[ing.key] = ing`: replaces the entry in place, or appends a new one. */
  function Put(t: Table, ing: Ingredient): (r: Table)
  {
    if t == [] then [ing]
    else if t[0].key == ing.key then [ing] + t[1..]
    else [t[0]] + Put(t[1..], ing)
  }

  lemma {:induction false} PutLookup(t: Table, ing: Ingredient, k: string)
    ensures Lookup(Put(t, ing), k) == if k == ing.key then Some(ing) else Lookup(t, k)
  {
    if t != [] && t[0].key != ing.key {
      PutLookup(t[1..], ing, k);
      assert Put(t, ing)[1..] == Put(t[1..], ing);
    } else if t != [] {
      assert Put(t, ing)[1..] == t[1..];
    }
  }

  lemma {:induction false} PutDistinct(t: Table, ing: Ingredient)
    requires DistinctKeys(t)
    ensures DistinctKeys(Put(t, ing))
    ensures Keys(Put(t, ing)) == Keys(t) + {ing.key}
  {
    var r := Put(t, ing);
    if t == [] {
      KeysCons(ing, []);
      assert [ing] + [] == [ing];
    } else if t[0].key == ing.key {
      assert t == [t[0]] + t[1..];
      KeysCons(t[0], t[1..]);
      KeysCons(ing, t[1..]);
      assert forall i :: 0 < i < |t| ==> r[i] == t[i];
    } else {
      var rest := Put(t[1..], ing);
      assert DistinctKeys(t[1..]) by {
        forall i, j | 0 <= i < j < |t[1..]|
          ensures t[1..][i].key != t[1..][j].key
        {
          assert t[1..][i] == t[i + 1] && t[1..][j] == t[j + 1];
        }
      }
      PutDistinct(t[1..], ing);
      assert t == [t[0]] + t[1..];
      KeysCons(t[0], t[1..]);
      KeysCons(t[0], rest);
      assert t[0].key !in Keys(t[1..]) by {
        forall i | 0 <= i < |t[1..]|
          ensures t[1..][i].key != t[0].key
        {
          assert t[1..][i] == t[i + 1];
        }
      }
      forall i, j | 0 <= i < j < |r|
        ensures r[i].key != r[j].key
      {
        assert r[j] == rest[j - 1];
        assert rest[j - 1].key in Keys(rest);
        if i > 0 {
          assert r[i] == rest[i - 1];
        }
      }
    }
  }

  /** `table.update(fragment)`: the fragment's entries are put in order. */
  function Update(t: Table, fragment: seq<Ingredient>): Table
  {
    if fragment == [] then t
    else Put(Update(t, fragment[..|fragment| - 1]), fragment[|fragment| - 1])
  }

  /** The last entry of `s` with key `k`. */
  function LastWithKey(s: seq<Ingredient>, k: string): (r: Option<Ingredient>)
    ensures r.Some? ==> r.value in s && r.value.key == k
    ensures r.None? ==> forall i :: 0 <= i < |s| ==> s[i].key != k
  {
    if s == [] then None
    else if s[|s| - 1].key == k then Some(s[|s| - 1])
    else LastWithKey(s[..|s| - 1], k)
  }

  /** Updating with a fragment: the fragment's last entry for a key wins, other keys are untouched. */
  lemma {:induction false} UpdateLookup(t: Table, fragment: seq<Ingredient>, k: string)
    ensures Lookup(Update(t, fragment), k)
         == if LastWithKey(fragment, k).Some? then LastWithKey(fragment, k) else Lookup(t, k)
  {
    if fragment != [] {
      UpdateLookup(t, fragment[..|fragment| - 1], k);
      PutLookup(Update(t, fragment[..|fragment| - 1]), fragment[|fragment| - 1], k);
    }
  }

  lemma {:induction false} UpdateDistinct(t: Table, fragment: seq<Ingredient>)
    requires DistinctKeys(t)
    ensures DistinctKeys(Update(t, fragment))
  {
    if fragment != [] {
      UpdateDistinct(t, fragment[..|fragment| - 1]);
      PutDistinct(Update(t, fragment[..|fragment| - 1]), fragment[|fragment| - 1]);
    }
  }

  // ---------------------------------------------------------------------------
  // Fragments
  // ---------------------------------------------------------------------------

  /** The ingredient files merged into one table, file after file. */
  function MergeIngredients(files: seq<seq<Ingredient>>): Table
  {
    if files == [] then []
    else Update(MergeIngredients(files[..|files| - 1]), files[|files| - 1])
  }

  /** The concatenation of the fragments, in order (`list.extend` file after file). */
  function Flatten<T>(files: seq<seq<T>>): seq<T>
  {
    if files == [] then []
    else Flatten(files[..|files| - 1]) + files[|files| - 1]
  }

  lemma {:induction false} LastWithKeyAppend(a: seq<Ingredient>, b: seq<Ingredient>, k: string)
    ensures LastWithKey(a + b, k)
         == if LastWithKey(b, k).Some? then LastWithKey(b, k) else LastWithKey(a, k)
    decreases |b|
  {
    if b == [] {
      assert a + b == a;
    } else {
      assert (a + b)[..|a + b| - 1] == a + b[..|b| - 1];
      LastWithKeyAppend(a, b[..|b| - 1], k);
    }
  }

  /**
   * Last write wins across all files: the merged table maps a key to the
   * last record with that key in the files, taken in order, and holds no
   * other keys.
   */
  lemma {:induction false} MergeIngredientsLookup(files: seq<seq<Ingredient>>, k: string)
    ensures Lookup(MergeIngredients(files), k) == LastWithKey(Flatten(files), k)
  {
    if files != [] {
      var init := files[..|files| - 1];
      MergeIngredientsLookup(init, k);
      UpdateLookup(MergeIngredients(init), files[|files| - 1], k);
      LastWithKeyAppend(Flatten(init), files[|files| - 1], k);
    }
  }

  lemma {:induction false} MergeIngredientsDistinct(files: seq<seq<Ingredient>>)
    ensures DistinctKeys(MergeIngredients(files))
  {
    if files != [] {
      MergeIngredientsDistinct(files[..|files| - 1]);
      UpdateDistinct(MergeIngredients(files[..|files| - 1]), files[|files| - 1]);
    }
  }

  /** A recipe is loaded exactly when some file holds it. */
  lemma {:induction false} FlattenMembership<T>(files: seq<seq<T>>, x: T)
    ensures x in Flatten(files) <==> exists i :: 0 <= i < |files| && x in files[i]
  {
    if files != [] {
      var init := files[..|files| - 1];
      FlattenMembership(init, x);
      if x in Flatten(init) {
        var i :| 0 <= i < |init| && x in init[i];
        assert files[i] == init[i];
      }
      if exists i :: 0 <= i < |files| && x in files[i] {
        var i :| 0 <= i < |files| && x in files[i];
        if i < |init| {
          assert init[i] == files[i];
        }
      }
    }
  }

  /** `{term["term_id"]: term for term in terms}`. */
  function TermsById(terms: seq<Term>): map<string, Term>
  {
    if terms == [] then map[]
    else TermsById(terms[..|terms| - 1])[terms[|terms| - 1].termId := terms[|terms| - 1]]
  }

  /** The last term with `id` in the list, if any. */
  function LastTermWithId(terms: seq<Term>, id: string): Option<Term>
  {
    if terms == [] then None
    else if terms[|terms| - 1].termId == id then Some(terms[|terms| - 1])
    else LastTermWithId(terms[..|terms| - 1], id)
  }

  /** The term map holds exactly the listed ids, each bound to the last term that carries it. */
  lemma {:induction false} TermsByIdLookup(terms: seq<Term>, id: string)
    ensures id in TermsById(terms) <==> LastTermWithId(terms, id).Some?
    ensures id in TermsById(terms) ==> TermsById(terms)[id] == LastTermWithId(terms, id).value
  {
    if terms != [] {
      TermsByIdLookup(terms[..|terms| - 1], id);
    }
  }

  /** The map is empty exactly when the list is. */
  lemma TermsByIdEmpty(terms: seq<Term>)
    ensures TermsById(terms) == map[] <==> terms == []
  {
    if terms != [] {
      assert terms[|terms| - 1].termId in TermsById(terms);
    }
  }
}
