# Recipe synthesizer: a verified model

This project models the recipe engine of a Telegram bot that answers a user's
list of ingredients with a "recipe". The engine lives in
`utils/recipe_synthesizer.py`, and this model covers all of it:

- **Loading.** The knowledge base is assembled from parsed JSON fragments:
  ingredients merged key by key, recipes concatenated, phrases, and the
  glossary terms keyed by id.
- **Parsing the query.** The query is normalised (lower case, 'ё' read as
  'е'). Every alias and key of every ingredient becomes a search term. The
  terms are stable-sorted longest first and looked for as whole words in
  the padded query. Each hit is blanked out with spaces, so a shorter alias
  inside a longer one that already matched is not found again.
- **Classifying recipes.** Each recipe is *perfect* (every trigger key
  found) or *partial* (some found, at most two missing). The best perfect
  recipe is taken by priority; otherwise up to three partial options are
  taken by score.
- **Assembling a recipe.** Placeholders `{key}`, `{key:form}` and `{key:}`
  are resolved to an inflected ingredient name, a scientific name, or a
  random sarcastic comment. Steps are numbered, the message is laid out, and
  the text is scanned for glossary terms.
- **Direct lookups.** By intention alias (substring) and by category
  (random choice).
- **Composing the reply.** `synthesize_response` ties the pieces together.

Modules, one per file:

- `Wrappers`: `Option` with the `:-` idiom and `GetOr` (a dict lookup with
  a default).
- `Text`: lower-casing of characters, `\w` and `\b`, leftmost whole-word
  search, blanking a span, and decimal numbers for step labels.
- `Sorting`: Python's stable `sort(reverse=True)` on integer tuples. It is
  proved sorted, a permutation, and stable (elements with equal keys keep
  their order).
- `Records`: the JSON records, the ingredient dictionary as an
  insertion-ordered table with distinct keys, `dict.update`, `list.extend`,
  and the `term_id` comprehension.
- `Extraction`: the search terms, the growth of the alias lists (line 64),
  the sort, and the scan.
- `Matching`: `find_matching_recipe`, `find_recipe_by_intention` and
  `find_random_recipe_by_category`.
- `TermScan`: `find_terms_in_text`.
- `Rendering`: the placeholder grammar, `replacer`, and `assemble_recipe`.
- `Synthesizer`: a `KnowledgeBase` class whose fields `load_knowledge_base`
  and `parse_user_query` update in place, and `synthesize_response`.

Randomness is a parameter. While one recipe is assembled, an oracle
`draw: nat -> nat` makes the choices: the n-th one picks
`pool[draw(n) % |pool|]`. The lookup by category makes a single choice, so it
takes one `draw: nat` and picks `candidates[draw % |candidates|]`.
`random.choice` on an empty list raises an error; the model returns `None`
there.

Where the code and its documentation disagree, the model follows the code:

- `synthesize_response` never consults `find_recipe_by_intention`.
- Partial options are answered with the `no_recipe_found` phrase. The
  matcher reports `"partial_options"`, but the dispatcher only tests for
  `"partial"`, so that branch is dead.
- Every call of `parse_user_query` appends each ingredient's key to its
  stored alias list (line 64). The knowledge base is therefore not read-only
  after loading, and a query can get a different answer the second time it
  is asked. `Extraction.RepeatedQueryDiffers` exhibits such a query.
- `load_knowledge_base` sets every part of the knowledge base before its
  checks, and it checks recipes before ingredients.

## Model

All source paths are in `utils/recipe_synthesizer.py`.

| member | source | states |
|---|---|---|
| Text.LowerStrProperties | utils/recipe_synthesizer.py:49 | lower-casing twice changes nothing more, and it keeps every character a word character or not, so it moves no word boundary |
| Text.ReplaceYoProperties | utils/recipe_synthesizer.py:49 | after `replace('ё','е')` no 'ё' is left, a text without 'ё' is unchanged, and only 'ё' characters change |
| Text.NormalizeProperties | utils/recipe_synthesizer.py:47-49 | normalised text has the input's length, contains no 'ё', and normalising again changes nothing |
| Text.FindWholeWord | utils/recipe_synthesizer.py:81-83 | `re.search(r'\b'+alias+r'\b')`: the result is an occurrence bounded by `\b` on both sides; no occurrence lies to its left; it is None exactly when there is no such occurrence |
| Text.Blank | utils/recipe_synthesizer.py:89-90 | replacing a matched span keeps the text's length, puts a space at each position of the span, and leaves every other character unchanged |
| Text.BlankedSpanIsInert | utils/recipe_synthesizer.py:86-90 | an alias without spaces that occurs in the blanked text lies wholly outside the consumed span |
| Text.NatToStringRoundTrip | utils/recipe_synthesizer.py:237 | the step number printed in a label reads back as the same number, and it has no leading zero |
| Sorting.SortDesc | utils/recipe_synthesizer.py:70 | the stable descending sort returns a permutation of its input |
| Sorting.SortDescSorted | utils/recipe_synthesizer.py:70 | the sort's output is ordered by non-increasing key |
| Sorting.SortDescStable | utils/recipe_synthesizer.py:154 | elements with equal keys keep their input order, so tied partial options stay in recipe order |
| Sorting.SortDescHead | utils/recipe_synthesizer.py:147 | the first element of the sort has a maximal key, and it is the earliest element with that key |
| Records.Lookup | utils/recipe_synthesizer.py:222 | `key in ingredients_db`: the lookup returns the record stored under the key, and it is None exactly when the key is absent |
| Records.LookupStored | utils/recipe_synthesizer.py:222-225 | in a table whose keys are distinct, `ingredients_db[key]` is exactly the record stored under that key |
| Records.PutLookup | utils/recipe_synthesizer.py:19 | after storing a record under its key, that key maps to the new record and every other key to what it mapped to before |
| Records.PutDistinct | utils/recipe_synthesizer.py:19 | storing a record keeps keys distinct and adds exactly its key |
| Records.UpdateLookup | utils/recipe_synthesizer.py:19 | after `dict.update(fragment)`, a key maps to the fragment's last record with that key, or else to what it mapped to before |
| Records.MergeIngredientsLookup | utils/recipe_synthesizer.py:15-19 | after merging the ingredient files, each key maps to its last record across the files in order: the last write wins |
| Records.MergeIngredientsDistinct | utils/recipe_synthesizer.py:15-19 | the merged ingredient table never holds a key twice |
| Records.FlattenMembership | utils/recipe_synthesizer.py:21-25 | a recipe is in the concatenated recipe list exactly when it is in one of the recipe files |
| Records.TermsByIdLookup | utils/recipe_synthesizer.py:30-32 | a term id is present exactly when some term has it, and it maps to the last such term |
| Records.TermsByIdEmpty | utils/recipe_synthesizer.py:32-39 | the term dictionary is empty exactly when the term list is empty |
| Extraction.GrowAllKeepsKeys | utils/recipe_synthesizer.py:62-64 | appending keys to alias lists changes no key, no name form and no scientific name |
| Extraction.GrowAllDistinct | utils/recipe_synthesizer.py:62-64 | alias growth keeps the table a dictionary |
| Extraction.AliasTerms | utils/recipe_synthesizer.py:65-66 | one search term per alias, in order: the normalised alias paired with the ingredient's key |
| Extraction.SearchTermKeys | utils/recipe_synthesizer.py:61-66 | the keys of the search terms are exactly the keys of the ingredient table |
| Extraction.SearchOrder | utils/recipe_synthesizer.py:70 | the sorted search terms are a permutation of the collected ones, longest alias first, and terms of equal length keep table order |
| Extraction.ScanAll | utils/recipe_synthesizer.py:76-90 | the scan never changes the working text's length, and it only adds keys of the terms it tries |
| Extraction.ExtractKeysInTable | utils/recipe_synthesizer.py:51-93 | `parse_user_query` returns only keys present in the ingredient table |
| Extraction.ScanAllAppend | utils/recipe_synthesizer.py:78-90 | scanning a list of terms is scanning its first part, then the rest from that state |
| Extraction.StepFound | utils/recipe_synthesizer.py:81-85 | trying one term adds a new key exactly when it is that term's key and the alias occurs as a whole word in the working text |
| Extraction.FoundIff | utils/recipe_synthesizer.py:78-90 | a key is found exactly when one of its terms hits the working text as it stands when that term is tried |
| Extraction.ScanKeepsSpaces | utils/recipe_synthesizer.py:89-90 | the scan only writes spaces, so a space in the working text stays a space |
| Extraction.ConsumedSpanInert | utils/recipe_synthesizer.py:86-90 | once a term's match is blanked, no later alias without spaces occurs over any part of that span, at any later point of the scan |
| Extraction.RepeatedQueryDiffers | utils/recipe_synthesizer.py:64 | in a two-ingredient table, the query "x x" finds both ingredients; after the first query has grown the alias lists, the same query finds only one |
| Matching.CollectCandidates | utils/recipe_synthesizer.py:107-143 | the classification loop yields the perfect recipes and the partial candidates, each in recipe order |
| Matching.TakeTopOptions | utils/recipe_synthesizer.py:159-165 | the loop with `break` keeps the first three candidates with at least one match |
| Matching.FindMatchingRecipe | utils/recipe_synthesizer.py:95-172 | the method computes the matching specification, of which the lemmas below state the properties |
| Matching.PerfectMembers | utils/recipe_synthesizer.py:107-119 | a recipe is a perfect candidate exactly when it is in the list and has trigger keys, none of them missing |
| Matching.PartialMembers | utils/recipe_synthesizer.py:107-143 | a candidate is partial exactly when it is built from a recipe that is not perfect, has a matching key and misses at most two |
| Matching.BestPerfect | utils/recipe_synthesizer.py:146-147 | the chosen perfect recipe has the highest priority among the perfect recipes, and no earlier perfect recipe has that priority |
| Matching.MatchPerfect | utils/recipe_synthesizer.py:116-149 | the result is "perfect" exactly when some recipe is perfect; the recipe it returns is a perfect one of maximal priority, the earliest on ties |
| Matching.MatchPartialIff | utils/recipe_synthesizer.py:121-169 | with no perfect recipe, the result is "partial_options" exactly when some recipe is a partial candidate |
| Matching.MatchPartialOptions | utils/recipe_synthesizer.py:152-169 | the options are 1 to 3, each with a match and at most two missing keys, and in non-increasing score order; they are the first options of the stable sort of the candidates in recipe order |
| Matching.MatchNone | utils/recipe_synthesizer.py:171-172 | the result is "none" exactly when no recipe is perfect or partial |
| Matching.FindRecipeByIntention | utils/recipe_synthesizer.py:247-267 | the result is None exactly when no recipe has an intention alias that occurs in the lower-cased query; otherwise it is a recipe with one |
| Matching.FirstWithIntention | utils/recipe_synthesizer.py:257-267 | the search returns a recipe from the given position onward that has a matching alias, and None exactly when none has one |
| Matching.InCategoryMembers | utils/recipe_synthesizer.py:192-195 | the candidates are exactly the recipes of the category |
| Matching.CategoryPick | utils/recipe_synthesizer.py:188-204 | the result is None exactly when no recipe has the category; otherwise it is a recipe of that category |
| Matching.Pick | utils/recipe_synthesizer.py:201 | the random choice returns one of the candidates |
| Matching.CategoryReachable | utils/recipe_synthesizer.py:201 | every recipe of the category is returned for some random draw |
| TermScan.FindTermsInText | utils/recipe_synthesizer.py:174-186 | the ids returned are exactly those of the terms with an alias that occurs as a whole word in the text, ignoring case |
| Rendering.WordRun | utils/recipe_synthesizer.py:228 | `\w+` is greedy: the run is made of word characters and stops at a non-word character or the end |
| Rendering.ParsePlaceholder | utils/recipe_synthesizer.py:228 | a recognised placeholder is well formed, and its printed form is a prefix of the text |
| Rendering.ParsePrinted | utils/recipe_synthesizer.py:228 | each well-formed placeholder, followed by anything, is recognised as itself |
| Rendering.ParsePlaceholderIff | utils/recipe_synthesizer.py:228 | the text starts with a placeholder p exactly when p is well formed and printed at its head |
| Rendering.RenderLiteral | utils/recipe_synthesizer.py:228-229 | text without '{' is left unchanged and uses no random draw |
| Rendering.RenderLiteralPrefix | utils/recipe_synthesizer.py:228-229 | a prefix without '{' is copied, and the rest is rendered as if alone |
| Rendering.RenderIngredient | utils/recipe_synthesizer.py:219-225 | a placeholder for a known ingredient becomes its name form (`nom_sg` by default, falling back to the key), or its scientific name (falling back to the key) |
| Rendering.RenderUnknownVerbatim | utils/recipe_synthesizer.py:226 | a placeholder whose key is not an ingredient is kept verbatim |
| Rendering.RenderSarcastic | utils/recipe_synthesizer.py:220-221 | a placeholder whose key lower-cases to "sarcasticcomment" becomes the comment picked by the next draw, and it fails when the comment list is empty |
| Rendering.RenderTotal | utils/recipe_synthesizer.py:221 | with a non-empty comment list, rendering never fails |
| Rendering.RenderNoSarcastic | utils/recipe_synthesizer.py:219-229 | text with no sarcastic-comment placeholder renders whatever the comment list holds, and uses no draw |
| Rendering.RenderFailure | utils/recipe_synthesizer.py:220-221 | rendering fails only when the comment list is empty and the text holds a sarcastic-comment placeholder |
| Rendering.FormatSteps | utils/recipe_synthesizer.py:234-237 | one line per step, and line i starts with "👨‍🍳 Шаг i+1: " |
| Rendering.FormatStepsFailure | utils/recipe_synthesizer.py:235-237 | once a step fails to render, the whole procedure fails |
| Rendering.FormatLiteralSteps | utils/recipe_synthesizer.py:235-238 | steps without placeholders come out as written, each after its label |
| Rendering.FormatStepsTotal | utils/recipe_synthesizer.py:235-237 | with a non-empty comment list, formatting the steps never fails |
| Rendering.FormatStepsNoSarcastic | utils/recipe_synthesizer.py:235-237 | steps with no sarcastic-comment placeholder always format |
| Rendering.FormatStepsLoop | utils/recipe_synthesizer.py:232-237 | the numbering loop computes the step formatting specification |
| Rendering.AssembleLiteral | utils/recipe_synthesizer.py:206-242 | templates without placeholders give `<b>title</b>`, reagents, procedure and effects separated by blank lines; the title defaults to "Эксперимент без названия" |
| Rendering.AssembleTotal | utils/recipe_synthesizer.py:221-240 | with a non-empty comment list, assembly never fails |
| Rendering.AssembleFailure | utils/recipe_synthesizer.py:221-240 | assembly fails only when the comment list is empty and some template section holds a sarcastic-comment placeholder |
| Rendering.AssembleRecipe | utils/recipe_synthesizer.py:206-245 | the method computes the assembled text and the terms found in it |
| Synthesizer.ReplyRejects | utils/recipe_synthesizer.py:275-305 | with no perfect recipe, the reply is the `no_ingredients_found` phrase when nothing was found, and otherwise the `no_recipe_found` phrase, partial options included; either way it lists no terms |
| Synthesizer.ReplyAssembles | utils/recipe_synthesizer.py:281-284 | with a perfect recipe, the match is "perfect" and the reply is the assembly of the recipe it returns (highest priority, earliest on ties), over the grown ingredient table; it fails only on an empty comment list |
| Synthesizer.ScanQuery | utils/recipe_synthesizer.py:76-90 | the scanning loop computes the scan specification |
| Synthesizer.AppendAliasTerms | utils/recipe_synthesizer.py:65-66 | the inner loop appends the ingredient's search terms |
| Synthesizer.GrowAndCollect | utils/recipe_synthesizer.py:61-66 | the outer loop grows every alias list and collects every search term |
| Synthesizer.KnowledgeBase.constructor | utils/recipe_synthesizer.py:8 | the knowledge base starts empty |
| Synthesizer.KnowledgeBase.Load | utils/recipe_synthesizer.py:10-44 | the fields are the merged ingredients, the concatenated recipes, the phrases and the terms by id. The status is "no recipes", else "no ingredients", else success, with a warning when there are no terms |
| Synthesizer.KnowledgeBase.CollectSearchTerms | utils/recipe_synthesizer.py:59-66 | the search terms are collected, and every stored alias list is grown |
| Synthesizer.KnowledgeBase.ParseUserQuery | utils/recipe_synthesizer.py:51-93 | the result is the keys extracted from the text by the table as it was; the table is grown, and everything else is unchanged |
| Synthesizer.KnowledgeBase.SynthesizeResponse | utils/recipe_synthesizer.py:269-305 | the reply is the reply specification on the knowledge base as it was; afterwards the alias lists are grown |

## Left out

- File I/O and directory listing in `load_knowledge_base` are not modelled.
  The fragments are given as parsed values in listing order, which decides
  which fragment wins a key collision. The file-name suffix filter is left
  out too.
- JSON parsing is not modelled. Optional fields are absent or of the
  expected type. An ingredient record with no alias list gets a fresh list
  that is not stored (line 63 `data.get("aliases", [])`).
- Logging is not modelled, and neither are the exceptions other than the
  two load failures and the crash of `random.choice` on an empty list.
- Python's `str.lower()` is modelled for ASCII and the Cyrillic block
  U+0400..U+04FF only: A..Z, А..Я (U+0410..U+042F), Ѐ..Џ (U+0400..U+040F),
  the capital-small pairs in U+0460..U+0481, U+048A..U+04BF and
  U+04C1..U+04CE and U+04D0..U+04FF, and Ӏ (U+04C0). Capitals of other
  scripts (Latin-1, Greek, the Cyrillic Supplement) are not lower-cased, and
  lower-casing never changes a string's length. `\w` is modelled as ASCII
  letters and digits, '_' and the letters of U+0400..U+04FF; other scripts'
  letters are not word characters.
- The procedure is modelled only as a list of steps or a string. The
  `str()` of any other JSON value is not modelled.
- Random choices come from an oracle parameter, not from a random number
  generator.
- The order of `list(found_keys)` and `list(found_term_ids)` is not
  modelled; both results are sets.
- The dead `"partial"` branch of `synthesize_response` is not modelled,
  because the matcher never returns that status.
- Lookups by cuisine, related recipes and any other helpers not in
  `utils/recipe_synthesizer.py` are not part of this model.
- `bot.py`, the throttling middleware and the error handlers are not part of
  this model; they concern the network, time and concurrency.
- Python's ints are unbounded, like Dafny's, so no overflow arises.
