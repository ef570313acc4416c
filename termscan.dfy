/**
 * The glossary scan run over a finished text: every term one of whose
 * aliases occurs in the text as a whole word, ignoring case.
 */
module TermScan {
  import opened Text
  import opened Records

  /** One of the term's aliases, lower-cased, occurs as a whole word in the lower-cased text. */
  predicate TermOccurs(t: Term, lowText: string)
  {
    exists k | 0 <= k < |t.aliases| :: HasWholeWord(lowText, LowerStr(t.aliases[k]))
  }

  /** The ids of the terms that occur in `text`. */
  function TermsIn(terms: map<string, Term>, text: string): set<string>
  {
    set id | id in terms && TermOccurs(terms[id], LowerStr(text))
  }

  /**
   * `find_terms_in_text`: for each term, its aliases are tried in order
   * until one occurs; the ids found are collected in a set.
   */
  method FindTermsInText(terms: map<string, Term>, text: string) returns (found: set<string>)
    ensures found == TermsIn(terms, text)
  {
    found := {};
    var low := LowerStr(text);
    var remaining := terms.Keys;
    while remaining != {}
      invariant remaining <= terms.Keys
      invariant found == set id | id in terms && id !in remaining && TermOccurs(terms[id], low)
      decreases remaining
    {
      var id :| id in remaining;
      var aliases := terms[id].aliases;
      ghost var before := found;
      var j := 0;
      while j < |aliases|
        invariant 0 <= j <= |aliases|
        invariant found == before
        invariant forall k :: 0 <= k < j ==> !HasWholeWord(low, LowerStr(aliases[k]))
      {
        if FindWholeWord(low, LowerStr(aliases[j])).Some? {
          found := found + {id};
          break;
        }
        j := j + 1;
      }
      assert found == before + (if TermOccurs(terms[id], low) then {id} else {});
      remaining := remaining - {id};
    }
  }
}
