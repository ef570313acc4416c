/**
 * Recipe assembly: the placeholders `{key}`, `{key:form}` and `{key:}` in a
 * recipe's templates are replaced by an ingredient's inflected name, its
 * scientific name, or a random sarcastic comment; unknown keys are left as
 * they are. The procedure's steps are numbered, and the title and the three
 * sections are laid out in one message.
 *
 * Randomness is an oracle `draw`: the n-th random choice made while
 * assembling one recipe picks `pool[draw(n) % |pool|]`.
 */
module Rendering {
  import opened Wrappers
  import opened Text
  import opened Records
  import opened TermScan

  // ---------------------------------------------------------------------------
  // Placeholders: the pattern `{(\w+):?(\w+)?}`
  // ---------------------------------------------------------------------------

  /**
   * A placeholder: its key, whether a colon follows the key, and the form
   * written after the colon (empty when there is none, in which case the
   * second group does not participate in the match).
   */
  datatype Placeholder = Placeholder(key: string, colon: bool, form: string)

  predicate AllWord(s: string)
  {
    forall k :: 0 <= k < |s| ==> IsWordChar(s[k])
  }

  predicate WellFormed(p: Placeholder)
  {
    |p.key| > 0 && AllWord(p.key) && AllWord(p.form) && (!p.colon ==> p.form == "")
  }

  /** The placeholder as written in a template. */
  function PlaceholderText(p: Placeholder): string
  {
    "{" + p.key + (if p.colon then ":" + p.form else "") + "}"
  }

  /** The length of the run of word characters starting at `i`. */
  function WordRun(s: string, i: nat): (n: nat)
    requires i <= |s|
    ensures i + n <= |s|
    ensures forall k :: i <= k < i + n ==> IsWordChar(s[k])
    ensures i + n == |s| || !IsWordChar(s[i + n])
    decreases |s| - i
  {
    if i < |s| && IsWordChar(s[i]) then 1 + WordRun(s, i + 1) else 0
  }

  lemma {:induction false} WordRunExact(s: string, i: nat, n: nat)
    requires i + n <= |s|
    requires forall k :: i <= k < i + n ==> IsWordChar(s[k])
    requires i + n == |s| || !IsWordChar(s[i + n])
    ensures WordRun(s, i) == n
    decreases n
  {
    if n > 0 {
      WordRunExact(s, i + 1, n - 1);
    }
  }

  lemma RunIsWord(s: string, i: nat, j: nat)
    requires i <= j <= |s|
    requires forall k :: i <= k < j ==> IsWordChar(s[k])
    ensures AllWord(s[i..j])
  {
    forall k | 0 <= k < j - i
      ensures IsWordChar(s[i..j][k])
    {
      assert s[i..j][k] == s[i + k];
    }
  }

  /** The placeholder text read off `s`, for a key at `[1, e)` and an optional form at `[e + 1, f)`. */
  lemma SpelledOut(s: string, e: nat, f: nat, colon: bool)
    requires 1 <= e && (if colon then e < f else e == f) && f < |s|
    requires s[0] == '{' && s[f] == '}' && (colon ==> s[e] == ':')
    ensures s[..f + 1] == PlaceholderText(Placeholder(s[1..e], colon, if colon then s[e + 1..f] else ""))
  {
    if colon {
      assert s[..f + 1] == "{" + s[1..e] + (":" + s[e + 1..f]) + "}";
    } else {
      assert s[..f + 1] == "{" + s[1..e] + "}";
    }
  }

  /**
   * Matches the placeholder pattern at the start of `s`. The key is the
   * whole run of word characters after the brace: a shorter key could only
   * be followed by another word character, never by `:` or `}`.
   */
  function ParsePlaceholder(s: string): (r: Option<Placeholder>)
    ensures r.Some? ==> WellFormed(r.value) && |PlaceholderText(r.value)| <= |s|
                        && s[..|PlaceholderText(r.value)|] == PlaceholderText(r.value)
  {
    if |s| == 0 || s[0] != '{' then None
    else
      var e := 1 + WordRun(s, 1);
      if e == 1 || e == |s| then None
      else if s[e] == '}' then
        RunIsWord(s, 1, e);
        SpelledOut(s, e, e, false);
        Some(Placeholder(s[1..e], false, ""))
      else if s[e] != ':' then None
      else
        var f := e + 1 + WordRun(s, e + 1);
        if f == |s| || s[f] != '}' then None
        else
          RunIsWord(s, 1, e);
          RunIsWord(s, e + 1, f);
          SpelledOut(s, e, f, true);
          Some(Placeholder(s[1..e], true, s[e + 1..f]))
  }

  /** A text starting with a placeholder is matched as exactly that placeholder. */
  lemma ParsePrinted(p: Placeholder, rest: string)
    requires WellFormed(p)
    ensures ParsePlaceholder(PlaceholderText(p) + rest) == Some(p)
  {
    var s := PlaceholderText(p) + rest;
    var e := 1 + |p.key|;
    assert s[1..e] == p.key;
    WordRunExact(s, 1, |p.key|);
    if p.colon {
      assert s[e] == ':';
      assert s[e + 1..e + 1 + |p.form|] == p.form;
      WordRunExact(s, e + 1, |p.form|);
    }
  }

  /** The pattern matches at the start of `s` exactly when `s` begins with a well-formed placeholder. */
  lemma ParsePlaceholderIff(s: string, p: Placeholder)
    ensures ParsePlaceholder(s) == Some(p) <==> WellFormed(p) && PlaceholderText(p) <= s
  {
    if WellFormed(p) && PlaceholderText(p) <= s {
      var n := |PlaceholderText(p)|;
      assert s == PlaceholderText(p) + s[n..];
      ParsePrinted(p, s[n..]);
    }
  }

  // ---------------------------------------------------------------------------
  // Replacement
  // ---------------------------------------------------------------------------

  /** What the replacer reads: the ingredient table, the comment pool and the random oracle. */
  datatype Context = Context(table: Table, pool: seq<string>, draw: nat -> nat)

  /** `phrases.get("sarcastic_comments", [""])`. */
  function CommentPool(ph: Phrases): seq<string>
  {
    ph.sarcasticComments.GetOr([""])
  }

  /** A rendered text and the number of random draws made so far. */
  datatype Rendered = Rendered(text: string, draws: nat)

  /** The form asked for: the text after the colon, or the nominative singular. */
  function FormOf(p: Placeholder): string
  {
    if p.form == "" then "nom_sg" else p.form
  }

  /** An ingredient's name in a form; the key stands in for a missing form or scientific name. */
  function NameForm(ing: Ingredient, form: string): string
  {
    if form == "scientific_name" then ing.scientificName.GetOr(ing.key)
    else if form in ing.nameForms then ing.nameForms[form]
    else ing.key
  }

  predicate IsSarcastic(p: Placeholder)
  {
    LowerStr(p.key) == "sarcasticcomment"
  }

  /** The replacer. `None` is the crash of a random choice from an empty list. */
  function Resolve(p: Placeholder, ctx: Context, n: nat): Option<Rendered>
  {
    if IsSarcastic(p) then
      if ctx.pool == [] then None
      else Some(Rendered(ctx.pool[ctx.draw(n) % |ctx.pool|], n + 1))
    else
      match Lookup(ctx.table, p.key)
      case Some(ing) => Some(Rendered(NameForm(ing, FormOf(p)), n))
      case None => Some(Rendered(PlaceholderText(p), n))
  }

  /** `re.sub` with the replacer, scanning from left to right; `n` draws have been made before. */
  function Render(s: string, ctx: Context, n: nat): (r: Option<Rendered>)
    ensures r.Some? ==> n <= r.value.draws
    decreases |s|
  {
    if s == [] then Some(Rendered("", n))
    else
      match ParsePlaceholder(s)
      case Some(p) =>
        var head :- Resolve(p, ctx, n);
        var tail :- Render(s[|PlaceholderText(p)|..], ctx, head.draws);
        Some(Rendered(head.text + tail.text, tail.draws))
      case None =>
        var tail :- Render(s[1..], ctx, n);
        Some(Rendered([s[0]] + tail.text, tail.draws))
  }

  /** `h` in front of a rendering, if there is one. */
  function Prepend(h: string, r: Option<Rendered>): Option<Rendered>
  {
    match r
    case None => None
    case Some(t) => Some(Rendered(h + t.text, t.draws))
  }

  /** Text without a brace is copied through, and no random draw is made. */
  lemma {:induction false} RenderLiteral(s: string, ctx: Context, n: nat)
    requires '{' !in s
    ensures Render(s, ctx, n) == Some(Rendered(s, n))
    decreases |s|
  {
    if s != [] {
      assert ParsePlaceholder(s) == None;
      RenderLiteral(s[1..], ctx, n);
      assert [s[0]] + s[1..] == s;
    }
  }

  lemma PrependPrepend(x: string, y: string, r: Option<Rendered>)
    ensures Prepend(x, Prepend(y, r)) == Prepend(x + y, r)
  {
    if r.Some? {
      assert x + (y + r.value.text) == (x + y) + r.value.text;
    }
  }

  lemma PrependEmpty(r: Option<Rendered>)
    ensures Prepend("", r) == r
  {
    if r.Some? {
      assert "" + r.value.text == r.value.text;
    }
  }

  /** Where no placeholder starts, the first character is copied. */
  lemma RenderPlain(s: string, ctx: Context, n: nat)
    requires s != [] && ParsePlaceholder(s) == None
    ensures Render(s, ctx, n) == Prepend([s[0]], Render(s[1..], ctx, n))
  {
  }

  /** Literal text in front of the rest is copied, and the rest is rendered on its own. */
  lemma {:induction false} RenderLiteralPrefix(a: string, b: string, ctx: Context, n: nat)
    requires '{' !in a
    ensures Render(a + b, ctx, n) == Prepend(a, Render(b, ctx, n))
    decreases |a|
  {
    if a == [] {
      assert a + b == b;
      PrependEmpty(Render(b, ctx, n));
    } else {
      var s := a + b;
      assert s[0] == a[0] && s[1..] == a[1..] + b;
      RenderPlain(s, ctx, n);
      RenderLiteralPrefix(a[1..], b, ctx, n);
      PrependPrepend([a[0]], a[1..], Render(b, ctx, n));
      assert [a[0]] + a[1..] == a;
    }
  }

  /** An ingredient placeholder becomes the ingredient's name in the requested form. */
  lemma RenderIngredient(p: Placeholder, ing: Ingredient, rest: string, ctx: Context, n: nat)
    requires WellFormed(p) && !IsSarcastic(p)
    requires Lookup(ctx.table, p.key) == Some(ing)
    ensures Render(PlaceholderText(p) + rest, ctx, n) == Prepend(NameForm(ing, FormOf(p)), Render(rest, ctx, n))
  {
    var s := PlaceholderText(p) + rest;
    ParsePrinted(p, rest);
    assert s[|PlaceholderText(p)|..] == rest;
  }

  /** A placeholder whose key is no ingredient is left in the text as written. */
  lemma RenderUnknownVerbatim(p: Placeholder, rest: string, ctx: Context, n: nat)
    requires WellFormed(p) && !IsSarcastic(p)
    requires p.key !in Keys(ctx.table)
    ensures Render(PlaceholderText(p) + rest, ctx, n) == Prepend(PlaceholderText(p), Render(rest, ctx, n))
  {
    var s := PlaceholderText(p) + rest;
    ParsePrinted(p, rest);
    assert s[|PlaceholderText(p)|..] == rest;
  }

  /**
   * A sarcastic-comment placeholder, whatever the case of its key and
   * whatever its form, becomes the next random comment; with no comments
   * to choose from, rendering fails.
   */
  lemma RenderSarcastic(p: Placeholder, rest: string, ctx: Context, n: nat)
    requires WellFormed(p) && IsSarcastic(p)
    ensures ctx.pool == [] ==> Render(PlaceholderText(p) + rest, ctx, n) == None
    ensures ctx.pool != [] ==>
      Render(PlaceholderText(p) + rest, ctx, n)
      == Prepend(ctx.pool[ctx.draw(n) % |ctx.pool|], Render(rest, ctx, n + 1))
  {
    var s := PlaceholderText(p) + rest;
    ParsePrinted(p, rest);
    assert s[|PlaceholderText(p)|..] == rest;
  }

  /** With at least one comment to choose from, rendering never fails. */
  lemma {:induction false} RenderTotal(s: string, ctx: Context, n: nat)
    requires ctx.pool != []
    ensures Render(s, ctx, n).Some?
    decreases |s|
  {
    if s != [] {
      match ParsePlaceholder(s)
      case Some(p) =>
        var head := Resolve(p, ctx, n);
        RenderTotal(s[|PlaceholderText(p)|..], ctx, head.value.draws);
      case None =>
        RenderTotal(s[1..], ctx, n);
    }
  }

  /** No position of `s` starts a sarcastic-comment placeholder. */
  predicate NoSarcastic(s: string)
  {
    forall i :: 0 <= i < |s| && ParsePlaceholder(s[i..]).Some? ==> !IsSarcastic(ParsePlaceholder(s[i..]).value)
  }

  /**
   * Without a sarcastic-comment placeholder nothing is drawn, so rendering
   * succeeds whatever the comment list holds.
   */
  lemma {:induction false} RenderNoSarcastic(s: string, ctx: Context, n: nat)
    requires NoSarcastic(s)
    ensures Render(s, ctx, n).Some? && Render(s, ctx, n).value.draws == n
    decreases |s|
  {
    if s != [] {
      assert s[0..] == s;
      var k := match ParsePlaceholder(s) case Some(p) => |PlaceholderText(p)| case None => 1;
      var rest := s[k..];
      forall i | 0 <= i < |rest| && ParsePlaceholder(rest[i..]).Some?
        ensures !IsSarcastic(ParsePlaceholder(rest[i..]).value)
      {
        assert rest[i..] == s[k + i..];
      }
      RenderNoSarcastic(rest, ctx, n);
    }
  }

  /** Rendering fails only on a sarcastic-comment placeholder with an empty comment list. */
  lemma RenderFailure(s: string, ctx: Context, n: nat)
    ensures Render(s, ctx, n).None? ==> ctx.pool == [] && !NoSarcastic(s)
  {
    if ctx.pool != [] {
      RenderTotal(s, ctx, n);
    }
    if NoSarcastic(s) {
      RenderNoSarcastic(s, ctx, n);
    }
  }

  // ---------------------------------------------------------------------------
  // Steps and layout
  // ---------------------------------------------------------------------------

  /** `f"👨‍🍳 Шаг {i}: "`. */
  function StepLabel(i: nat): string
  {
    "\U{1F468}\U{200D}\U{1F373} Шаг " + NatToString(i) + ": "
  }

  /** Formatted step lines and the number of random draws made so far. */
  datatype Formatted = Formatted(lines: seq<string>, draws: nat)

  /** The steps rendered in order, each behind its label, numbered from 1. */
  function FormatSteps(steps: seq<string>, ctx: Context, n: nat): (r: Option<Formatted>)
    ensures r.Some? ==> |r.value.lines| == |steps| && n <= r.value.draws
    ensures r.Some? ==> forall i :: 0 <= i < |steps| ==> StepLabel(i + 1) <= r.value.lines[i]
  {
    if steps == [] then Some(Formatted([], n))
    else
      var prev :- FormatSteps(steps[..|steps| - 1], ctx, n);
      var cur :- Render(steps[|steps| - 1], ctx, prev.draws);
      Some(Formatted(prev.lines + [StepLabel(|steps|) + cur.text], cur.draws))
  }

  /** Once a step fails to render, the whole procedure fails. */
  lemma {:induction false} FormatStepsFailure(steps: seq<string>, j: nat, ctx: Context, n: nat)
    requires j <= |steps|
    requires FormatSteps(steps[..j], ctx, n) == None
    ensures FormatSteps(steps, ctx, n) == None
    decreases |steps|
  {
    if j == |steps| {
      assert steps[..j] == steps;
    } else {
      assert steps[..|steps| - 1][..j] == steps[..j];
      FormatStepsFailure(steps[..|steps| - 1], j, ctx, n);
    }
  }

  /** Steps without placeholders are only labelled. */
  function LabelledSteps(steps: seq<string>): (r: seq<string>)
    ensures |r| == |steps|
  {
    seq(|steps|, i requires 0 <= i < |steps| => StepLabel(i + 1) + steps[i])
  }

  predicate NoBraces(steps: seq<string>)
  {
    forall i :: 0 <= i < |steps| ==> '{' !in steps[i]
  }

  lemma {:induction false} FormatLiteralSteps(steps: seq<string>, ctx: Context, n: nat)
    requires NoBraces(steps)
    ensures FormatSteps(steps, ctx, n) == Some(Formatted(LabelledSteps(steps), n))
  {
    if steps != [] {
      var init := steps[..|steps| - 1];
      FormatLiteralSteps(init, ctx, n);
      RenderLiteral(steps[|steps| - 1], ctx, n);
      assert LabelledSteps(steps) == LabelledSteps(init) + [StepLabel(|steps|) + steps[|steps| - 1]];
    }
  }

  /** The procedure: numbered steps separated by blank lines, or one rendered text. */
  function ProcedureText(proc: Procedure, ctx: Context, n: nat): Option<Rendered>
  {
    match proc
    case Steps(steps) =>
      var f :- FormatSteps(steps, ctx, n);
      Some(Rendered(Join("\n\n", f.lines), f.draws))
    case Whole(text) => Render(text, ctx, n)
  }

  const DefaultTitle := "Эксперимент без названия"

  function Title(r: Recipe): string
  {
    r.title.GetOr(DefaultTitle)
  }

  /** `f"<b>{title}</b>\n\n{reagents}\n\n{procedure}\n\n{effects}"`. */
  function Layout(title: string, reagents: string, procedure: string, effects: string): string
  {
    "<b>" + title + "</b>\n\n" + reagents + "\n\n" + procedure + "\n\n" + effects
  }

  /**
   * The assembled message. The reagents are rendered first, then the
   * effects, then the procedure, which fixes the order of the random draws.
   */
  function AssembledText(recipe: Recipe, ctx: Context): Option<string>
  {
    var t := recipe.templates;
    var reagents :- Render(t.reagents.GetOr(""), ctx, 0);
    var effects :- Render(t.effects.GetOr(""), ctx, reagents.draws);
    var procedure :- ProcedureText(t.procedure.GetOr(Steps([])), ctx, effects.draws);
    Some(Layout(Title(recipe), reagents.text, procedure.text, effects.text))
  }

  /** A reply: its text and the ids of the glossary terms it mentions. */
  datatype Response = Response(text: string, foundTerms: set<string>)

  /** `assemble_recipe(recipe)` over the given knowledge base. */
  function Assembled(recipe: Recipe, table: Table, phrases: Phrases, terms: map<string, Term>,
                     draw: nat -> nat): Option<Response>
  {
    var text :- AssembledText(recipe, Context(table, CommentPool(phrases), draw));
    Some(Response(text, TermsIn(terms, text)))
  }

  /** A procedure without placeholders, laid out. */
  predicate LiteralProcedure(p: Procedure)
  {
    match p
    case Steps(steps) => NoBraces(steps)
    case Whole(text) => '{' !in text
  }

  function LiteralProcedureText(p: Procedure): string
  {
    match p
    case Steps(steps) => Join("\n\n", LabelledSteps(steps))
    case Whole(text) => text
  }

  /**
   * Templates without placeholders come out as written, the steps only
   * numbered: the title, the reagents, the procedure and the effects, in
   * that order, separated by blank lines.
   */
  lemma AssembleLiteral(recipe: Recipe, ctx: Context)
    requires '{' !in recipe.templates.reagents.GetOr("")
    requires '{' !in recipe.templates.effects.GetOr("")
    requires LiteralProcedure(recipe.templates.procedure.GetOr(Steps([])))
    ensures AssembledText(recipe, ctx)
         == Some(Layout(Title(recipe), recipe.templates.reagents.GetOr(""),
                        LiteralProcedureText(recipe.templates.procedure.GetOr(Steps([]))),
                        recipe.templates.effects.GetOr("")))
  {
    var t := recipe.templates;
    RenderLiteral(t.reagents.GetOr(""), ctx, 0);
    RenderLiteral(t.effects.GetOr(""), ctx, 0);
    match t.procedure.GetOr(Steps([]))
    case Steps(steps) => FormatLiteralSteps(steps, ctx, 0);
    case Whole(text) => RenderLiteral(text, ctx, 0);
  }

  /** With a non-empty comment list, assembly never fails. */
  lemma AssembleTotal(recipe: Recipe, ctx: Context)
    requires ctx.pool != []
    ensures AssembledText(recipe, ctx).Some?
  {
    var t := recipe.templates;
    RenderTotal(t.reagents.GetOr(""), ctx, 0);
    var reagents := Render(t.reagents.GetOr(""), ctx, 0).value;
    RenderTotal(t.effects.GetOr(""), ctx, reagents.draws);
    var effects := Render(t.effects.GetOr(""), ctx, reagents.draws).value;
    match t.procedure.GetOr(Steps([]))
    case Steps(steps) => FormatStepsTotal(steps, ctx, effects.draws);
    case Whole(text) => RenderTotal(text, ctx, effects.draws);
  }

  lemma {:induction false} FormatStepsNoSarcastic(steps: seq<string>, ctx: Context, n: nat)
    requires forall i :: 0 <= i < |steps| ==> NoSarcastic(steps[i])
    ensures FormatSteps(steps, ctx, n).Some?
  {
    if steps != [] {
      FormatStepsNoSarcastic(steps[..|steps| - 1], ctx, n);
      var prev := FormatSteps(steps[..|steps| - 1], ctx, n).value;
      RenderNoSarcastic(steps[|steps| - 1], ctx, prev.draws);
    }
  }

  /** No section of the templates holds a sarcastic-comment placeholder. */
  predicate TemplatesNoSarcastic(t: Templates)
  {
    && NoSarcastic(t.reagents.GetOr(""))
    && NoSarcastic(t.effects.GetOr(""))
    && match t.procedure.GetOr(Steps([]))
       case Steps(steps) => forall i :: 0 <= i < |steps| ==> NoSarcastic(steps[i])
       case Whole(text) => NoSarcastic(text)
  }

  /**
   * Assembly fails only when the templates hold a sarcastic-comment
   * placeholder and the comment list is empty.
   */
  lemma AssembleFailure(recipe: Recipe, ctx: Context)
    ensures AssembledText(recipe, ctx).None? ==> ctx.pool == [] && !TemplatesNoSarcastic(recipe.templates)
  {
    if ctx.pool != [] {
      AssembleTotal(recipe, ctx);
    } else if TemplatesNoSarcastic(recipe.templates) {
      var t := recipe.templates;
      RenderNoSarcastic(t.reagents.GetOr(""), ctx, 0);
      RenderNoSarcastic(t.effects.GetOr(""), ctx, 0);
      match t.procedure.GetOr(Steps([]))
      case Steps(steps) => FormatStepsNoSarcastic(steps, ctx, 0);
      case Whole(text) => RenderNoSarcastic(text, ctx, 0);
    }
  }

  lemma {:induction false} FormatStepsTotal(steps: seq<string>, ctx: Context, n: nat)
    requires ctx.pool != []
    ensures FormatSteps(steps, ctx, n).Some?
  {
    if steps != [] {
      FormatStepsTotal(steps[..|steps| - 1], ctx, n);
      var prev := FormatSteps(steps[..|steps| - 1], ctx, n).value;
      RenderTotal(steps[|steps| - 1], ctx, prev.draws);
    }
  }

  /** The loop over the procedure's steps: each rendered and labelled with its number, from 1. */
  method FormatStepsLoop(steps: seq<string>, ctx: Context, start: nat) returns (r: Option<Formatted>)
    ensures r == FormatSteps(steps, ctx, start)
  {
    var formatted: seq<string> := [];
    var n := start;
    for i := 0 to |steps|
      invariant FormatSteps(steps[..i], ctx, start) == Some(Formatted(formatted, n))
    {
      var processed := Render(steps[i], ctx, n);
      assert steps[..i + 1][..i] == steps[..i];
      if processed.None? {
        FormatStepsFailure(steps, i + 1, ctx, start);
        return None;
      }
      formatted := formatted + [StepLabel(i + 1) + processed.value.text];
      n := processed.value.draws;
    }
    assert steps[..|steps|] == steps;
    return Some(Formatted(formatted, n));
  }

  /** `assemble_recipe`: renders the sections, numbers the steps and scans the result for terms. */
  method AssembleRecipe(recipe: Recipe, table: Table, phrases: Phrases, terms: map<string, Term>,
                        draw: nat -> nat) returns (res: Option<Response>)
    ensures res == Assembled(recipe, table, phrases, terms, draw)
  {
    var ctx := Context(table, CommentPool(phrases), draw);
    var title := Title(recipe);
    var templates := recipe.templates;
    var reagents := Render(templates.reagents.GetOr(""), ctx, 0);
    if reagents.None? {
      return None;
    }
    var effects := Render(templates.effects.GetOr(""), ctx, reagents.value.draws);
    if effects.None? {
      return None;
    }
    var procedure: string;
    match templates.procedure.GetOr(Steps([])) {
      case Steps(steps) =>
        var formatted := FormatStepsLoop(steps, ctx, effects.value.draws);
        if formatted.None? {
          return None;
        }
        procedure := Join("\n\n", formatted.value.lines);
      case Whole(text) =>
        var r := Render(text, ctx, effects.value.draws);
        if r.None? {
          return None;
        }
        procedure := r.value.text;
    }
    var finalText := Layout(title, reagents.value.text, procedure, effects.value.text);
    var found := FindTermsInText(terms, finalText);
    return Some(Response(finalText, found));
  }
}
