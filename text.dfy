/**
 * Character classes and string searches the synthesizer relies on:
 * lower-casing, the 'ё' -> 'е' normalisation, the regular-expression word
 * boundary `\b`, whole-word search, span blanking and plain substring tests.
 */
module Text {
  import opened Wrappers

  // ---------------------------------------------------------------------------
  // Characters
  // ---------------------------------------------------------------------------

  /**
   * Lower-casing of one character, for the scripts the knowledge base is
   * written in: ASCII Latin and the Cyrillic block U+0400..U+04FF. А..Я and
   * the Ѐ..Џ row (which holds Ё) map to their own lower-case rows; in the
   * historic and non-Russian letters from U+0460 on, capitals and small
   * letters alternate in pairs, and Ӏ (U+04C0) maps to ӏ (U+04CF). Every
   * other character is left as it is.
   */
  function LowerChar(c: char): char
  {
    if 'A' <= c <= 'Z' then (c as int + 32) as char
    else if '\U{0410}' <= c <= '\U{042F}' then (c as int + 32) as char
    else if '\U{0400}' <= c <= '\U{040F}' then (c as int + 80) as char
    else if c == '\U{04C0}' then '\U{04CF}'
    else if '\U{04C1}' <= c <= '\U{04CE}' then (if c as int % 2 == 1 then (c as int + 1) as char else c)
    else if ('\U{0460}' <= c <= '\U{0481}' || '\U{048A}' <= c <= '\U{04BF}' || '\U{04D0}' <= c <= '\U{04FF}')
    then (if c as int % 2 == 0 then (c as int + 1) as char else c)
    else c
  }

  /** The characters `\w` matches: ASCII letters, digits, '_' and the Cyrillic letters. */
  predicate IsWordChar(c: char)
  {
    || ('0' <= c <= '9')
    || ('A' <= c <= 'Z')
    || ('a' <= c <= 'z')
    || c == '_'
    || ('\U{0400}' <= c <= '\U{0481}')
    || ('\U{048A}' <= c <= '\U{04FF}')
  }

  lemma LowerCharIdempotent(c: char)
    ensures LowerChar(LowerChar(c)) == LowerChar(c)
  {
  }

  /** Lower-casing neither makes nor unmakes a word character. */
  lemma LowerCharWord(c: char)
    ensures IsWordChar(LowerChar(c)) <==> IsWordChar(c)
  {
  }

  // ---------------------------------------------------------------------------
  // Normalisation
  // ---------------------------------------------------------------------------

  /** `str.lower()`, character by character. */
  function LowerStr(s: string): (r: string)
    ensures |r| == |s|
    ensures forall i :: 0 <= i < |s| ==> r[i] == LowerChar(s[i])
  {
    seq(|s|, i requires 0 <= i < |s| => LowerChar(s[i]))
  }

  /** `str.replace('ё', 'е')`. */
  function ReplaceYo(s: string): (r: string)
    ensures |r| == |s|
    ensures forall i :: 0 <= i < |s| ==> r[i] == (if s[i] == 'ё' then 'е' else s[i])
  {
    seq(|s|, i requires 0 <= i < |s| => if s[i] == 'ё' then 'е' else s[i])
  }

  /**
   * Lower-casing a string: doing it twice changes nothing more, and it keeps
   * every word and non-word character in its class, so it moves no `\b`.
   */
  lemma LowerStrProperties(s: string)
    ensures LowerStr(LowerStr(s)) == LowerStr(s)
    ensures forall i :: 0 <= i < |s| ==> (IsWordChar(LowerStr(s)[i]) <==> IsWordChar(s[i]))
  {
    forall i | 0 <= i < |s|
      ensures LowerStr(LowerStr(s))[i] == LowerStr(s)[i]
      ensures IsWordChar(LowerStr(s)[i]) <==> IsWordChar(s[i])
    {
      LowerCharIdempotent(s[i]);
      LowerCharWord(s[i]);
    }
  }

  /** After the replacement no 'ё' is left, and a text without 'ё' is unchanged. */
  lemma ReplaceYoProperties(s: string)
    ensures 'ё' !in ReplaceYo(s)
    ensures 'ё' !in s ==> ReplaceYo(s) == s
    ensures forall i :: 0 <= i < |s| && ReplaceYo(s)[i] != s[i] ==> s[i] == 'ё'
  {
    if 'ё' !in s {
      forall i | 0 <= i < |s| ensures ReplaceYo(s)[i] == s[i] {
        assert s[i] in s;
      }
    }
  }

  /** Lower-cases the text and merges 'ё' into 'е'. */
  function Normalize(s: string): (r: string)
  {
    ReplaceYo(LowerStr(s))
  }

  /** Normalisation keeps the length, leaves no 'ё' and changes nothing a second time. */
  lemma NormalizeProperties(s: string)
    ensures |Normalize(s)| == |s|
    ensures 'ё' !in Normalize(s)
    ensures Normalize(Normalize(s)) == Normalize(s)
  {
    var n := Normalize(s);
    forall i | 0 <= i < |n|
      ensures Normalize(n)[i] == n[i]
    {
      LowerCharIdempotent(s[i]);
    }
  }

  // ---------------------------------------------------------------------------
  // Whole-word search: the regular expression `\b` + escaped alias + `\b`
  // ---------------------------------------------------------------------------

  /** `\b` holds at position `p` of `t` when the characters on its two sides differ in word-ness. */
  predicate Boundary(t: string, p: nat)
    requires p <= |t|
  {
    (p > 0 && IsWordChar(t[p - 1])) != (p < |t| && IsWordChar(t[p]))
  }

  /** `a` occurs literally at `i` in `t`, with a word boundary on each side. */
  predicate OccursAt(t: string, a: string, i: nat)
  {
    && i + |a| <= |t|
    && t[i..i + |a|] == a
    && Boundary(t, i)
    && Boundary(t, i + |a|)
  }

  /** `a` occurs somewhere in `t` as a whole word or phrase. */
  predicate HasWholeWord(t: string, a: string)
  {
    exists i | 0 <= i <= |t| :: OccursAt(t, a, i)
  }

  /** Leftmost whole-word occurrence at or after `from`. */
  function FindWholeWordFrom(t: string, a: string, from: nat): (r: Option<nat>)
    decreases |t| + 1 - from
    ensures r.Some? ==> from <= r.value && OccursAt(t, a, r.value)
    ensures r.Some? ==> forall j :: from <= j < r.value ==> !OccursAt(t, a, j)
    ensures r.None? ==> forall j :: from <= j ==> !OccursAt(t, a, j)
  {
    if from + |a| > |t| then None
    else if OccursAt(t, a, from) then Some(from)
    else FindWholeWordFrom(t, a, from + 1)
  }

  /** `re.search(r'\b' + re.escape(a) + r'\b', t)`: the start of the leftmost match, if any. */
  function FindWholeWord(t: string, a: string): (r: Option<nat>)
    ensures r.Some? ==> OccursAt(t, a, r.value)
    ensures r.Some? ==> forall j :: 0 <= j < r.value ==> !OccursAt(t, a, j)
    ensures r.None? <==> !HasWholeWord(t, a)
  {
    FindWholeWordFrom(t, a, 0)
  }

  /** An occurrence with none before it is the one the search returns. */
  lemma FindWholeWordAt(t: string, a: string, k: nat)
    requires OccursAt(t, a, k)
    requires forall j :: 0 <= j < k ==> !OccursAt(t, a, j)
    ensures FindWholeWord(t, a) == Some(k)
  {
    assert HasWholeWord(t, a);
  }

  /** A phrase whose first character does not occur in the text is not found. */
  lemma FindWholeWordAbsent(t: string, a: string)
    requires |a| > 0 && a[0] !in t
    ensures FindWholeWord(t, a) == None
  {
    forall i | 0 <= i <= |t|
      ensures !OccursAt(t, a, i)
    {
      if i < |t| {
        assert t[i] in t;
      }
    }
  }

  // ---------------------------------------------------------------------------
  // Blanking a matched span
  // ---------------------------------------------------------------------------

  function Spaces(n: nat): (r: string)
    ensures |r| == n
    ensures forall k :: 0 <= k < n ==> r[k] == ' '
  {
    seq(n, _ => ' ')
  }

  /** `t[:i] + ' ' * n + t[i + n:]`. */
  function Blank(t: string, i: nat, n: nat): (r: string)
    requires i + n <= |t|
    ensures |r| == |t|
    ensures forall k :: 0 <= k < |t| ==> r[k] == (if i <= k < i + n then ' ' else t[k])
  {
    t[..i] + Spaces(n) + t[i + n..]
  }

  /**
   * Once a span is blanked, no alias that contains no space can match any
   * part of it: the consumed text is out of reach of every later alias.
   */
  lemma BlankedSpanIsInert(t: string, i: nat, n: nat, b: string, j: nat)
    requires i + n <= |t|
    requires |b| > 0 && ' ' !in b
    requires OccursAt(Blank(t, i, n), b, j)
    ensures n == 0 || j + |b| <= i || i + n <= j
  {
    if !(n == 0 || j + |b| <= i || i + n <= j) {
      var q := if i <= j then j else i;
      assert Blank(t, i, n)[q] == ' ';
      PlainCharInBlankedSpan(Blank(t, i, n), b, j, q);
    }
  }

  lemma PlainCharInBlankedSpan(r: string, b: string, j: nat, q: nat)
    requires j + |b| <= |r| && r[j..j + |b|] == b && ' ' !in b
    requires j <= q < j + |b|
    ensures r[q] != ' '
  {
    assert r[j..j + |b|][q - j] == r[q];
    assert b[q - j] in b;
  }

  // ---------------------------------------------------------------------------
  // Plain substring test, joining and decimal numbers
  // ---------------------------------------------------------------------------

  /** Python's `a in s` on strings. */
  predicate Contains(s: string, a: string)
  {
    exists i | 0 <= i <= |s| - |a| :: LiteralAt(s, a, i)
  }

  /** `a` occurs literally at `i` in `s`. */
  predicate LiteralAt(s: string, a: string, i: nat)
  {
    i + |a| <= |s| && s[i..i + |a|] == a
  }

  /** `sep.join(parts)`. */
  function Join(sep: string, parts: seq<string>): string
  {
    if |parts| == 0 then ""
    else if |parts| == 1 then parts[0]
    else parts[0] + sep + Join(sep, parts[1..])
  }

  function DigitChar(d: nat): (c: char)
    requires d < 10
    ensures '0' <= c <= '9'
  {
    ('0' as int + d) as char
  }

  /** Decimal rendering of a natural number, as f"{i}" does it. */
  function NatToString(n: nat): (r: string)
    ensures |r| > 0
    ensures forall k :: 0 <= k < |r| ==> '0' <= r[k] <= '9'
  {
    if n < 10 then [DigitChar(n)] else NatToString(n / 10) + [DigitChar(n % 10)]
  }

  /** Value of a string of decimal digits. */
  function DecimalValue(s: string): nat
    requires forall k :: 0 <= k < |s| ==> '0' <= s[k] <= '9'
  {
    if s == [] then 0 else 10 * DecimalValue(s[..|s| - 1]) + (s[|s| - 1] as int - '0' as int)
  }

  /**
   * The decimal text of a step number reads back as that number, and it
   * starts with '0' only for zero itself, as f"{i}" prints it.
   */
  lemma {:induction false} NatToStringRoundTrip(n: nat)
    ensures DecimalValue(NatToString(n)) == n
    ensures NatToString(n)[0] == '0' <==> n == 0
  {
    if n >= 10 {
      NatToStringRoundTrip(n / 10);
      var r := NatToString(n);
      assert r[..|r| - 1] == NatToString(n / 10);
    }
  }
}
