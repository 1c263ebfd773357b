/** The small pieces of text the CREATE TABLE reader recognises. */
module SchemaLexer {
  import opened Common
  import opened Text

  predicate IsLetter(c: char) { 'a' <= c <= 'z' || 'A' <= c <= 'Z' }
  predicate IsWordChar(c: char) { IsLetter(c) || '0' <= c <= '9' || c == '_' }
  predicate IsQuote(c: char) { c == '`' || c == '"' }

  function Lower(c: char): char { if 'A' <= c <= 'Z' then c - 'A' + 'a' else c }

  /** `word` (in lower case) stands at position `i`, in any case. */
  predicate WordAt(s: string, i: nat, word: string) {
    i + |word| <= |s| && forall j :: 0 <= j < |word| ==> Lower(s[i + j]) == word[j]
  }

  function WordCharsEnd(s: string, i: nat): (k: nat)
    requires i <= |s|
    ensures i <= k <= |s|
    ensures forall j :: i <= j < k ==> IsWordChar(s[j])
    ensures k < |s| ==> !IsWordChar(s[k])
    decreases |s| - i
  {
    if i < |s| && IsWordChar(s[i]) then WordCharsEnd(s, i + 1) else i
  }

  function LettersEnd(s: string, i: nat): (k: nat)
    requires i <= |s|
    ensures i <= k <= |s|
    decreases |s| - i
  {
    if i < |s| && IsLetter(s[i]) then LettersEnd(s, i + 1) else i
  }

  /** An optional quote mark. */
  function QuoteEnd(s: string, i: nat): (k: nat)
    requires i <= |s|
    ensures i <= k <= |s|
  {
    if i < |s| && IsQuote(s[i]) then i + 1 else i
  }

  datatype Name = Name(text: string, end: nat)

  /** An identifier, with an optional quote mark on either side. */
  function NameAt(s: string, i: nat): (n: Option<Name>)
    requires i <= |s|
    ensures n.Some? ==> i < n.value.end <= |s| && n.value.text != ""
  {
    var a := QuoteEnd(s, i);
    var b := WordCharsEnd(s, a);
    if a == b then None else Some(Name(s[a..b], QuoteEnd(s, b)))
  }

  /** End of one or more white-space characters after `i`; none if there are none. */
  function SpacesAfter(s: string, i: nat): (k: Option<nat>)
    requires i <= |s|
    ensures k.Some? ==> i < k.value <= |s|
  {
    var e := SkipSpaces(s, i);
    if e == i then None else Some(e)
  }

  /** Two words with white space between them, starting at `i`: the end of the second. */
  function PhraseAt(s: string, i: nat, first: string, second: string): (k: Option<nat>)
    requires i <= |s|
    ensures k.Some? ==> k.value <= |s|
  {
    if !WordAt(s, i, first) then None
    else
      var gap := SpacesAfter(s, i + |first|);
      if gap.None? || !WordAt(s, gap.value, second) then None else Some(gap.value + |second|)
  }

  predicate WordEndsAt(s: string, i: nat) { i >= |s| || !IsWordChar(s[i]) }

  /** The phrase stands somewhere in `s`, as whole words. */
  predicate HasPhrase(s: string, first: string, second: string) {
    exists i :: 0 <= i < |s| && (i == 0 || !IsWordChar(s[i - 1]))
      && PhraseAt(s, i, first, second).Some? && WordEndsAt(s, PhraseAt(s, i, first, second).value)
  }

  lemma {:induction false} NotThere(s: string, first: string, second: string)
    requires |first| >= 2 && |s| >= 2
    requires forall i :: 0 <= i < |s| - 1 ==> !(Lower(s[i]) == first[0] && Lower(s[i + 1]) == first[1])
    ensures !HasPhrase(s, first, second)
  {
    assert forall i :: 0 <= i < |s| && WordAt(s, i, first) ==>
      i + 1 < |s| && Lower(s[i + 0]) == first[0] && Lower(s[i + 1]) == first[1];
  }

  function IndexOf(s: string, c: char, i: nat): (k: nat)
    requires i <= |s|
    ensures i <= k <= |s| && (k < |s| ==> s[k] == c)
    ensures forall j :: i <= j < k ==> s[j] != c
    decreases |s| - i
  {
    if i == |s| || s[i] == c then i else IndexOf(s, c, i + 1)
  }

  function LowerAll(s: string): (t: string)
    ensures |t| == |s| && forall i :: 0 <= i < |s| ==> t[i] == Lower(s[i])
  {
    seq(|s|, i requires 0 <= i < |s| => Lower(s[i]))
  }

  /** Runs of white space become one blank. */
  function Collapse(s: string, afterSpace: bool): string {
    if s == "" then ""
    else if IsSpace(s[0]) then (if afterSpace then "" else " ") + Collapse(s[1..], true)
    else [s[0]] + Collapse(s[1..], false)
  }

  function NormalizeType(t: string): string { Collapse(LowerAll(Trim(t)), false) }

  // --- parentheses ---------------------------------------------------------

  /** Nesting depth after reading `s` from depth `d`; none if a close paren has no partner. */
  function WalkParens(s: string, d: nat): Option<nat> {
    if s == "" then Some(d)
    else if s[0] == '(' then WalkParens(s[1..], d + 1)
    else if s[0] == ')' then if d == 0 then None else WalkParens(s[1..], d - 1)
    else WalkParens(s[1..], d)
  }

  /** The same, and none as well if there is a comma at depth zero. */
  function Walk(s: string, d: nat): Option<nat> {
    if s == "" then Some(d)
    else if s[0] == '(' then Walk(s[1..], d + 1)
    else if s[0] == ')' then if d == 0 then None else Walk(s[1..], d - 1)
    else if s[0] == ',' && d == 0 then None
    else Walk(s[1..], d)
  }

  /** Balanced, and without a top-level comma. */
  predicate OnePart(s: string) { Walk(s, 0) == Some(0) }

  /** No parens and no commas at all. */
  predicate Neutral(s: string) { forall i :: 0 <= i < |s| ==> s[i] != '(' && s[i] != ')' && s[i] != ',' }

  lemma {:induction false} WalkAppend(s: string, t: string, d: nat)
    ensures Walk(s + t, d) == if Walk(s, d).None? then None else Walk(t, Walk(s, d).value)
  {
    if s == "" {
      assert s + t == t;
    } else {
      assert (s + t)[1..] == s[1..] + t;
      if s[0] == '(' {
        WalkAppend(s[1..], t, d + 1);
      } else if s[0] == ')' {
        if d > 0 { WalkAppend(s[1..], t, d - 1); }
      } else {
        WalkAppend(s[1..], t, d);
      }
    }
  }

  lemma {:induction false} WalkParensAppend(s: string, t: string, d: nat)
    ensures WalkParens(s + t, d) == if WalkParens(s, d).None? then None else WalkParens(t, WalkParens(s, d).value)
  {
    if s == "" {
      assert s + t == t;
    } else {
      assert (s + t)[1..] == s[1..] + t;
      if s[0] == '(' {
        WalkParensAppend(s[1..], t, d + 1);
      } else if s[0] == ')' {
        if d > 0 { WalkParensAppend(s[1..], t, d - 1); }
      } else {
        WalkParensAppend(s[1..], t, d);
      }
    }
  }

  lemma {:induction false} NeutralWalk(s: string, d: nat)
    requires Neutral(s)
    ensures Walk(s, d) == Some(d) && WalkParens(s, d) == Some(d)
  {
    if s == "" {
    } else {
      NeutralWalk(s[1..], d);
    }
  }

  lemma {:induction false} WalkIsWalkParens(s: string, d: nat)
    requires Walk(s, d).Some?
    ensures WalkParens(s, d) == Walk(s, d)
  {
    if s == "" {
    } else {
      WalkIsWalkParens(s[1..], if s[0] == '(' then d + 1 else if s[0] == ')' then d - 1 else d);
    }
  }
}
