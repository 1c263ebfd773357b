/**
 * What the CREATE TABLE reader finds in a text, said by cutting the text into its words: the
 * name, type and phrases of a column, the kind, name and columns of an index, and the table.
 */
module SchemaReading {
  import opened Common
  import opened Text
  import opened SchemaModel
  import opened SchemaLexer
  import opened SchemaParser
  import RoundTrip = SchemaRoundTrip

  // --- pieces of a text ----------------------------------------------------

  /** A word of lower-case letters. */
  predicate IsKeyword(word: string) { word != "" && forall i :: 0 <= i < |word| ==> 'a' <= word[i] <= 'z' }

  /** `word` in capitals, small letters or a mixture. */
  predicate SameLetters(s: string, word: string) {
    |s| == |word| && forall i :: 0 <= i < |s| ==> s[i] == word[i] || ('A' <= s[i] <= 'Z' && s[i] - 'A' + 'a' == word[i])
  }

  predicate Letter(c: char) { 'a' <= c <= 'z' || 'A' <= c <= 'Z' }

  /** What names and words are made of: ASCII letters, digits and the underscore. */
  predicate NameChar(c: char) { Letter(c) || '0' <= c <= '9' || c == '_' }

  /** The text from `i` to `j` is the word, white space, white space if any, ... */
  predicate Word(s: string, i: nat, j: nat, word: string) { i <= j <= |s| && SameLetters(s[i..j], word) }
  predicate Gap(s: string, i: nat, j: nat) { i < j <= |s| && Blank(s[i..j]) }
  predicate MaybeGap(s: string, i: nat, j: nat) { i <= j <= |s| && Blank(s[i..j]) }
  predicate MaybeQuote(s: string, i: nat, j: nat) { j == i || (j == i + 1 <= |s| && s[i] in {'`', '"'}) }
  predicate Ident(s: string, i: nat, j: nat) { i <= j <= |s| && forall k :: i <= k < j ==> NameChar(s[k]) }
  predicate Mark(s: string, i: nat, c: char) { i < |s| && s[i] == c }

  ghost predicate TwoWords(s: string, i: nat, l: nat, first: string, second: string) {
    exists j: nat, k: nat :: Word(s, i, j, first) && Gap(s, j, k) && Word(s, k, l, second)
  }

  /** The phrase stands in the text between ends of words. */
  ghost predicate Stands(s: string, first: string, second: string) {
    exists i: nat, l: nat :: TwoWords(s, i, l, first, second)
      && (i == 0 || !NameChar(s[i - 1])) && (l == |s| || !NameChar(s[l]))
  }

  /** `t` is `s` without the white space at its ends. */
  ghost predicate Trimmed(s: string, t: string) {
    && (t == "" || (!IsSpace(t[0]) && !IsSpace(t[|t| - 1])))
    && exists pre, post :: Blank(pre) && Blank(post) && s == pre + (t + post)
  }

  lemma {:induction false} WordExact(s: string, i: nat, word: string)
    requires IsKeyword(word)
    ensures WordAt(s, i, word) <==> Word(s, i, i + |word|, word)
    ensures forall j: nat :: Word(s, i, j, word) ==> j == i + |word|
  {
  }

  lemma {:induction false} GapSpaces(s: string, i: nat, k: nat)
    requires MaybeGap(s, i, k)
    ensures forall j :: i <= j < k ==> IsSpace(s[j])
  {
    forall j | i <= j < k ensures IsSpace(s[j]) {
      assert s[j] == s[i..k][j - i];
    }
  }

  /** White space up to where it ends is skipped. */
  lemma {:induction false} SkipTo(s: string, i: nat, k: nat)
    requires MaybeGap(s, i, k) && (k == |s| || !IsSpace(s[k]))
    ensures SkipSpaces(s, i) == k
  {
    GapSpaces(s, i, k);
  }

  lemma {:induction false} Skipped(s: string, i: nat)
    requires i <= |s|
    ensures MaybeGap(s, i, SkipSpaces(s, i))
    ensures SpacesAfter(s, i).Some? ==>
      Gap(s, i, SpacesAfter(s, i).value) && SpacesAfter(s, i).value == SkipSpaces(s, i)
    ensures SpacesAfter(s, i).None? <==> i == |s| || !IsSpace(s[i])
  {
  }

  lemma {:induction false} WordStart(s: string, k: nat, l: nat, word: string)
    requires IsKeyword(word) && Word(s, k, l, word)
    ensures k < |s| && IsLetter(s[k]) && !IsSpace(s[k])
  {
    assert s[k..l][0] == s[k];
  }

  lemma {:induction false} PhraseReads(s: string, i: nat, k: nat, first: string, second: string)
    requires WordAt(s, i, first) && SpacesAfter(s, i + |first|) == Some(k) && WordAt(s, k, second)
    ensures PhraseAt(s, i, first, second) == Some(k + |second|)
  {
  }

  lemma {:induction false} GapReads(s: string, j: nat, k: nat)
    requires Gap(s, j, k) && k < |s| && !IsSpace(s[k])
    ensures SpacesAfter(s, j) == Some(k)
  {
    SkipTo(s, j, k);
  }

  lemma {:induction false} TwoWordsReadAt(s: string, i: nat, j: nat, k: nat, l: nat, first: string, second: string)
    requires IsKeyword(first) && IsKeyword(second) && Word(s, i, j, first) && Gap(s, j, k) && Word(s, k, l, second)
    ensures i <= |s| && PhraseAt(s, i, first, second) == Some(l)
  {
    WordExact(s, i, first);
    WordExact(s, k, second);
    WordStart(s, k, l, second);
    GapReads(s, j, k);
    PhraseReads(s, i, k, first, second);
  }

  lemma {:induction false} TwoWordsRead(s: string, i: nat, l: nat, first: string, second: string)
    requires IsKeyword(first) && IsKeyword(second) && TwoWords(s, i, l, first, second)
    ensures i <= |s| && PhraseAt(s, i, first, second) == Some(l)
  {
    var j: nat, k: nat :| Word(s, i, j, first) && Gap(s, j, k) && Word(s, k, l, second);
    TwoWordsReadAt(s, i, j, k, l, first, second);
  }

  lemma {:induction false} PhraseSplits(s: string, i: nat, first: string, second: string)
    requires i <= |s| && IsKeyword(first) && IsKeyword(second) && PhraseAt(s, i, first, second).Some?
    ensures TwoWords(s, i, PhraseAt(s, i, first, second).value, first, second)
  {
    WordExact(s, i, first);
    var j := i + |first|;
    Skipped(s, j);
    var k := SpacesAfter(s, j).value;
    WordExact(s, k, second);
    assert Word(s, i, j, first) && Gap(s, j, k) && Word(s, k, k + |second|, second);
  }

  lemma {:induction false} TwoWordsExact(s: string, i: nat, first: string, second: string)
    requires i <= |s| && IsKeyword(first) && IsKeyword(second)
    ensures forall l: nat :: TwoWords(s, i, l, first, second) <==> PhraseAt(s, i, first, second) == Some(l)
  {
    if PhraseAt(s, i, first, second).Some? {
      PhraseSplits(s, i, first, second);
    }
    forall l: nat | TwoWords(s, i, l, first, second) ensures PhraseAt(s, i, first, second) == Some(l) {
      TwoWordsRead(s, i, l, first, second);
    }
  }

  lemma {:induction false} StandsExact(s: string, first: string, second: string)
    requires IsKeyword(first) && IsKeyword(second)
    ensures HasPhrase(s, first, second) <==> Stands(s, first, second)
  {
    if HasPhrase(s, first, second) {
      var i :| 0 <= i < |s| && (i == 0 || !IsWordChar(s[i - 1]))
        && PhraseAt(s, i, first, second).Some? && WordEndsAt(s, PhraseAt(s, i, first, second).value);
      PhraseSplits(s, i, first, second);
    }
    if Stands(s, first, second) {
      var i: nat, l: nat :| TwoWords(s, i, l, first, second)
        && (i == 0 || !NameChar(s[i - 1])) && (l == |s| || !NameChar(s[l]));
      TwoWordsRead(s, i, l, first, second);
      var j: nat, k: nat :| Word(s, i, j, first) && Gap(s, j, k) && Word(s, k, l, second);
      WordStart(s, i, j, first);
    }
  }

  lemma {:induction false} BlankAppend(a: string, b: string)
    requires Blank(a) && Blank(b)
    ensures Blank(a + b)
  {
  }

  lemma {:induction false} TrimmedIs(pre: string, t: string, post: string)
    requires Blank(pre) && Blank(post) && (t == "" || (!IsSpace(t[0]) && !IsSpace(t[|t| - 1])))
    ensures Trim(pre + (t + post)) == t
  {
    Regroup(pre, t, post);
    if t == "" {
      assert pre + (t + post) == pre + post;
      BlankAppend(pre, post);
    } else {
      TrimIdentity(t);
      RoundTrip.TrimPadded(pre, t, post);
    }
  }

  lemma {:induction false} TrimmedExact(s: string, t: string)
    ensures Trimmed(s, t) <==> t == Trim(s)
  {
    var pre, post := RoundTrip.TrimParts(s);
    if Trimmed(s, t) {
      var a, b :| Blank(a) && Blank(b) && s == a + (t + b);
      TrimmedIs(a, t, b);
    }
  }

  // --- an optional name and an open paren ----------------------------------

  /** White space, the name `n` between optional quote marks, white space, an open paren. */
  ghost predicate NameThenOpen(s: string, i: nat, n: string) {
    exists a: nat, b: nat, c: nat, d: nat, e: nat ::
      MaybeGap(s, i, a) && MaybeQuote(s, a, b) && Ident(s, b, c) && n == s[b..c] && MaybeQuote(s, c, d)
      && MaybeGap(s, d, e) && Mark(s, e, '(')
  }

  lemma {:induction false} IdentEnds(s: string, b: nat, c: nat)
    requires Ident(s, b, c) && (c == |s| || !IsWordChar(s[c]))
    ensures WordCharsEnd(s, b) == c
  {
  }

  lemma {:induction false} NotWord(c: char)
    ensures IsSpace(c) || IsQuote(c) || c == '(' ==> !IsWordChar(c)
    ensures IsQuote(c) || c == '(' ==> !IsSpace(c)
    ensures c in {'`', '"'} <==> IsQuote(c)
  {
  }

  /** The first character of white space and a paren. */
  lemma {:induction false} GapStart(s: string, d: nat, e: nat)
    requires MaybeGap(s, d, e) && Mark(s, e, '(')
    ensures !IsWordChar(s[d]) && !IsQuote(s[d]) && (d < e ==> IsSpace(s[d]))
    ensures SkipSpaces(s, d) == e
  {
    SkipTo(s, d, e);
    NotWord(s[d]);
    assert d < e ==> s[d..e][0] == s[d];
  }

  lemma {:induction false} NamelessReads(s: string, i: nat, a: nat, e: nat)
    requires MaybeGap(s, i, a) && MaybeGap(s, a, e) && Mark(s, e, '(')
    ensures OptionalNameThenParen(s, i) == Some("")
  {
    assert s[i..e] == s[i..a] + s[a..e];
    GapStart(s, i, e);
    GapStart(s, e, e);
    assert QuoteEnd(s, e) == e;
    IdentEnds(s, e, e);
    assert s[e..e] == "";
  }

  lemma {:induction false} NamedReads(s: string, i: nat, a: nat, b: nat, c: nat, d: nat, e: nat)
    requires MaybeGap(s, i, a) && MaybeQuote(s, a, b) && Ident(s, b, c) && MaybeQuote(s, c, d)
    requires MaybeGap(s, d, e) && Mark(s, e, '(') && a < d
    ensures OptionalNameThenParen(s, i) == Some(s[b..c])
  {
    GapStart(s, d, e);
    NotWord(s[a]);
    NotWord(s[c]);
    SkipTo(s, i, a);
    if b == c && a == b {
      NotWord(s[d]);
      assert QuoteEnd(s, a) == d;
      IdentEnds(s, d, d);
      assert s[d..d] == s[b..c];
    } else {
      assert QuoteEnd(s, a) == b;
      IdentEnds(s, b, c);
      assert QuoteEnd(s, c) == d;
    }
  }

  lemma {:induction false} QuoteCut(s: string, a: nat)
    requires a <= |s|
    ensures MaybeQuote(s, a, QuoteEnd(s, a))
  {
  }

  lemma {:induction false} OptionalNameCuts(s: string, i: nat)
    requires i <= |s| && OptionalNameThenParen(s, i).Some?
    ensures NameThenOpen(s, i, OptionalNameThenParen(s, i).value)
  {
    var a := SkipSpaces(s, i);
    var b := QuoteEnd(s, a);
    var c := WordCharsEnd(s, b);
    var d := QuoteEnd(s, c);
    Skipped(s, i);
    Skipped(s, d);
    QuoteCut(s, a);
    QuoteCut(s, c);
    assert Ident(s, b, c) && Mark(s, SkipSpaces(s, d), '(');
  }

  lemma {:induction false} CutReads(s: string, i: nat, n: string)
    requires NameThenOpen(s, i, n)
    ensures i <= |s| && OptionalNameThenParen(s, i) == Some(n)
  {
    var a: nat, b: nat, c: nat, d: nat, e: nat :|
      MaybeGap(s, i, a) && MaybeQuote(s, a, b) && Ident(s, b, c) && n == s[b..c] && MaybeQuote(s, c, d)
      && MaybeGap(s, d, e) && Mark(s, e, '(');
    if a == d {
      NamelessReads(s, i, a, e);
    } else {
      NamedReads(s, i, a, b, c, d, e);
    }
  }

  lemma {:induction false} NameThenOpenExact(s: string, i: nat)
    requires i <= |s|
    ensures forall n :: NameThenOpen(s, i, n) <==> OptionalNameThenParen(s, i) == Some(n)
  {
    if OptionalNameThenParen(s, i).Some? {
      OptionalNameCuts(s, i);
    }
    forall n | NameThenOpen(s, i, n) ensures OptionalNameThenParen(s, i) == Some(n) {
      CutReads(s, i, n);
    }
  }

  // --- which index a part defines ------------------------------------------

  ghost predicate EitherWord(s: string, i: nat, j: nat) { Word(s, i, j, "key") || Word(s, i, j, "index") }

  ghost predicate PrimaryClause(p: string) { exists l: nat :: TwoWords(p, 0, l, "primary", "key") }

  /** UNIQUE, and the name. */
  ghost predicate UniqueClause(p: string, n: string) {
    exists j: nat, k: nat :: Word(p, 0, j, "unique") && Gap(p, j, k) && NameThenOpen(p, k, n)
  }

  /** UNIQUE KEY or UNIQUE INDEX, and the name. */
  ghost predicate UniqueKeyClause(p: string, n: string) {
    exists j: nat, k: nat, l: nat ::
      Word(p, 0, j, "unique") && Gap(p, j, k) && EitherWord(p, k, l) && NameThenOpen(p, l, n)
  }

  /** KEY or INDEX, and the name. */
  ghost predicate PlainClause(p: string, n: string) {
    n != "" && exists j: nat, k: nat :: EitherWord(p, 0, j) && Gap(p, j, k) && NameThenOpen(p, k, n)
  }

  /** The key words are read first: a lone "key" or "index" after UNIQUE is a name only if no other reading fits. */
  ghost predicate UniqueNamed(p: string, n: string) {
    UniqueKeyClause(p, n) || (UniqueClause(p, n) && forall m :: !UniqueKeyClause(p, m))
  }

  lemma {:induction false} EitherWordExact(p: string, k: nat)
    requires k <= |p|
    ensures forall l: nat :: EitherWord(p, k, l) <==> l == AfterKeyword(p, k) && l > k
  {
    WordExact(p, k, "key");
    WordExact(p, k, "index");
    if WordAt(p, k, "index") {
      assert Lower(p[k + 0]) == 'i';
    }
  }

  predicate UniqueStarts(p: string) { WordAt(p, 0, "unique") && SpacesAfter(p, 6).Some? }

  lemma {:induction false} UniqueStartsExact(p: string)
    ensures (exists j: nat, k: nat :: Word(p, 0, j, "unique") && Gap(p, j, k)) ==> UniqueStarts(p)
    ensures UniqueStarts(p) ==> Word(p, 0, 6, "unique") && Gap(p, 6, SpacesAfter(p, 6).value)
    ensures forall j: nat :: Word(p, 0, j, "unique") ==> j == 6
  {
    WordExact(p, 0, "unique");
    if UniqueStarts(p) {
      Skipped(p, 6);
    }
    if j: nat, k: nat :| Word(p, 0, j, "unique") && Gap(p, j, k) {
      Skipped(p, 6);
      assert p[6] == p[6..k][0];
    }
  }

  lemma {:induction false} EitherWordStart(p: string, k: nat, l: nat)
    requires EitherWord(p, k, l)
    ensures k < |p| && !IsSpace(p[k]) && l == AfterKeyword(p, k) && l > k
  {
    WordStart(p, k, l, if Word(p, k, l, "key") then "key" else "index");
    EitherWordExact(p, k);
  }

  lemma {:induction false} UniqueKeyReads(p: string, n: string)
    requires UniqueKeyClause(p, n)
    ensures UniqueStarts(p)
    ensures var k := SpacesAfter(p, 6).value;
      AfterKeyword(p, k) > k && NameThenOpen(p, AfterKeyword(p, k), n)
  {
    var j: nat, k: nat, l: nat :|
      Word(p, 0, j, "unique") && Gap(p, j, k) && EitherWord(p, k, l) && NameThenOpen(p, l, n);
    UniqueStartsExact(p);
    EitherWordStart(p, k, l);
    GapReads(p, 6, k);
  }

  lemma {:induction false} UniqueKeyCut(p: string, n: string)
    requires UniqueStarts(p)
    requires var k := SpacesAfter(p, 6).value;
      AfterKeyword(p, k) > k && NameThenOpen(p, AfterKeyword(p, k), n)
    ensures UniqueKeyClause(p, n)
  {
    UniqueStartsExact(p);
    EitherWordExact(p, SpacesAfter(p, 6).value);
  }

  lemma {:induction false} UniqueKeyExact(p: string, n: string)
    requires UniqueStarts(p)
    ensures var k := SpacesAfter(p, 6).value;
            var q := AfterKeyword(p, k);
      UniqueKeyClause(p, n) <==> q > k && OptionalNameThenParen(p, q) == Some(n)
  {
    var k := SpacesAfter(p, 6).value;
    NameThenOpenExact(p, AfterKeyword(p, k));
    if UniqueKeyClause(p, n) {
      UniqueKeyReads(p, n);
    } else if AfterKeyword(p, k) > k && NameThenOpen(p, AfterKeyword(p, k), n) {
      UniqueKeyCut(p, n);
    }
  }

  /** A name is looked for after all the white space, from wherever in it. */
  lemma {:induction false} SameFromGap(p: string, i: nat, k: nat)
    requires Gap(p, i, k)
    ensures SpacesAfter(p, i).Some?
    ensures OptionalNameThenParen(p, k) == OptionalNameThenParen(p, SpacesAfter(p, i).value)
  {
    GapSpaces(p, i, k);
    var e := SkipSpaces(p, i);
    assert SkipSpaces(p, k) == e && SkipSpaces(p, e) == e;
  }

  lemma {:induction false} UniqueExact(p: string, n: string)
    requires UniqueStarts(p)
    ensures UniqueClause(p, n) <==> OptionalNameThenParen(p, SpacesAfter(p, 6).value) == Some(n)
  {
    var k0 := SpacesAfter(p, 6).value;
    UniqueStartsExact(p);
    NameThenOpenExact(p, k0);
    if UniqueClause(p, n) {
      var j: nat, k: nat :| Word(p, 0, j, "unique") && Gap(p, j, k) && NameThenOpen(p, k, n);
      SameFromGap(p, 6, k);
      NameThenOpenExact(p, k);
    }
  }

  lemma {:induction false} UniqueNameReads(p: string)
    ensures UniqueStarts(p) ==>
      var k := SpacesAfter(p, 6).value;
      var q := AfterKeyword(p, k);
      UniqueName(p) == if q > k && OptionalNameThenParen(p, q).Some? then OptionalNameThenParen(p, q)
                       else OptionalNameThenParen(p, k)
    ensures !UniqueStarts(p) ==> UniqueName(p).None?
  {
  }

  lemma {:induction false} NoUnique(p: string, n: string)
    requires !UniqueStarts(p)
    ensures !UniqueKeyClause(p, n) && !UniqueClause(p, n)
  {
    UniqueStartsExact(p);
  }

  lemma {:induction false} UniqueNamedExact(p: string, n: string)
    ensures UniqueNamed(p, n) <==> UniqueName(p) == Some(n)
  {
    UniqueNameReads(p);
    if UniqueStarts(p) {
      UniqueExact(p, n);
      var q := AfterKeyword(p, SpacesAfter(p, 6).value);
      forall m ensures UniqueKeyClause(p, m) <==>
        q > SpacesAfter(p, 6).value && OptionalNameThenParen(p, q) == Some(m)
      {
        UniqueKeyExact(p, m);
      }
      if OptionalNameThenParen(p, q).Some? {
        var m := OptionalNameThenParen(p, q).value;
        assert UniqueKeyClause(p, m) <==> q > SpacesAfter(p, 6).value;
      }
    } else {
      NoUnique(p, n);
    }
  }

  lemma {:induction false} NonemptyNameThenOpen(s: string, k: nat, n: string)
    requires k <= |s| && (k < |s| ==> !IsSpace(s[k])) && n != ""
    ensures OptionalNameThenParen(s, k) == Some(n) <==>
      var name := NameAt(s, k);
      && name.Some? && name.value.text == n
      && SkipSpaces(s, name.value.end) < |s| && s[SkipSpaces(s, name.value.end)] == '('
  {
    assert SkipSpaces(s, k) == k;
  }

  lemma {:induction false} PlainFound(p: string, n: string)
    requires PlainIndexName(p) == Some(n)
    ensures PlainClause(p, n)
  {
    var q := AfterKeyword(p, 0);
    EitherWordExact(p, 0);
    Skipped(p, q);
    var k := SpacesAfter(p, q).value;
    NonemptyNameThenOpen(p, k, n);
    NameThenOpenExact(p, k);
  }

  lemma {:induction false} PlainRead(p: string, q: nat, k: nat, n: string)
    requires AfterKeyword(p, 0) == q && q > 0 && SpacesAfter(p, q) == Some(k)
    requires n != "" && OptionalNameThenParen(p, k) == Some(n)
    ensures PlainIndexName(p) == Some(n)
  {
    NonemptyNameThenOpen(p, k, n);
  }

  lemma {:induction false} PlainReads(p: string, n: string)
    requires PlainClause(p, n)
    ensures PlainIndexName(p) == Some(n)
  {
    var j: nat, k: nat :| EitherWord(p, 0, j) && Gap(p, j, k) && NameThenOpen(p, k, n);
    EitherWordExact(p, 0);
    SameFromGap(p, j, k);
    CutReads(p, k, n);
    PlainRead(p, j, SpacesAfter(p, j).value, n);
  }

  lemma {:induction false} PlainExact(p: string, n: string)
    ensures PlainClause(p, n) <==> PlainIndexName(p) == Some(n)
  {
    if PlainClause(p, n) {
      PlainReads(p, n);
    } else if PlainIndexName(p) == Some(n) {
      PlainFound(p, n);
    }
  }

  // --- the columns of an index ---------------------------------------------

  /** A list cut at its top-level commas; a blank piece at the end is left out. */
  ghost predicate CutAtCommas(body: string, pieces: seq<string>) {
    && (forall p :: p in pieces ==> OnePart(p))
    && ((pieces != [] && !Blank(pieces[|pieces| - 1]) && Join(pieces, ",") == body)
        || exists last :: Blank(last) && Join(pieces + [last], ",") == body)
  }

  lemma {:induction false} JoinCons(x: string, rest: seq<string>, sep: string)
    requires rest != []
    ensures Join([x] + rest, sep) == x + sep + Join(rest, sep)
  {
    assert ([x] + rest)[1..] == rest;
  }

  /** One more piece in front. */
  lemma {:induction false} CutCons(x: string, body: string, pieces: seq<string>)
    requires CutAtCommas(body, pieces) && OnePart(x)
    ensures CutAtCommas(x + "," + body, [x] + pieces)
  {
    if pieces != [] && !Blank(pieces[|pieces| - 1]) && Join(pieces, ",") == body {
      JoinCons(x, pieces, ",");
    } else {
      var last :| Blank(last) && Join(pieces + [last], ",") == body;
      JoinCons(x, pieces + [last], ",");
      assert [x] + pieces + [last] == [x] + (pieces + [last]);
    }
  }

  lemma {:induction false} CutLast(s: string)
    requires OnePart(s)
    ensures CutAtCommas(s, if Blank(s) then [] else [s])
  {
    assert [] + [s] == [s];
    assert Join([s], ",") == s;
  }

  lemma {:induction false} StepWalk(current: string, depth: nat, c: char)
    requires Walk(current, 0) == Some(depth) && !(c == ',' && depth == 0) && !(c == ')' && depth == 0)
    ensures Walk(current + [c], 0) == Some(if c == '(' then depth + 1 else if c == ')' then depth - 1 else depth)
  {
    WalkAppend(current, [c], 0);
    assert [c][1..] == "";
  }

  lemma {:induction false} NextCharacter(current: string, s: string)
    requires s != ""
    ensures current + s == current + [s[0]] + s[1..] && "" + s[1..] == s[1..]
    ensures s[0] == ',' ==> current + s == current + "," + s[1..]
  {
  }

  lemma {:induction false} SplitIsCut(s: string, current: string, depth: nat)
    requires Walk(current, 0) == Some(depth) && WalkParens(s, depth) == Some(0)
    ensures CutAtCommas(current + s, SplitFrom(s, current, depth))
    decreases |s|
  {
    if s == "" {
      assert current + s == current;
      CutLast(current);
    } else {
      NextCharacter(current, s);
      if s[0] == ',' && depth == 0 {
        SplitIsCut(s[1..], "", 0);
        CutCons(current, s[1..], SplitFrom(s[1..], "", 0));
      } else {
        StepWalk(current, depth, s[0]);
        var d := if s[0] == '(' then depth + 1 else if s[0] == ')' then depth - 1 else depth;
        SplitIsCut(s[1..], current + [s[0]], d);
      }
    }
  }

  /** The text between the parens at `o` and `c`, which match; `Enclosed` finds no other `c`. */
  ghost predicate Enclosed(s: string, o: nat, c: nat) {
    o < c < |s| && s[o] == '(' && s[c] == ')' && WalkParens(s[o + 1..c], 0) == Some(0)
  }

  lemma {:induction false} ClosesAt(s: string, d: nat)
    requires FindClose(s, d) < |s|
    ensures s[FindClose(s, d)] == ')'
  {
    if !(s[0] == ')' && d == 0) {
      ClosesAt(s[1..], if s[0] == '(' then d + 1 else if s[0] == ')' then d - 1 else d);
    }
  }

  lemma {:induction false} EnclosedExact(s: string, o: nat)
    ensures ParenBody(s, o).Some? ==>
      var c := o + 1 + |ParenBody(s, o).value|;
      Enclosed(s, o, c) && ParenBody(s, o).value == s[o + 1..c]
    ensures ParenBody(s, o).None? ==> forall c: nat :: !Enclosed(s, o, c)
  {
    if o < |s| && s[o] == '(' {
      var tail := s[o + 1..];
      var k := FindClose(tail, 0);
      if k < |tail| {
        RoundTrip.FindCloseBalanced(tail, 0);
        ClosesAt(tail, 0);
        assert tail[..k] == s[o + 1..o + 1 + k] && tail[k] == s[o + 1 + k];
      }
      forall c: nat | Enclosed(s, o, c) ensures k < |tail| {
        var body, post := s[o + 1..c], s[c + 1..];
        assert tail == body + ")" + post;
        RoundTrip.FindCloseAfter(body, post, 0);
      }
    }
  }

  /** The name at the front of the trimmed piece. */
  ghost predicate NameInFront(piece: string, n: string) {
    exists t, a: nat, b: nat ::
      Trimmed(piece, t) && MaybeQuote(t, 0, a) && Ident(t, a, b) && a < b && n == t[a..b]
      && (b == |t| || !NameChar(t[b]))
  }

  lemma {:induction false} NameInFrontExact(piece: string, n: string)
    ensures NameInFront(piece, n) <==> LeadingName(Trim(piece)) == Some(n)
  {
    var t := Trim(piece);
    TrimmedExact(piece, t);
    if LeadingName(t) == Some(n) {
      var a := QuoteEnd(t, 0);
      QuoteCut(t, 0);
      assert Ident(t, a, WordCharsEnd(t, a));
    }
    if NameInFront(piece, n) {
      var t', a: nat, b: nat :|
        Trimmed(piece, t') && MaybeQuote(t', 0, a) && Ident(t', a, b) && a < b && n == t'[a..b]
        && (b == |t'| || !NameChar(t'[b]));
      TrimmedExact(piece, t');
      NotWord(t[0]);
      assert QuoteEnd(t, 0) == a;
      IdentEnds(t, a, b);
    }
  }

  lemma {:induction false} HeadPicked(x: string, n: Option<string>, gives: (string, string) -> bool)
    requires forall m :: gives(x, m) <==> n == Some(m)
    ensures PickedInOrder([x], if n.Some? then [n.value] else [], gives)
  {
    if n.Some? {
      PickOne(x, n.value, gives);
    } else {
      PickNothing([x], gives);
    }
  }

  lemma {:induction false} KeptNamesStep(pieces: seq<string>, n: Option<string>, gives: (string, string) -> bool)
    requires pieces != [] && n == LeadingName(Trim(pieces[0]))
    requires PickedInOrder([pieces[0]], if n.Some? then [n.value] else [], gives)
    requires PickedInOrder(pieces[1..], KeptNames(pieces[1..]), gives)
    ensures PickedInOrder(pieces, KeptNames(pieces), gives)
  {
    PickCons(pieces, if n.Some? then [n.value] else [], KeptNames(pieces[1..]), gives);
  }

  lemma {:induction false} KeptNamesPicked(pieces: seq<string>, gives: (string, string) -> bool)
    requires forall x, m :: x in pieces ==> (gives(x, m) <==> LeadingName(Trim(x)) == Some(m))
    ensures PickedInOrder(pieces, KeptNames(pieces), gives)
  {
    if pieces == [] {
      PickNothing(pieces, gives);
    } else {
      var x := pieces[0];
      HeadPicked(x, LeadingName(Trim(x)), gives);
      KeptNamesPicked(pieces[1..], gives);
      KeptNamesStep(pieces, LeadingName(Trim(x)), gives);
    }
  }

  lemma {:induction false} KeptNamesExact(pieces: seq<string>)
    ensures PickedInOrder(pieces, KeptNames(pieces), NameInFront)
  {
    forall x, m ensures NameInFront(x, m) <==> LeadingName(Trim(x)) == Some(m) {
      NameInFrontExact(x, m);
    }
    KeptNamesPicked(pieces, NameInFront);
  }

  ghost predicate FirstParens(p: string, o: nat, c: nat) {
    Enclosed(p, o, c) && forall k :: 0 <= k < o ==> p[k] != '('
  }

  /** The columns of an index: the names in front of the pieces between the first parens. */
  ghost predicate ListsColumns(p: string, columns: seq<string>) {
    || (exists o: nat, c: nat, pieces ::
          FirstParens(p, o, c) && CutAtCommas(p[o + 1..c], pieces) && PickedInOrder(pieces, columns, NameInFront))
    || (columns == [] && forall o: nat, c: nat :: !FirstParens(p, o, c))
  }

  lemma {:induction false} FirstOpen(p: string, o: nat, c: nat)
    requires FirstParens(p, o, c)
    ensures IndexOf(p, '(', 0) == o
  {
  }

  lemma {:induction false} IndexColumnsExact(p: string)
    ensures ListsColumns(p, ParseIndexColumns(p))
  {
    var o := IndexOf(p, '(', 0);
    EnclosedExact(p, o);
    if ParenBody(p, o).Some? {
      var c := o + 1 + |ParenBody(p, o).value|;
      var pieces := TopLevelParts(p[o + 1..c]);
      SplitIsCut(p[o + 1..c], "", 0);
      assert "" + p[o + 1..c] == p[o + 1..c];
      KeptNamesExact(pieces);
      assert FirstParens(p, o, c);
    } else {
      forall o': nat, c: nat ensures !FirstParens(p, o', c) {
        if FirstParens(p, o', c) {
          FirstOpen(p, o', c);
        }
      }
    }
  }

  // --- what a part says ----------------------------------------------------

  /** The part defines this index. */
  ghost predicate SaysIndex(p: string, index: IndexDef) {
    && ListsColumns(p, index.columns)
    && (|| (PrimaryClause(p) && index.name == "PRIMARY" && index.unique)
        || (!PrimaryClause(p) && UniqueNamed(p, index.name) && index.unique)
        || (!PrimaryClause(p) && (forall n :: !UniqueNamed(p, n)) && PlainClause(p, index.name) && !index.unique))
  }

  ghost predicate IndexClause(p: string) {
    PrimaryClause(p) || exists n :: UniqueNamed(p, n) || PlainClause(p, n)
  }

  lemma {:induction false} PrimaryExact(p: string)
    ensures PrimaryClause(p) <==> PhraseAt(p, 0, "primary", "key").Some?
  {
    TwoWordsExact(p, 0, "primary", "key");
  }

  lemma {:induction false} IndexNames(p: string)
    ensures forall n :: UniqueNamed(p, n) <==> UniqueName(p) == Some(n)
    ensures forall n :: PlainClause(p, n) <==> PlainIndexName(p) == Some(n)
  {
    forall n
      ensures UniqueNamed(p, n) <==> UniqueName(p) == Some(n)
      ensures PlainClause(p, n) <==> PlainIndexName(p) == Some(n)
    {
      UniqueNamedExact(p, n);
      PlainExact(p, n);
    }
  }

  /** The three kinds, in the order they are tried. */
  lemma {:induction false} KindsExact(p: string, primary: bool, unique: Option<string>, plain: Option<string>,
                                      columns: seq<string>, r: Option<IndexDef>)
    requires ListsColumns(p, columns) && (PrimaryClause(p) <==> primary)
    requires forall n :: UniqueNamed(p, n) <==> unique == Some(n)
    requires forall n :: PlainClause(p, n) <==> plain == Some(n)
    requires r == if primary then Some(IndexDef("PRIMARY", columns, true))
                  else if unique.Some? then Some(IndexDef(unique.value, columns, true))
                  else if plain.Some? then Some(IndexDef(plain.value, columns, false)) else None
    ensures r.Some? ==> SaysIndex(p, r.value)
    ensures r.Some? <==> IndexClause(p)
  {
    if unique.Some? {
      assert UniqueNamed(p, unique.value);
    }
    if plain.Some? {
      assert PlainClause(p, plain.value);
    }
  }

  lemma {:induction false} IndexExact(p: string)
    ensures ParseIndexDefinition(p).Some? ==> SaysIndex(p, ParseIndexDefinition(p).value)
    ensures ParseIndexDefinition(p).Some? <==> IndexClause(p)
  {
    PrimaryExact(p);
    IndexColumnsExact(p);
    IndexNames(p);
    KindsExact(p, PhraseAt(p, 0, "primary", "key").Some?, UniqueName(p), PlainIndexName(p), ParseIndexColumns(p),
               ParseIndexDefinition(p));
  }

  // --- the type of a column ------------------------------------------------

  ghost predicate WordOfLetters(s: string, a: nat) {
    0 < a <= |s| && (forall i :: 0 <= i < a ==> Letter(s[i])) && (a == |s| || !Letter(s[a]))
  }

  /** White space if any, and parens without a close paren between them. */
  ghost predicate Arguments(s: string, a: nat, b: nat) {
    exists o: nat :: MaybeGap(s, a, o) && Mark(s, o, '(') && o + 1 < b <= |s| && s[b - 1] == ')'
      && forall k :: o < k < b - 1 ==> s[k] != ')'
  }

  ghost predicate Modifier(s: string, b: nat, c: nat, word: string) {
    exists g: nat :: Gap(s, b, g) && Word(s, g, c, word)
  }

  ghost predicate MaybeArguments(s: string, a: nat, b: nat) {
    Arguments(s, a, b) || (b == a && forall x: nat :: !Arguments(s, a, x))
  }

  ghost predicate MaybeModifier(s: string, b: nat, c: nat, word: string) {
    Modifier(s, b, c, word) || (c == b && forall x: nat :: !Modifier(s, b, x, word))
  }

  /** Up to `k` stand a word of letters and what may follow it: arguments, UNSIGNED, ZEROFILL. */
  ghost predicate TypeText(s: string, k: nat) {
    exists a: nat, b: nat, c: nat ::
      && WordOfLetters(s, a)
      && MaybeArguments(s, a, b)
      && MaybeModifier(s, b, c, "unsigned")
      && MaybeModifier(s, c, k, "zerofill")
  }

  lemma {:induction false} LettersMaximal(s: string, i: nat)
    requires i <= |s|
    ensures var k := LettersEnd(s, i);
      (forall j :: i <= j < k ==> IsLetter(s[j])) && (k == |s| || !IsLetter(s[k]))
    decreases |s| - i
  {
    if i < |s| && IsLetter(s[i]) {
      LettersMaximal(s, i + 1);
    }
  }

  lemma {:induction false} LettersRead(s: string)
    ensures LettersEnd(s, 0) > 0 ==> WordOfLetters(s, LettersEnd(s, 0))
    ensures LettersEnd(s, 0) == 0 ==> forall a: nat :: !WordOfLetters(s, a)
  {
    LettersMaximal(s, 0);
  }

  lemma {:induction false} ArgumentsExact(s: string, a: nat)
    requires a <= |s|
    ensures forall b: nat :: Arguments(s, a, b) <==> b == ArgumentsEnd(s, a) && b > a
  {
    var open := SkipSpaces(s, a);
    Skipped(s, a);
    forall b: nat ensures Arguments(s, a, b) <==> b == ArgumentsEnd(s, a) && b > a {
      if Arguments(s, a, b) {
        var o: nat :| MaybeGap(s, a, o) && Mark(s, o, '(') && o + 1 < b <= |s| && s[b - 1] == ')'
          && forall k :: o < k < b - 1 ==> s[k] != ')';
        SkipTo(s, a, o);
      }
    }
  }

  lemma {:induction false} ModifierExact(s: string, b: nat, word: string)
    requires b <= |s| && IsKeyword(word)
    ensures forall c: nat :: Modifier(s, b, c, word) <==> c == AfterModifier(s, b, word) && c > b
  {
    Skipped(s, b);
    forall c: nat ensures Modifier(s, b, c, word) <==> c == AfterModifier(s, b, word) && c > b {
      if Modifier(s, b, c, word) {
        var g: nat :| Gap(s, b, g) && Word(s, g, c, word);
        WordExact(s, g, word);
        WordStart(s, g, c, word);
        GapReads(s, b, g);
      }
      if SpacesAfter(s, b).Some? {
        WordExact(s, SpacesAfter(s, b).value, word);
      }
    }
  }

  lemma {:induction false} TypeSplits(s: string)
    ensures var a := LettersEnd(s, 0);
      TypeLength(s) == if a == 0 then 0
                       else AfterModifier(s, AfterModifier(s, ArgumentsEnd(s, a), "unsigned"), "zerofill")
  {
  }

  lemma {:induction false} TypeFound(s: string)
    requires TypeLength(s) > 0
    ensures TypeText(s, TypeLength(s))
  {
    LettersRead(s);
    TypeSplits(s);
    var a := LettersEnd(s, 0);
    ArgumentsExact(s, a);
    var b := ArgumentsEnd(s, a);
    ModifierExact(s, b, "unsigned");
    var c := AfterModifier(s, b, "unsigned");
    ModifierExact(s, c, "zerofill");
    assert MaybeArguments(s, a, b) && MaybeModifier(s, b, c, "unsigned")
        && MaybeModifier(s, c, TypeLength(s), "zerofill");
  }

  lemma {:induction false} TypeExact(s: string)
    ensures TypeLength(s) > 0 ==> TypeText(s, TypeLength(s))
    ensures TypeLength(s) == 0 ==> forall k: nat :: !TypeText(s, k)
  {
    if TypeLength(s) > 0 {
      TypeFound(s);
    } else {
      LettersRead(s);
    }
  }

  // --- the normal form of a type -------------------------------------------

  /** `w` is the text in small letters. */
  predicate InSmallLetters(text: string, w: string) {
    |w| == |text| && forall i :: 0 <= i < |w| ==>
      w[i] == if 'A' <= text[i] <= 'Z' then text[i] - 'A' + 'a' else text[i]
  }

  predicate NoSpaces(s: string) { forall i :: 0 <= i < |s| ==> !IsSpace(s[i]) }

  /** The text is the words, in any case, with white space between them. */
  ghost predicate Spells(text: string, words: seq<string>)
    decreases |words|
  {
    words != [] &&
    if |words| == 1 then text != "" && NoSpaces(text) && InSmallLetters(text, words[0])
    else
      exists w, gap, rest :: text == w + (gap + rest) && Spells(rest, words[1..])
        && w != "" && NoSpaces(w) && InSmallLetters(w, words[0]) && gap != "" && Blank(gap)
  }

  /** Small letters, and one blank wherever there is white space. */
  ghost predicate Normal(text: string, n: string) {
    exists words :: Spells(text, words) && n == Join(words, " ")
  }

  lemma {:induction false} LowerSpaces(s: string)
    ensures InSmallLetters(s, LowerAll(s))
    ensures forall i :: 0 <= i < |s| ==> (IsSpace(LowerAll(s)[i]) <==> IsSpace(s[i]))
  {
  }

  lemma {:induction false} LowerAppend(s: string, t: string)
    ensures LowerAll(s + t) == LowerAll(s) + LowerAll(t)
  {
  }

  lemma {:induction false} CollapseWord(w: string, rest: string, afterSpace: bool)
    requires w != "" && NoSpaces(w)
    ensures Collapse(w + rest, afterSpace) == w + Collapse(rest, false)
  {
    ConsAppend(w, rest);
    if |w| == 1 {
      assert w[1..] + rest == rest && w == [w[0]];
    } else {
      CollapseWord(w[1..], rest, false);
      assert w == [w[0]] + w[1..];
      Regroup([w[0]], w[1..], Collapse(rest, false));
    }
  }

  lemma {:induction false} CollapseGap(gap: string, rest: string, afterSpace: bool)
    requires gap != "" && Blank(gap) && rest != "" && !IsSpace(rest[0])
    ensures Collapse(gap + rest, afterSpace) == (if afterSpace then "" else " ") + Collapse(rest, false)
  {
    ConsAppend(gap, rest);
    if |gap| == 1 {
      assert gap[1..] + rest == rest;
      assert Collapse(rest, true) == Collapse(rest, false);
    } else {
      CollapseGap(gap[1..], rest, true);
    }
  }

  /** The first word, the white space after it, and the rest. */
  lemma {:induction false} FirstWord(text: string) returns (w: string, gap: string, rest: string)
    requires text != "" && !IsSpace(text[0]) && !IsSpace(text[|text| - 1]) && !NoSpaces(text)
    ensures text == w + (gap + rest) && w != "" && NoSpaces(w) && gap != "" && Blank(gap)
    ensures rest != "" && !IsSpace(rest[0]) && !IsSpace(rest[|rest| - 1])
  {
    var j := 1;
    while j < |text| && !IsSpace(text[j])
      invariant 1 <= j <= |text| && forall i :: 0 <= i < j ==> !IsSpace(text[i])
    {
      j := j + 1;
    }
    var k := SkipSpaces(text, j);
    Skipped(text, j);
    w, gap, rest := text[..j], text[j..k], text[k..];
    ThreeParts(text, j, k);
  }

  lemma {:induction false} CollapseFirst(w: string, gap: string, rest: string)
    requires w != "" && NoSpaces(w) && gap != "" && Blank(gap) && rest != "" && !IsSpace(rest[0])
    ensures Collapse(LowerAll(w + (gap + rest)), false) == LowerAll(w) + " " + Collapse(LowerAll(rest), false)
  {
    LowerAppend(w, gap + rest);
    LowerAppend(gap, rest);
    LowerSpaces(w);
    LowerSpaces(gap);
    LowerSpaces(rest);
    CollapseWord(LowerAll(w), LowerAll(gap) + LowerAll(rest), false);
    CollapseGap(LowerAll(gap), LowerAll(rest), false);
    Regroup(LowerAll(w), " ", Collapse(LowerAll(rest), false));
  }

  lemma {:induction false} NormalCons(w: string, gap: string, rest: string, n: string)
    requires w != "" && NoSpaces(w) && gap != "" && Blank(gap) && Normal(rest, n)
    ensures Normal(w + (gap + rest), LowerAll(w) + " " + n)
  {
    var words :| Spells(rest, words) && n == Join(words, " ");
    LowerSpaces(w);
    assert ([LowerAll(w)] + words)[1..] == words;
    assert Spells(w + (gap + rest), [LowerAll(w)] + words);
    JoinCons(LowerAll(w), words, " ");
  }

  lemma {:induction false} NormalExact(text: string)
    requires text != "" && !IsSpace(text[0]) && !IsSpace(text[|text| - 1])
    ensures Normal(text, Collapse(LowerAll(text), false))
    decreases |text|
  {
    if NoSpaces(text) {
      LowerSpaces(text);
      RoundTrip.CollapseNothing(LowerAll(text));
      assert Spells(text, [LowerAll(text)]);
      assert Join([LowerAll(text)], " ") == LowerAll(text);
    } else {
      var w, gap, rest := FirstWord(text);
      NormalExact(rest);
      CollapseFirst(w, gap, rest);
      NormalCons(w, gap, rest, Collapse(LowerAll(rest), false));
    }
  }

  lemma {:induction false} ModifierLast(s: string, b: nat, c: nat, word: string)
    requires Modifier(s, b, c, word) && IsKeyword(word)
    ensures 0 < c <= |s| && IsLetter(s[c - 1]) && !IsSpace(s[c - 1])
  {
    var g: nat :| Gap(s, b, g) && Word(s, g, c, word);
    assert s[g..c][c - g - 1] == s[c - 1];
  }

  lemma {:induction false} MaybeModifierLast(s: string, b: nat, c: nat, word: string)
    requires MaybeModifier(s, b, c, word) && IsKeyword(word) && 0 < b <= |s| && !IsSpace(s[b - 1])
    ensures 0 < c <= |s| && !IsSpace(s[c - 1])
  {
    if Modifier(s, b, c, word) {
      ModifierLast(s, b, c, word);
    }
  }

  lemma {:induction false} ArgumentsLast(s: string, a: nat, b: nat)
    requires WordOfLetters(s, a) && MaybeArguments(s, a, b)
    ensures 0 < b <= |s| && !IsSpace(s[b - 1])
  {
    if Arguments(s, a, b) {
      var o: nat :| MaybeGap(s, a, o) && Mark(s, o, '(') && o + 1 < b <= |s| && s[b - 1] == ')';
    }
  }

  lemma {:induction false} TypeEndsAt(s: string, a: nat, b: nat, c: nat, k: nat)
    requires WordOfLetters(s, a) && MaybeArguments(s, a, b)
    requires MaybeModifier(s, b, c, "unsigned") && MaybeModifier(s, c, k, "zerofill")
    ensures 0 < k <= |s| && !IsSpace(s[0]) && !IsSpace(s[k - 1])
  {
    ArgumentsLast(s, a, b);
    MaybeModifierLast(s, b, c, "unsigned");
    MaybeModifierLast(s, c, k, "zerofill");
  }

  /** A type starts with a letter and does not end with white space. */
  lemma {:induction false} TypeEnds(s: string, k: nat)
    requires TypeText(s, k)
    ensures 0 < k <= |s| && !IsSpace(s[0]) && !IsSpace(s[k - 1])
  {
    var a: nat, b: nat, c: nat :| WordOfLetters(s, a) && MaybeArguments(s, a, b)
      && MaybeModifier(s, b, c, "unsigned") && MaybeModifier(s, c, k, "zerofill");
    TypeEndsAt(s, a, b, c, k);
  }

  lemma {:induction false} TypeNormal(s: string, k: nat)
    requires TypeText(s, k)
    ensures k <= |s| && Normal(s[..k], NormalizeType(s[..k]))
  {
    TypeEnds(s, k);
    TrimIdentity(s[..k]);
    NormalExact(s[..k]);
  }

  // --- columns -------------------------------------------------------------

  /** The part is a name between optional quote marks, white space, and `rest`, trimmed. */
  ghost predicate DefinitionText(p: string, name: string, rest: string) {
    exists a: nat, b: nat, e: nat, g: nat ::
      MaybeQuote(p, 0, a) && Ident(p, a, b) && a < b && name == p[a..b] && MaybeQuote(p, b, e) && Gap(p, e, g)
      && rest != "" && Trimmed(p[g..], rest)
  }

  lemma {:induction false} NameCut(p: string, a: nat, b: nat, e: nat, g: nat)
    requires MaybeQuote(p, 0, a) && Ident(p, a, b) && a < b && MaybeQuote(p, b, e) && Gap(p, e, g)
    ensures NameAt(p, 0) == Some(Name(p[a..b], e))
  {
    GapSpaces(p, e, g);
    NotWord(p[0]);
    NotWord(p[b]);
    NotWord(p[e]);
    assert QuoteEnd(p, 0) == a;
    IdentEnds(p, a, b);
    assert QuoteEnd(p, b) == e;
  }

  lemma {:induction false} NameFound(p: string)
    requires NameAt(p, 0).Some?
    ensures var n := NameAt(p, 0).value;
            var a := QuoteEnd(p, 0);
            var b := WordCharsEnd(p, a);
      MaybeQuote(p, 0, a) && Ident(p, a, b) && a < b && n.text == p[a..b] && MaybeQuote(p, b, n.end)
  {
    QuoteCut(p, 0);
    QuoteCut(p, WordCharsEnd(p, QuoteEnd(p, 0)));
  }

  /** Trimming takes away white space in front. */
  lemma {:induction false} TrimBehind(gap: string, s: string)
    requires Blank(gap)
    ensures Trim(gap + s) == Trim(s)
  {
    var pre, post := RoundTrip.TrimParts(s);
    BlankAppend(gap, pre);
    TrimmedIs(gap + pre, Trim(s), post);
    Regroup(gap, pre, Trim(s) + post);
  }

  lemma {:induction false} TrimAfterGap(p: string, e: nat, g: nat)
    requires Gap(p, e, g)
    ensures SpacesAfter(p, e).Some? && Trim(p[SpacesAfter(p, e).value..]) == Trim(p[g..])
  {
    GapSpaces(p, e, g);
    var k := SpacesAfter(p, e).value;
    assert p[g..] == p[g..k] + p[k..];
    TrimBehind(p[g..k], p[k..]);
  }

  lemma {:induction false} DefinitionReadsAs(p: string, name: string, rest: string)
    requires DefinitionText(p, name, rest)
    ensures ParseColumnDefinition(p) == ReadRest(name, rest)
  {
    var a: nat, b: nat, e: nat, g: nat :|
      MaybeQuote(p, 0, a) && Ident(p, a, b) && a < b && name == p[a..b] && MaybeQuote(p, b, e) && Gap(p, e, g)
      && rest != "" && Trimmed(p[g..], rest);
    NameCut(p, a, b, e, g);
    TrimAfterGap(p, e, g);
    TrimmedExact(p[g..], rest);
  }

  lemma {:induction false} DefinitionFound(p: string)
    requires ParseColumnDefinition(p).Some?
    ensures NameAt(p, 0).Some?
    ensures exists rest ::
      DefinitionText(p, NameAt(p, 0).value.text, rest)
      && ParseColumnDefinition(p) == ReadRest(NameAt(p, 0).value.text, rest)
  {
    NameFound(p);
    var gap := RoundTrip.DefinitionShape(p);
    var rest := Trim(p[gap..]);
    TrimmedExact(p[gap..], rest);
    RoundTrip.RestShape(NameAt(p, 0).value.text, rest);
    assert Gap(p, NameAt(p, 0).value.end, gap);
    assert DefinitionText(p, NameAt(p, 0).value.text, rest);
  }

  /** What the text after a name says of the column. */
  ghost predicate SaysRest(rest: string, c: ColumnDef, inlinePrimaryKey: bool) {
    && (exists k: nat :: TypeText(rest, k) && k <= |rest| && Normal(rest[..k], c.coltype))
    && (inlinePrimaryKey <==> Stands(rest, "primary", "key"))
    && (c.nullable <==> !Stands(rest, "not", "null") && !Stands(rest, "primary", "key"))
    && c.raw == "`" + c.name + "` " + rest
  }

  lemma {:induction false} RestSays(rest: string, k: nat, c: ColumnDef, primaryKey: bool, notNull: bool)
    requires TypeText(rest, k) && k <= |rest| && c.coltype == NormalizeType(rest[..k])
    requires primaryKey <==> Stands(rest, "primary", "key")
    requires notNull <==> Stands(rest, "not", "null")
    requires c.nullable == (!notNull && !primaryKey) && c.raw == "`" + c.name + "` " + rest
    ensures SaysRest(rest, c, primaryKey)
  {
    TypeNormal(rest, k);
  }

  lemma {:induction false} RestRead(name: string, rest: string, primaryKey: bool, notNull: bool)
    requires primaryKey == HasPhrase(rest, "primary", "key") && notNull == HasPhrase(rest, "not", "null")
    requires TypeLength(rest) > 0
    ensures ReadRest(name, rest) ==
      Some(ColumnPart(ColumnDef(name, NormalizeType(rest[..TypeLength(rest)]), !notNull && !primaryKey,
                                "`" + name + "` " + rest), primaryKey))
  {
  }

  lemma {:induction false} Phrases(rest: string) returns (primaryKey: bool, notNull: bool)
    ensures primaryKey == HasPhrase(rest, "primary", "key") && notNull == HasPhrase(rest, "not", "null")
    ensures primaryKey <==> Stands(rest, "primary", "key")
    ensures notNull <==> Stands(rest, "not", "null")
  {
    StandsExact(rest, "primary", "key");
    StandsExact(rest, "not", "null");
    primaryKey, notNull := HasPhrase(rest, "primary", "key"), HasPhrase(rest, "not", "null");
  }

  lemma {:induction false} RestFound(name: string, rest: string) returns (c: ColumnDef, primaryKey: bool)
    requires TypeLength(rest) > 0
    ensures ReadRest(name, rest) == Some(ColumnPart(c, primaryKey)) && c.name == name && SaysRest(rest, c, primaryKey)
  {
    TypeExact(rest);
    var k, notNull := TypeLength(rest), false;
    primaryKey, notNull := Phrases(rest);
    c := ColumnDef(name, NormalizeType(rest[..k]), !notNull && !primaryKey, "`" + name + "` " + rest);
    RestRead(name, rest, primaryKey, notNull);
    RestSays(rest, k, c, primaryKey, notNull);
  }

  lemma {:induction false} RestExact(name: string, rest: string)
    ensures var r := ReadRest(name, rest);
      && (r.Some? ==> && r.value.ColumnPart? && r.value.column.name == name
                      && SaysRest(rest, r.value.column, r.value.inlinePrimaryKey))
      && (r.None? ==> forall k: nat :: !TypeText(rest, k))
  {
    if TypeLength(rest) > 0 {
      var c, primaryKey := RestFound(name, rest);
    } else {
      TypeExact(rest);
    }
  }

  /** The part defines this column. */
  ghost predicate SaysColumn(p: string, c: ColumnDef, inlinePrimaryKey: bool) {
    exists rest :: DefinitionText(p, c.name, rest) && SaysRest(rest, c, inlinePrimaryKey)
  }

  ghost predicate ColumnClause(p: string) {
    exists name, rest, k: nat :: DefinitionText(p, name, rest) && TypeText(rest, k)
  }

  lemma {:induction false} ColumnExact(p: string)
    ensures var r := ParseColumnDefinition(p);
      && (r.Some? ==> r.value.ColumnPart? && SaysColumn(p, r.value.column, r.value.inlinePrimaryKey))
      && (r.Some? <==> ColumnClause(p))
  {
    if ParseColumnDefinition(p).Some? {
      DefinitionFound(p);
      var name := NameAt(p, 0).value.text;
      var rest :| DefinitionText(p, name, rest) && ParseColumnDefinition(p) == ReadRest(name, rest);
      RestExact(name, rest);
    }
    if ColumnClause(p) {
      var name, rest, k: nat :| DefinitionText(p, name, rest) && TypeText(rest, k);
      DefinitionReadsAs(p, name, rest);
      RestExact(name, rest);
    }
  }

  // --- parts ---------------------------------------------------------------

  /** CONSTRAINT, CHECK or FOREIGN KEY in front, as whole words. */
  ghost predicate SkippedClause(p: string) {
    exists l: nat :: (Word(p, 0, l, "constraint") || Word(p, 0, l, "check") || TwoWords(p, 0, l, "foreign", "key"))
      && (l == |p| || !NameChar(p[l]))
  }

  lemma {:induction false} SkippedWord(p: string, word: string)
    requires word in {"constraint", "check"} && WordAt(p, 0, word) && WordEndsAt(p, |word|)
    ensures SkippedClause(p)
  {
    WordExact(p, 0, word);
  }

  lemma {:induction false} SkippedPhrase(p: string, l: nat)
    requires PhraseAt(p, 0, "foreign", "key") == Some(l) && WordEndsAt(p, l)
    ensures SkippedClause(p)
  {
    PhraseSplits(p, 0, "foreign", "key");
  }

  lemma {:induction false} SkippedFound(p: string)
    requires IsSkippedClause(p)
    ensures SkippedClause(p)
  {
    if WordAt(p, 0, "constraint") && WordEndsAt(p, 10) {
      SkippedWord(p, "constraint");
    } else if WordAt(p, 0, "check") && WordEndsAt(p, 5) {
      SkippedWord(p, "check");
    } else {
      SkippedPhrase(p, PhraseAt(p, 0, "foreign", "key").value);
    }
  }

  lemma {:induction false} WordSkips(p: string, word: string, l: nat)
    requires word in {"constraint", "check"} && Word(p, 0, l, word) && (l == |p| || !NameChar(p[l]))
    ensures IsSkippedClause(p)
  {
    WordExact(p, 0, word);
  }

  lemma {:induction false} PhraseSkips(p: string, l: nat)
    requires TwoWords(p, 0, l, "foreign", "key") && (l >= |p| || !NameChar(p[l]))
    ensures IsSkippedClause(p)
  {
    TwoWordsRead(p, 0, l, "foreign", "key");
  }

  lemma {:induction false} SkippedReads(p: string)
    requires SkippedClause(p)
    ensures IsSkippedClause(p)
  {
    var l: nat :| (Word(p, 0, l, "constraint") || Word(p, 0, l, "check") || TwoWords(p, 0, l, "foreign", "key"))
      && (l == |p| || !NameChar(p[l]));
    if Word(p, 0, l, "constraint") {
      WordSkips(p, "constraint", l);
    } else if Word(p, 0, l, "check") {
      WordSkips(p, "check", l);
    } else {
      PhraseSkips(p, l);
    }
  }

  lemma {:induction false} SkippedExact(p: string)
    ensures IsSkippedClause(p) <==> SkippedClause(p)
  {
    if IsSkippedClause(p) {
      SkippedFound(p);
    } else if SkippedClause(p) {
      SkippedReads(p);
    }
  }

  lemma {:induction false} ReadsInOrder(p: string)
    ensures var index, column := ParseIndexDefinition(p), ParseColumnDefinition(p);
      ReadPart(p) == if index.Some? then IndexPart(index.value)
                     else if IsSkippedClause(p) || column.None? then IgnoredPart else column.value
  {
  }

  /**
   * Every part is read as what it says: an index if it begins like one, else nothing if it is a
   * skipped clause, else a column if it is a name and a type, and nothing otherwise.
   */
  lemma {:induction false} PartReadExactly(p: string)
    ensures ReadPart(p).IndexPart? <==> IndexClause(p)
    ensures ReadPart(p).IndexPart? ==> SaysIndex(p, ReadPart(p).index)
    ensures ReadPart(p).ColumnPart? <==> !IndexClause(p) && !SkippedClause(p) && ColumnClause(p)
    ensures ReadPart(p).ColumnPart? ==> SaysColumn(p, ReadPart(p).column, ReadPart(p).inlinePrimaryKey)
  {
    ReadsInOrder(p);
    IndexExact(p);
    SkippedExact(p);
    ColumnExact(p);
  }

  // --- the statement -------------------------------------------------------

  ghost predicate WordsAndGap(s: string, i: nat, k: nat, first: string, second: string) {
    exists l: nat :: TwoWords(s, i, l, first, second) && Gap(s, l, k)
  }

  ghost predicate WordAndGap(s: string, i: nat, k: nat, word: string) {
    exists l: nat :: Word(s, i, l, word) && Gap(s, l, k)
  }

  ghost predicate AfterCreate(s: string, k: nat) { WordsAndGap(s, 0, k, "create", "table") }

  ghost predicate IfNotExists(s: string, h: nat, k: nat) {
    exists g: nat :: WordsAndGap(s, h, g, "if", "not") && WordAndGap(s, g, k, "exists")
  }

  ghost predicate AfterIfNotExists(s: string, k: nat) {
    exists h: nat :: AfterCreate(s, h) && IfNotExists(s, h, k)
  }

  /** A name between optional quote marks, and the open paren at `o`, before which may be white space. */
  ghost predicate TableName(s: string, k: nat, name: string, o: nat) {
    exists a: nat, b: nat, c: nat ::
      MaybeQuote(s, k, a) && Ident(s, a, b) && a < b && name == s[a..b] && MaybeQuote(s, b, c) && MaybeGap(s, c, o)
      && Mark(s, o, '(')
  }

  /** CREATE TABLE, IF NOT EXISTS if need be, the name, and the open paren at `o`. */
  ghost predicate HeaderText(s: string, name: string, o: nat) {
    exists k: nat :: (AfterCreate(s, k) || AfterIfNotExists(s, k)) && TableName(s, k, name, o)
  }

  lemma {:induction false} TableNameReads(s: string, k: nat, a: nat, b: nat, c: nat, o: nat)
    requires MaybeQuote(s, k, a) && Ident(s, a, b) && a < b && MaybeQuote(s, b, c)
    requires MaybeGap(s, c, o) && Mark(s, o, '(')
    ensures NameThenParen(s, k) == Some(Header(s[a..b], o))
  {
    GapStart(s, c, o);
    NotWord(s[k]);
    NotWord(s[b]);
    assert QuoteEnd(s, k) == a;
    IdentEnds(s, a, b);
    assert QuoteEnd(s, b) == c;
  }

  lemma {:induction false} TableNameCuts(s: string, k: nat, name: string, o: nat)
    requires k <= |s| && NameThenParen(s, k) == Some(Header(name, o))
    ensures TableName(s, k, name, o)
  {
    var a := QuoteEnd(s, k);
    var b := WordCharsEnd(s, a);
    var c := QuoteEnd(s, b);
    QuoteCut(s, k);
    QuoteCut(s, b);
    Skipped(s, c);
    assert Ident(s, a, b) && MaybeGap(s, c, o) && Mark(s, o, '(');
  }

  lemma {:induction false} TableNameExact(s: string, k: nat)
    requires k <= |s|
    ensures forall name, o: nat :: TableName(s, k, name, o) <==> NameThenParen(s, k) == Some(Header(name, o))
  {
    forall name, o: nat ensures TableName(s, k, name, o) <==> NameThenParen(s, k) == Some(Header(name, o)) {
      if TableName(s, k, name, o) {
        var a: nat, b: nat, c: nat :|
          MaybeQuote(s, k, a) && Ident(s, a, b) && a < b && name == s[a..b] && MaybeQuote(s, b, c)
          && MaybeGap(s, c, o) && Mark(s, o, '(');
        TableNameReads(s, k, a, b, c, o);
      }
      if NameThenParen(s, k) == Some(Header(name, o)) {
        TableNameCuts(s, k, name, o);
      }
    }
  }

  lemma {:induction false} TwoWordsStart(s: string, i: nat, l: nat, first: string, second: string)
    requires TwoWords(s, i, l, first, second) && IsKeyword(first) && IsKeyword(second)
    ensures i < |s| && IsLetter(s[i]) && !IsSpace(s[i])
  {
    var j: nat, k: nat :| Word(s, i, j, first) && Gap(s, j, k) && Word(s, k, l, second);
    WordStart(s, i, j, first);
  }

  lemma {:induction false} WordsAndGapRead(s: string, i: nat, k: nat, first: string, second: string) returns (l: nat)
    requires WordsAndGap(s, i, k, first, second) && IsKeyword(first) && IsKeyword(second) && k < |s| && !IsSpace(s[k])
    ensures i < |s| && !IsSpace(s[i]) && l <= |s|
    ensures PhraseAt(s, i, first, second) == Some(l) && SpacesAfter(s, l) == Some(k)
  {
    l :| TwoWords(s, i, l, first, second) && Gap(s, l, k);
    TwoWordsStart(s, i, l, first, second);
    TwoWordsRead(s, i, l, first, second);
    GapReads(s, l, k);
  }

  lemma {:induction false} WordsAndGapFound(s: string, i: nat, first: string, second: string)
    requires i <= |s| && IsKeyword(first) && IsKeyword(second) && PhraseAt(s, i, first, second).Some?
    requires SpacesAfter(s, PhraseAt(s, i, first, second).value).Some?
    ensures WordsAndGap(s, i, SpacesAfter(s, PhraseAt(s, i, first, second).value).value, first, second)
  {
    PhraseSplits(s, i, first, second);
    Skipped(s, PhraseAt(s, i, first, second).value);
  }

  lemma {:induction false} WordAndGapRead(s: string, i: nat, k: nat, word: string)
    requires WordAndGap(s, i, k, word) && IsKeyword(word) && k < |s| && !IsSpace(s[k])
    ensures i < |s| && !IsSpace(s[i]) && WordAt(s, i, word) && SpacesAfter(s, i + |word|) == Some(k)
  {
    var l: nat :| Word(s, i, l, word) && Gap(s, l, k);
    WordExact(s, i, word);
    WordStart(s, i, l, word);
    GapReads(s, l, k);
  }

  lemma {:induction false} WordAndGapFound(s: string, i: nat, word: string)
    requires IsKeyword(word) && WordAt(s, i, word) && SpacesAfter(s, i + |word|).Some?
    ensures WordAndGap(s, i, SpacesAfter(s, i + |word|).value, word)
  {
    WordExact(s, i, word);
    Skipped(s, i + |word|);
  }

  lemma {:induction false} CreateReads(s: string, k: nat)
    requires AfterCreate(s, k) && k < |s| && !IsSpace(s[k])
    ensures CreateEnd(s) == Some(k)
  {
    var l := WordsAndGapRead(s, 0, k, "create", "table");
  }

  lemma {:induction false} CreateFound(s: string)
    requires CreateEnd(s).Some?
    ensures AfterCreate(s, CreateEnd(s).value)
  {
    WordsAndGapFound(s, 0, "create", "table");
  }

  lemma {:induction false} ExistsEndIs(s: string, h: nat, l: nat, g: nat)
    requires h <= |s| && l <= |s| && PhraseAt(s, h, "if", "not") == Some(l) && SpacesAfter(s, l) == Some(g)
    requires WordAt(s, g, "exists")
    ensures ExistsEnd(s, h) == SpacesAfter(s, g + 6)
  {
  }

  lemma {:induction false} ExistsEndFrom(s: string, h: nat) returns (l: nat, g: nat)
    requires h <= |s| && ExistsEnd(s, h).Some?
    ensures l <= |s| && PhraseAt(s, h, "if", "not") == Some(l) && SpacesAfter(s, l) == Some(g)
    ensures WordAt(s, g, "exists") && ExistsEnd(s, h) == SpacesAfter(s, g + 6)
  {
    l := PhraseAt(s, h, "if", "not").value;
    g := SpacesAfter(s, l).value;
  }

  lemma {:induction false} ExistsWordRead(s: string, g: nat, k: nat)
    requires WordAndGap(s, g, k, "exists") && k < |s| && !IsSpace(s[k])
    ensures g < |s| && !IsSpace(s[g]) && WordAt(s, g, "exists") && SpacesAfter(s, g + 6) == Some(k)
  {
    WordAndGapRead(s, g, k, "exists");
  }

  lemma {:induction false} IfNotRead(s: string, h: nat, g: nat) returns (l: nat)
    requires WordsAndGap(s, h, g, "if", "not") && g < |s| && !IsSpace(s[g])
    ensures h < |s| && !IsSpace(s[h]) && l <= |s|
    ensures PhraseAt(s, h, "if", "not") == Some(l) && SpacesAfter(s, l) == Some(g)
  {
    l := WordsAndGapRead(s, h, g, "if", "not");
  }

  lemma {:induction false} ExistsReadsAt(s: string, h: nat, g: nat, k: nat)
    requires WordsAndGap(s, h, g, "if", "not") && WordAndGap(s, g, k, "exists") && k < |s| && !IsSpace(s[k])
    ensures h < |s| && !IsSpace(s[h]) && ExistsEnd(s, h) == Some(k)
  {
    ExistsWordRead(s, g, k);
    var l := IfNotRead(s, h, g);
    ExistsEndIs(s, h, l, g);
  }

  lemma {:induction false} ExistsReads(s: string, h: nat, k: nat)
    requires IfNotExists(s, h, k) && k < |s| && !IsSpace(s[k])
    ensures h < |s| && !IsSpace(s[h]) && ExistsEnd(s, h) == Some(k)
  {
    var g: nat :| WordsAndGap(s, h, g, "if", "not") && WordAndGap(s, g, k, "exists");
    ExistsReadsAt(s, h, g, k);
  }

  lemma {:induction false} ExistsWordFound(s: string, g: nat, k: nat)
    requires WordAt(s, g, "exists") && SpacesAfter(s, g + 6) == Some(k)
    ensures WordAndGap(s, g, k, "exists")
  {
    WordAndGapFound(s, g, "exists");
  }

  lemma {:induction false} IfNotFound(s: string, h: nat, l: nat, g: nat)
    requires h <= |s| && l <= |s| && PhraseAt(s, h, "if", "not") == Some(l) && SpacesAfter(s, l) == Some(g)
    ensures WordsAndGap(s, h, g, "if", "not")
  {
    WordsAndGapFound(s, h, "if", "not");
  }

  lemma {:induction false} ExistsFound(s: string, h: nat)
    requires h <= |s| && ExistsEnd(s, h).Some?
    ensures IfNotExists(s, h, ExistsEnd(s, h).value)
  {
    var l, g := ExistsEndFrom(s, h);
    IfNotFound(s, h, l, g);
    ExistsWordFound(s, g, ExistsEnd(s, h).value);
  }

  lemma {:induction false} TableNameStart(s: string, k: nat, name: string, o: nat)
    requires TableName(s, k, name, o)
    ensures k < |s| && !IsSpace(s[k])
  {
    var a: nat :| MaybeQuote(s, k, a) && a < |s| && IsWordChar(s[a]);
    NotWord(s[a]);
    NotWord(s[k]);
  }

  lemma {:induction false} WordThenWord(s: string, k: nat, j: nat, g: nat)
    requires Ident(s, k, j) && k < j && Gap(s, j, g) && g < |s| && IsLetter(s[g])
    ensures NameThenParen(s, k) == None
  {
    GapSpaces(s, j, g);
    NotWord(s[k]);
    NotWord(s[j]);
    assert QuoteEnd(s, k) == k;
    IdentEnds(s, k, j);
    SkipTo(s, j, g);
  }

  /** The IF of IF NOT is not the name of a table. */
  lemma {:induction false} IfNotIsNoName(s: string, k: nat, l: nat)
    requires TwoWords(s, k, l, "if", "not")
    ensures k <= |s| && NameThenParen(s, k) == None
  {
    var j: nat, g: nat :| Word(s, k, j, "if") && Gap(s, j, g) && Word(s, g, l, "not");
    WordStart(s, k, j, "if");
    WordStart(s, g, l, "not");
    assert s[k..j][1] == s[k + 1];
    WordThenWord(s, k, j, g);
  }

  lemma {:induction false} NoIfNot(s: string, k: nat, name: string, o: nat)
    requires k <= |s| && NameThenParen(s, k) == Some(Header(name, o))
    ensures PhraseAt(s, k, "if", "not").None?
  {
    if PhraseAt(s, k, "if", "not").Some? {
      PhraseSplits(s, k, "if", "not");
      IfNotIsNoName(s, k, PhraseAt(s, k, "if", "not").value);
    }
  }

  lemma {:induction false} StartAfterCreate(s: string, k: nat, name: string, o: nat)
    requires AfterCreate(s, k) && TableName(s, k, name, o)
    ensures NameStart(s) == Some(k)
  {
    TableNameStart(s, k, name, o);
    CreateReads(s, k);
    TableNameExact(s, k);
    NoIfNot(s, k, name, o);
  }

  lemma {:induction false} StartAfterIfNotExists(s: string, k: nat)
    requires AfterIfNotExists(s, k) && k < |s| && !IsSpace(s[k])
    ensures NameStart(s) == Some(k)
  {
    var h: nat :| AfterCreate(s, h) && IfNotExists(s, h, k);
    ExistsReads(s, h, k);
    CreateReads(s, h);
  }

  lemma {:induction false} StartFound(s: string)
    requires NameStart(s).Some?
    ensures AfterCreate(s, NameStart(s).value) || AfterIfNotExists(s, NameStart(s).value)
  {
    CreateFound(s);
    var h := CreateEnd(s).value;
    if ExistsEnd(s, h).Some? {
      ExistsFound(s, h);
    }
  }

  lemma {:induction false} HeaderExact(s: string, name: string, o: nat)
    ensures HeaderText(s, name, o) <==> ParseHeader(s) == Some(Header(name, o))
  {
    if HeaderText(s, name, o) {
      var k: nat :| (AfterCreate(s, k) || AfterIfNotExists(s, k)) && TableName(s, k, name, o);
      TableNameStart(s, k, name, o);
      if AfterCreate(s, k) {
        StartAfterCreate(s, k, name, o);
      } else {
        StartAfterIfNotExists(s, k);
      }
      TableNameExact(s, k);
    }
    if ParseHeader(s) == Some(Header(name, o)) {
      StartFound(s);
      TableNameExact(s, NameStart(s).value);
    }
  }

  /** The piece defines this column. */
  ghost predicate GivesColumn(piece: string, c: ColumnDef) {
    exists p, primaryKey ::
      Trimmed(piece, p) && !IndexClause(p) && !SkippedClause(p) && SaysColumn(p, c, primaryKey)
  }

  /** The piece defines this index, or a column that is the primary key. */
  ghost predicate GivesIndex(piece: string, index: IndexDef) {
    exists p :: Trimmed(piece, p) &&
      if IndexClause(p) then SaysIndex(p, index)
      else !SkippedClause(p) && exists c :: SaysColumn(p, c, true) && index == IndexDef("PRIMARY", [c.name], true)
  }

  lemma {:induction false} SaysColumnRead(p: string, c: ColumnDef, primaryKey: bool)
    requires SaysColumn(p, c, primaryKey)
    ensures ColumnClause(p)
    ensures var r := ParseColumnDefinition(p);
      r.Some? && r.value.ColumnPart? && r.value.inlinePrimaryKey == primaryKey && r.value.column.name == c.name
  {
    var rest :| DefinitionText(p, c.name, rest) && SaysRest(rest, c, primaryKey);
    DefinitionReadsAs(p, c.name, rest);
    RestExact(c.name, rest);
  }

  lemma {:induction false} NothingIsRead()
    ensures ReadPart("") == IgnoredPart
  {
  }

  lemma {:induction false} PieceGivesColumn(piece: string)
    ensures var part := ReadPart(Trim(piece));
      && (part.ColumnPart? ==> GivesColumn(piece, part.column))
      && (!part.ColumnPart? ==> forall c :: !GivesColumn(piece, c))
  {
    var p := Trim(piece);
    TrimmedExact(piece, p);
    PartReadExactly(p);
    forall c | GivesColumn(piece, c) ensures ReadPart(p).ColumnPart? {
      var p', primaryKey :|
        Trimmed(piece, p') && !IndexClause(p') && !SkippedClause(p') && SaysColumn(p', c, primaryKey);
      TrimmedExact(piece, p');
      SaysColumnRead(p, c, primaryKey);
    }
  }

  lemma {:induction false} PieceGivesIndex(piece: string)
    ensures var part := ReadPart(Trim(piece));
      && (part.IndexPart? ==> GivesIndex(piece, part.index))
      && (part.ColumnPart? && part.inlinePrimaryKey ==> GivesIndex(piece, InlinePrimary(part.column)))
      && (!part.IndexPart? && !(part.ColumnPart? && part.inlinePrimaryKey) ==> forall i :: !GivesIndex(piece, i))
  {
    var p := Trim(piece);
    TrimmedExact(piece, p);
    PartReadExactly(p);
    ReadsInOrder(p);
    forall i | GivesIndex(piece, i)
      ensures ReadPart(p).IndexPart? || (ReadPart(p).ColumnPart? && ReadPart(p).inlinePrimaryKey)
    {
      var p' :| Trimmed(piece, p') &&
        if IndexClause(p') then SaysIndex(p', i)
        else !SkippedClause(p') && exists c :: SaysColumn(p', c, true) && i == IndexDef("PRIMARY", [c.name], true);
      TrimmedExact(piece, p');
      if !IndexClause(p) {
        var c :| SaysColumn(p, c, true) && i == IndexDef("PRIMARY", [c.name], true);
        SaysColumnRead(p, c, true);
      }
    }
  }

  lemma {:induction false} PieceAdds(before: Contents, piece: string)
    ensures var part, after := ReadPart(Trim(piece)), AddPart(before, Trim(piece), ReadPart);
      && after.columns == before.columns + (if part.ColumnPart? then [part.column] else [])
      && after.indexes == before.indexes +
           (if part.IndexPart? then [part.index]
            else if part.ColumnPart? && part.inlinePrimaryKey then [InlinePrimary(part.column)] else [])
  {
    NothingIsRead();
  }

  lemma {:induction false} ColumnsPicked(pieces: seq<string>)
    ensures PickedInOrder(pieces, ContentsOf(pieces, ReadPart).columns, GivesColumn)
  {
    if pieces == [] {
      PickNothing(pieces, GivesColumn);
    } else {
      var n := |pieces| - 1;
      var part := ReadPart(Trim(pieces[n]));
      ColumnsPicked(pieces[..n]);
      PieceGivesColumn(pieces[n]);
      PieceAdds(ContentsOf(pieces[..n], ReadPart), pieces[n]);
      if part.ColumnPart? {
        PickOne(pieces[n], part.column, GivesColumn);
      } else {
        PickNothing([pieces[n]], GivesColumn);
      }
      PickBoth(pieces[..n], ContentsOf(pieces[..n], ReadPart).columns, [pieces[n]],
               if part.ColumnPart? then [part.column] else [], GivesColumn);
      SnocSplit(pieces);
    }
  }

  lemma {:induction false} IndexesPicked(pieces: seq<string>)
    ensures PickedInOrder(pieces, ContentsOf(pieces, ReadPart).indexes, GivesIndex)
  {
    if pieces == [] {
      PickNothing(pieces, GivesIndex);
    } else {
      var n := |pieces| - 1;
      var part := ReadPart(Trim(pieces[n]));
      IndexesPicked(pieces[..n]);
      PieceGivesIndex(pieces[n]);
      PieceAdds(ContentsOf(pieces[..n], ReadPart), pieces[n]);
      var given := if part.IndexPart? then [part.index]
                   else if part.ColumnPart? && part.inlinePrimaryKey then [InlinePrimary(part.column)] else [];
      if given == [] {
        PickNothing([pieces[n]], GivesIndex);
      } else {
        PickOne(pieces[n], given[0], GivesIndex);
      }
      PickBoth(pieces[..n], ContentsOf(pieces[..n], ReadPart).indexes, [pieces[n]], given, GivesIndex);
      SnocSplit(pieces);
    }
  }

  /** The statement has a header and, between parens that match, a definition list. */
  ghost predicate TableText(s: string, name: string, o: nat, c: nat) { HeaderText(s, name, o) && Enclosed(s, o, c) }

  /** The columns and indexes are what the pieces of the definition list say, in their order. */
  ghost predicate SaysTable(s: string, t: TableDef, o: nat, c: nat, pieces: seq<string>) {
    && TableText(s, t.name, o, c) && CutAtCommas(s[o + 1..c], pieces)
    && PickedInOrder(pieces, t.columns, GivesColumn) && PickedInOrder(pieces, t.indexes, GivesIndex)
  }

  lemma {:induction false} TextAccepted(s: string, name: string, o: nat, c: nat)
    requires TableText(s, name, o, c)
    ensures ParseHeader(s) == Some(Header(name, o)) && ParenBody(s, o).Some?
  {
    HeaderExact(s, name, o);
    EnclosedExact(s, o);
  }

  lemma {:induction false} EnclosedBody(s: string, o: nat, body: string)
    requires ParenBody(s, o) == Some(body)
    ensures Enclosed(s, o, o + 1 + |body|) && body == s[o + 1..o + 1 + |body|] && WalkParens(body, 0) == Some(0)
  {
    EnclosedExact(s, o);
  }

  lemma {:induction false} TextFound(s: string, h: Header, body: string)
    requires ParseHeader(s) == Some(h) && ParenBody(s, h.openParen) == Some(body)
    ensures var c := h.openParen + 1 + |body|;
      TableText(s, h.name, h.openParen, c) && body == s[h.openParen + 1..c] && WalkParens(body, 0) == Some(0)
  {
    HeaderExact(s, h.name, h.openParen);
    EnclosedBody(s, h.openParen, body);
  }

  lemma {:induction false} AcceptedExactly(s: string)
    ensures CreateTableOf(s).Some? <==> exists name, o: nat, c: nat :: TableText(s, name, o, c)
  {
    if name, o: nat, c: nat :| TableText(s, name, o, c) {
      TextAccepted(s, name, o, c);
    }
    if CreateTableOf(s).Some? {
      var h := ParseHeader(s).value;
      TextFound(s, h, ParenBody(s, h.openParen).value);
    }
  }

  lemma {:induction false} BodyCut(body: string)
    requires WalkParens(body, 0) == Some(0)
    ensures CutAtCommas(body, TopLevelParts(body))
  {
    SplitIsCut(body, "", 0);
    assert "" + body == body;
  }

  /** The pieces of a balanced list, and what they say. */
  lemma {:induction false} ListSays(body: string) returns (pieces: seq<string>)
    requires WalkParens(body, 0) == Some(0)
    ensures pieces == TopLevelParts(body) && CutAtCommas(body, pieces)
    ensures PickedInOrder(pieces, ContentsOf(pieces, ReadPart).columns, GivesColumn)
    ensures PickedInOrder(pieces, ContentsOf(pieces, ReadPart).indexes, GivesIndex)
  {
    pieces := TopLevelParts(body);
    BodyCut(body);
    ColumnsPicked(pieces);
    IndexesPicked(pieces);
  }

  lemma {:induction false} TableSays(s: string, h: Header, body: string) returns (t: TableDef, pieces: seq<string>)
    requires ParseHeader(s) == Some(h) && ParenBody(s, h.openParen) == Some(body) && WalkParens(body, 0) == Some(0)
    ensures CreateTableOf(s) == Some(t) && t.name == h.name && CutAtCommas(body, pieces)
    ensures PickedInOrder(pieces, t.columns, GivesColumn) && PickedInOrder(pieces, t.indexes, GivesIndex)
  {
    RoundTrip.TableFromBody(s, h.name, h.openParen, body);
    pieces := ListSays(body);
    t := CreateTableOf(s).value;
  }

  lemma {:induction false} PiecesSay(s: string, h: Header, body: string) returns (t: TableDef, pieces: seq<string>)
    requires ParseHeader(s) == Some(h) && ParenBody(s, h.openParen) == Some(body)
    ensures CreateTableOf(s) == Some(t) && SaysTable(s, t, h.openParen, h.openParen + 1 + |body|, pieces)
  {
    TextFound(s, h, body);
    t, pieces := TableSays(s, h, body);
  }

  /**
   * A statement is accepted if and only if it has a header and a definition list whose paren is
   * closed. The table then has the name in the header, the columns the pieces of the list
   * define and the indexes they define, in their order, and the statement itself.
   */
  lemma {:induction false} TableReadExactly(s: string)
    ensures CreateTableOf(s).Some? <==> exists name, o: nat, c: nat :: TableText(s, name, o, c)
    ensures CreateTableOf(s).Some? ==>
      exists o: nat, c: nat, pieces :: SaysTable(s, CreateTableOf(s).value, o, c, pieces)
    ensures CreateTableOf(s).Some? ==>
      exists text :: Trimmed(s, text) && CreateTableOf(s).value.rawCreate == Some(text + ";")
  {
    AcceptedExactly(s);
    if CreateTableOf(s).Some? {
      var h := ParseHeader(s).value;
      var t, pieces := PiecesSay(s, h, ParenBody(s, h.openParen).value);
      TrimmedExact(s, Trim(s));
    }
  }

  // --- families of columns -------------------------------------------------

  /** The two definitions of a column of integers that is not null. */
  predicate NotNullText(rest: string) { rest == "INT NOT NULL" || rest == "int primary key" }

  lemma {:induction false} LettersTo(s: string, i: nat, k: nat)
    requires i <= k <= |s| && (forall j :: i <= j < k ==> IsLetter(s[j])) && (k == |s| || !IsLetter(s[k]))
    ensures LettersEnd(s, i) == k
    decreases k - i
  {
    if i < k {
      LettersTo(s, i + 1, k);
    }
  }

  lemma {:induction false} OtherStart(s: string, i: nat, word: string)
    requires i < |s| && word != "" && Lower(s[i]) != word[0]
    ensures !WordAt(s, i, word)
  {
    assert s[i + 0] == s[i];
  }

  lemma {:induction false} OneWordType(rest: string, k: nat)
    requires 0 < k && k + 1 < |rest| && (forall j :: 0 <= j < k ==> IsLetter(rest[j])) && rest[k] == ' '
    requires Lower(rest[k + 1]) in {'n', 'p'}
    ensures TypeLength(rest) == k
  {
    LettersTo(rest, 0, k);
    OtherStart(rest, k + 1, "unsigned");
    OtherStart(rest, k + 1, "zerofill");
    assert SkipSpaces(rest, k + 1) == k + 1;
    assert SkipSpaces(rest, k) == k + 1;
  }

  lemma {:induction false} SmallInt(word: string)
    requires word == "INT" || word == "int"
    ensures NormalizeType(word) == "int"
  {
    TrimIdentity(word);
    assert LowerAll(word) == "int";
    RoundTrip.CollapseNothing("int");
  }

  lemma {:induction false} IntType(rest: string, word: string, more: string)
    requires rest == word + " " + more && word in {"INT", "int"} && more != "" && Lower(more[0]) in {'n', 'p'}
    ensures TypeLength(rest) == 3 && NormalizeType(rest[..3]) == "int"
  {
    assert rest[..3] == word;
    assert rest[3] == ' ' && rest[4] == more[0];
    assert forall j :: 0 <= j < 3 ==> rest[j] == word[j];
    OneWordType(rest, 3);
    SmallInt(word);
  }

  /** A phrase that follows a blank and ends the text. */
  lemma {:induction false} StandsLast(pre: string, a: string, b: string, first: string, second: string)
    requires pre != "" && pre[|pre| - 1] == ' ' && IsKeyword(first) && IsKeyword(second)
    requires SameLetters(a, first) && SameLetters(b, second)
    ensures HasPhrase(pre + a + " " + b, first, second)
  {
    var s, i, j := pre + a + " " + b, |pre|, |pre| + |a|;
    assert s[i..j] == a && s[j..j + 1] == " " && s[j + 1..|s|] == b;
    assert Word(s, i, j, first) && Gap(s, j, j + 1) && Word(s, j + 1, |s|, second);
    assert TwoWords(s, i, |s|, first, second);
    StandsExact(s, first, second);
  }

  lemma {:induction false} NotNullEnds(rest: string)
    requires NotNullText(rest)
    ensures Trim(rest) == rest
  {
    assert !IsSpace(rest[0]) && !IsSpace(rest[|rest| - 1]);
    TrimIdentity(rest);
  }

  lemma {:induction false} NotNullNeutral(rest: string)
    requires NotNullText(rest)
    ensures Neutral(rest)
  {
  }

  lemma {:induction false} NotNullRest(rest: string)
    requires rest == "INT NOT NULL"
    ensures TypeLength(rest) == 3 && NormalizeType(rest[..3]) == "int"
  {
    var word, more := "INT", "NOT NULL";
    assert rest == word + " " + more;
    IntType(rest, word, more);
  }

  lemma {:induction false} NotNullPhrases(rest: string)
    requires rest == "INT NOT NULL"
    ensures !HasPhrase(rest, "primary", "key") && HasPhrase(rest, "not", "null")
  {
    NotThere(rest, "primary", "key");
    var pre, a, b := "INT ", "NOT", "NULL";
    assert rest == pre + a + " " + b;
    StandsLast(pre, a, b, "not", "null");
  }

  lemma {:induction false} PrimaryKeyRest(rest: string)
    requires rest == "int primary key"
    ensures TypeLength(rest) == 3 && NormalizeType(rest[..3]) == "int"
  {
    var word, more := "int", "primary key";
    assert rest == word + " " + more;
    IntType(rest, word, more);
  }

  lemma {:induction false} PrimaryKeyPhrases(rest: string)
    requires rest == "int primary key"
    ensures HasPhrase(rest, "primary", "key") && !HasPhrase(rest, "not", "null")
  {
    NotThere(rest, "not", "null");
    var pre, a, b := "int ", "primary", "key";
    assert rest == pre + a + " " + b;
    StandsLast(pre, a, b, "primary", "key");
  }

  function NotNullColumn(name: string, rest: string): ColumnDef {
    ColumnDef(name, "int", false, "`" + name + "` " + rest)
  }

  /** Every column declared NOT NULL or PRIMARY KEY after its type is read as not null, and as the key it is. */
  lemma {:induction false} NotNullColumnReads(name: string, rest: string)
    requires RoundTrip.IsName(name) && NotNullText(rest)
    ensures ReadPart("`" + name + "` " + rest) == ColumnPart(NotNullColumn(name, rest), rest == "int primary key")
    ensures RoundTrip.Stable(NotNullColumn(name, rest), ReadPart)
  {
    NotNullEnds(rest);
    NotNullNeutral(rest);
    if rest == "INT NOT NULL" {
      NotNullRest(rest);
      NotNullPhrases(rest);
    } else {
      PrimaryKeyRest(rest);
      PrimaryKeyPhrases(rest);
    }
    RoundTrip.ColumnStable(NotNullColumn(name, rest), rest == "int primary key", rest);
  }

  lemma {:induction false} OneInline(c: ColumnDef, primaryKey: bool, read: string -> Part)
    requires read(c.raw) == ColumnPart(c, primaryKey)
    ensures RoundTrip.InlineOf([c], read) == if primaryKey then [IndexDef("PRIMARY", [c.name], true)] else []
  {
    assert [c][..0] == [] && RoundTrip.InlineOf([], read) == [];
  }

  lemma {:induction false} OneStableTable(table: string, c: ColumnDef, primaryKey: bool)
    requires RoundTrip.IsName(table) && RoundTrip.Stable(c, ReadPart) && ReadPart(c.raw) == ColumnPart(c, primaryKey)
    ensures var r := CreateTableOf(BuildCreateStatement(TableDef(table, [c], [], None)));
      && r.Some? && r.value.name == table && r.value.columns == [c]
      && r.value.indexes == if primaryKey then [IndexDef("PRIMARY", [c.name], true)] else []
  {
    OneInline(c, primaryKey, ReadPart);
    RoundTrip.PrintedReads(TableDef(table, [c], [], None));
  }

  /** A table of such columns, printed, reads back, with the key of the column as its index. */
  lemma {:induction false} NotNullTable(table: string, column: string, rest: string)
    requires RoundTrip.IsName(table) && RoundTrip.IsName(column) && NotNullText(rest)
    ensures var r := CreateTableOf(BuildCreateStatement(TableDef(table, [NotNullColumn(column, rest)], [], None)));
      && r.Some? && r.value.name == table && r.value.columns == [NotNullColumn(column, rest)]
      && r.value.indexes == if rest == "int primary key" then [IndexDef("PRIMARY", [column], true)] else []
  {
    NotNullColumnReads(column, rest);
    OneStableTable(table, NotNullColumn(column, rest), rest == "int primary key");
  }
}
