/**
 Qualified names and catalog type texts: the normalized form the drift comparison uses and
 the decode form the start-point fingerprint uses
 (src/dsql_migrator/core/cdc_catalog_drift.py).
 */
module CatalogTypes {
  import opened Wrappers
  import opened Text

  datatype SourceType = MySql | Postgres

  // The schema and table of a qualified name, split on the first dot.
  function SplitQualified(name: string): (r: Option<(string, string)>)
    ensures r.Some? ==> name == r.value.0 + "." + r.value.1 && r.value.0 != "" && r.value.1 != "" && '.' !in r.value.0
  {
    match Partition(name, '.')
    case None => None
    case Some((schema, table)) => if schema == "" || table == "" then None else Some((schema, table))
  }

  // Every name made of a dotless schema and a table splits into them.
  lemma QualifiedNameSplits(schema: string, table: string)
    requires schema != "" && table != "" && '.' !in schema
    ensures SplitQualified(schema + "." + table) == Some((schema, table))
  {
    PartitionOfJoined(schema, '.', table);
  }

  const INT_WORDS := {"tinyint", "smallint", "mediumint", "int", "integer", "bigint", "year"}
  const LENGTH_WORDS := {"char", "varchar", "varbinary"}
  const DECIMAL_WORDS := {"decimal", "numeric"}

  // The length of the longest prefix of digits.
  function DigitRun(s: string): (d: nat)
    ensures d <= |s| && AllDigits(s[..d]) && (d < |s| ==> !IsDigit(s[d]))
  {
    if s == [] || !IsDigit(s[0]) then 0 else
      var d := DigitRun(s[1..]);
      assert s[..d + 1] == [s[0]] + s[1..][..d];
      d + 1
  }

  lemma {:induction false} DigitRunOf(digits: string, rest: string)
    requires AllDigits(digits) && (rest != [] ==> !IsDigit(rest[0]))
    ensures DigitRun(digits + rest) == |digits|
  {
    if digits == [] {
      assert digits + rest == rest;
    } else {
      assert digits[0] in digits;
      assert (digits + rest)[1..] == digits[1..] + rest;
      assert forall c | c in digits[1..] :: c in digits;
      DigitRunOf(digits[1..], rest);
    }
  }

  // A match of ^(word)\((\d+)\): the word, the digits and what follows.
  datatype Sized = Sized(word: string, digits: string, rest: string)

  lemma Around(text: string, c: char, i: nat)
    requires i < |text| && text[i] == c
    ensures text == text[..i] + [c] + text[i + 1..]
  {
  }

  lemma SizedSpells(word: string, digits: string, rest: string)
    ensures word + "(" + (digits + ")" + rest) == word + "(" + digits + ")" + rest
  {
  }

  function MatchSized(words: set<string>, text: string): (m: Option<Sized>)
    ensures m.Some? ==>
              && m.value.word in words && DigitText(m.value.digits)
              && text == m.value.word + "(" + m.value.digits + ")" + m.value.rest
  {
    var p := IndexOf(text, '(');
    if p == |text| || text[..p] !in words then None else
      var tail := text[p + 1..];
      var d := DigitRun(tail);
      if d == 0 || d == |tail| || tail[d] != ')' then None else
        Around(text, '(', p);
        Around(tail, ')', d);
        SizedSpells(text[..p], tail[..d], tail[d + 1..]);
        Some(Sized(text[..p], tail[..d], tail[d + 1..]))
  }

  lemma MatchSizedOf(words: set<string>, word: string, digits: string, rest: string)
    requires word in words && '(' !in word && DigitText(digits)
    ensures MatchSized(words, word + "(" + digits + ")" + rest) == Some(Sized(word, digits, rest))
  {
    var text := word + "(" + digits + ")" + rest;
    assert text[..|word|] == word;
    IndexOfAt(text, '(', |word|);
    var tail := text[|word| + 1..];
    assert tail == digits + (")" + rest);
    DigitRunOf(digits, ")" + rest);
    assert tail[..|digits|] == digits && tail[|digits| + 1..] == rest;
  }

  predicate IsIdentStart(c: char) { 'A' <= c <= 'Z' || 'a' <= c <= 'z' || c == '_' }

  predicate IsIdent(c: char) { IsIdentStart(c) || IsDigit(c) || c == '$' }

  function IdentRun(s: string): (d: nat)
    ensures d <= |s| && (forall c | c in s[..d] :: IsIdent(c)) && (d < |s| ==> !IsIdent(s[d]))
  {
    if s == [] || !IsIdent(s[0]) then 0 else
      var d := IdentRun(s[1..]);
      assert s[..d + 1] == [s[0]] + s[1..][..d];
      d + 1
  }

  // The text after one leading PostgreSQL schema qualifier: an identifier or a non-empty
  // double-quoted name, then a dot.
  function DropQualifier(text: string): string {
    if text == [] then text
    else if IsIdentStart(text[0]) then
      var d := IdentRun(text);
      if d < |text| && text[d] == '.' then text[d + 1..] else text
    else if text[0] == '"' then
      var q := IndexOf(text[1..], '"');
      if 0 < q && q + 2 < |text| && text[q + 2] == '.' then text[q + 3..] else text
    else text
  }

  // An integer display width is cosmetic, except tinyint(1), the boolean convention.
  function DropWidth(text: string): string {
    match MatchSized(INT_WORDS, text)
    case Some(m) => if m.word == "tinyint" && m.digits == "1" then text else m.word + m.rest
    case None => text
  }

  function NormalizedType(value: string, source: SourceType): string {
    if source.Postgres? then DropQualifier(Strip(value)) else DropWidth(Strip(value))
  }

  predicate SameType(before: string, after: string, source: SourceType) {
    Strip(before) == Strip(after) || NormalizedType(before, source) == NormalizedType(after, source)
  }

  // The kernel of NormalizedType, hence an equivalence.
  lemma SameTypeIsKernel(source: SourceType)
    ensures forall a, b :: SameType(a, b, source) <==> NormalizedType(a, source) == NormalizedType(b, source)
    ensures forall a, b, c :: SameType(a, b, source) && SameType(b, c, source) ==> SameType(a, c, source)
  {
  }

  lemma IntWordFacts(word: string)
    requires word in INT_WORDS
    ensures |word| >= 3 && '(' !in word && !IsSpace(word[0])
  {
  }

  lemma DecimalWordFacts(word: string)
    requires word in DECIMAL_WORDS
    ensures |word| >= 3 && '(' !in word && !IsSpace(word[0])
    ensures word !in INT_WORDS && word !in LENGTH_WORDS
  {
  }

  // The text of a sized type is trimmed, and its parts are found again.
  lemma SizedText(words: set<string>, word: string, digits: string, rest: string)
    requires word in words && word != [] && '(' !in word && !IsSpace(word[0]) && DigitText(digits)
    requires rest == [] || !IsSpace(rest[|rest| - 1])
    ensures Strip(word + "(" + digits + ")" + rest) == word + "(" + digits + ")" + rest
    ensures MatchSized(words, word + "(" + digits + ")" + rest) == Some(Sized(word, digits, rest))
  {
    var t := word + "(" + digits + ")" + rest;
    assert t[0] == word[0];
    assert t[|t| - 1] == if rest == [] then ')' else rest[|rest| - 1];
    StripTrimmed(t);
    MatchSizedOf(words, word, digits, rest);
  }

  // Every integer width but tinyint(1) is dropped, whatever follows it.
  lemma WidthIsCosmetic(word: string, d1: string, d2: string, rest: string)
    requires word in INT_WORDS && DigitText(d1) && DigitText(d2)
    requires rest == [] || !IsSpace(rest[|rest| - 1])
    ensures SameType(word + "(" + d1 + ")" + rest, word + "(" + d2 + ")" + rest, MySql)
      <==> (word != "tinyint" || (d1 == "1" <==> d2 == "1"))
  {
    hide MatchSized;
    IntWordFacts(word);
    SizedText(INT_WORDS, word, d1, rest);
    SizedText(INT_WORDS, word, d2, rest);
    assert |word + "(" + d1 + ")" + rest| > |word + rest|;
    assert |word + "(" + d2 + ")" + rest| > |word + rest|;
    var t1, t2 := word + "(" + d1 + ")" + rest, word + "(" + d2 + ")" + rest;
    assert t1 == t2 ==> MatchSized(INT_WORDS, t1) == MatchSized(INT_WORDS, t2);
  }

  // ---- the decode form ----

  datatype Scaled = Scaled(word: string, scale: string, rest: string)

  // A match of ^(decimal|numeric)\(\d+(?:,(\d+))?\), with "0" for an absent scale.
  function MatchDecimal(text: string): Option<Scaled> {
    var p := IndexOf(text, '(');
    if p == |text| || text[..p] !in DECIMAL_WORDS then None else AfterWord(text[..p], text[p + 1..])
  }

  function AfterWord(word: string, tail: string): Option<Scaled> {
    var d := DigitRun(tail);
    if d == 0 || d == |tail| then None
    else if tail[d] == ')' then Some(Scaled(word, "0", tail[d + 1..]))
    else if tail[d] != ',' then None
    else AfterComma(word, tail[d + 1..])
  }

  function AfterComma(word: string, frac: string): Option<Scaled> {
    var e := DigitRun(frac);
    if e == 0 || e == |frac| || frac[e] != ')' then None else Some(Scaled(word, frac[..e], frac[e + 1..]))
  }

  function DecodeNormalized(text: string): string {
    match MatchSized(LENGTH_WORDS, text)
    case Some(m) => m.word + m.rest
    case None =>
      match MatchDecimal(text)
      case Some(m) => m.word + "(," + m.scale + ")" + m.rest
      case None => text
  }

  function DecodeType(value: string): string {
    DecodeNormalized(NormalizedType(value, MySql))
  }

  // Types the drift comparison takes as one decode the same.
  lemma SameTypeRefinesDecode(a: string, b: string)
    requires SameType(a, b, MySql)
    ensures DecodeType(a) == DecodeType(b)
  {
    SameTypeIsKernel(MySql);
  }

  // A string length, which the drift comparison reports, decodes the same: the refinement
  // is strict.
  lemma LengthDecodesTheSame(word: string, d1: string, d2: string, rest: string)
    requires word in LENGTH_WORDS && DigitText(d1) && DigitText(d2)
    requires rest == [] || !IsSpace(rest[|rest| - 1])
    ensures DecodeType(word + "(" + d1 + ")" + rest) == DecodeType(word + "(" + d2 + ")" + rest)
    ensures SameType(word + "(" + d1 + ")" + rest, word + "(" + d2 + ")" + rest, MySql) <==> d1 == d2
  {
    LengthDecodes(word, d1, rest);
    LengthDecodes(word, d2, rest);
    var t1, t2 := word + "(" + d1 + ")" + rest, word + "(" + d2 + ")" + rest;
    assert t1 == t2 ==> MatchSized(LENGTH_WORDS, t1) == MatchSized(LENGTH_WORDS, t2);
  }

  lemma LengthDecodes(word: string, digits: string, rest: string)
    requires word in LENGTH_WORDS && DigitText(digits)
    requires rest == [] || !IsSpace(rest[|rest| - 1])
    ensures var t := word + "(" + digits + ")" + rest;
            && Strip(t) == NormalizedType(t, MySql) == t && DecodeType(t) == word + rest
            && MatchSized(LENGTH_WORDS, t) == Some(Sized(word, digits, rest))
  {
    hide MatchSized;
    LengthWordFacts(word);
    SizedText(LENGTH_WORDS, word, digits, rest);
    NotSized(INT_WORDS, word, digits + ")" + rest);
    assert word + "(" + digits + ")" + rest == word + "(" + (digits + ")" + rest);
  }

  lemma LengthWordFacts(word: string)
    requires word in LENGTH_WORDS
    ensures |word| >= 3 && '(' !in word && !IsSpace(word[0])
    ensures word !in INT_WORDS
  {
  }

  lemma NotSized(words: set<string>, word: string, tail: string)
    requires word !in words && '(' !in word
    ensures MatchSized(words, word + "(" + tail).None?
  {
    var t := word + "(" + tail;
    assert t[..|word|] == word;
    IndexOfAt(t, '(', |word|);
  }

  // A DECIMAL precision is left out, its scale is kept.
  lemma DecimalKeepsScale(word: string, p1: string, p2: string, s1: string, s2: string)
    requires word in DECIMAL_WORDS
    requires DigitText(p1) && DigitText(p2) && DigitText(s1) && DigitText(s2)
    ensures DecodeType(word + "(" + p1 + "," + s1 + ")") == DecodeType(word + "(" + p2 + "," + s2 + ")") <==> s1 == s2
  {
    hide *;
    DecimalDecodes(word, p1, s1);
    DecimalDecodes(word, p2, s2);
    BetweenIsInjective(word + "(,", s1, s2);
  }

  lemma BetweenIsInjective(head: string, s1: string, s2: string)
    ensures head + s1 + ")" == head + s2 + ")" <==> s1 == s2
  {
    assert (head + s1 + ")")[|head|..|head| + |s1|] == s1;
    assert |s1| == |s2| ==> (head + s2 + ")")[|head|..|head| + |s1|] == s2;
  }

  lemma DecimalDecodes(word: string, p: string, s: string)
    requires word in DECIMAL_WORDS && DigitText(p) && DigitText(s)
    ensures DecodeType(word + "(" + p + "," + s + ")") == word + "(," + s + ")"
  {
    DecimalTrimmed(word, p, s);
    DecimalWordFacts(word);
    hide *;
    var t := word + "(" + p + "," + s + ")";
    var tail := p + "," + s + ")";
    assert t == word + "(" + tail;
    NotSized(INT_WORDS, word, tail);
    NotSized(LENGTH_WORDS, word, tail);
    MatchDecimalScaled(word, p, s, "");
    assert t + "" == t;
    DecimalUnfolds(t, Scaled(word, s, ""));
    assert word + "(," + s + ")" + "" == word + "(," + s + ")";
  }

  lemma DecimalTrimmed(word: string, p: string, s: string)
    requires word in DECIMAL_WORDS
    ensures Strip(word + "(" + p + "," + s + ")") == word + "(" + p + "," + s + ")"
  {
    var t := word + "(" + p + "," + s + ")";
    DecimalWordFacts(word);
    assert t[0] == word[0] && t[|t| - 1] == ')';
    StripTrimmed(t);
  }

  lemma DecimalUnfolds(t: string, m: Scaled)
    requires Strip(t) == t && MatchSized(INT_WORDS, t).None? && MatchSized(LENGTH_WORDS, t).None? && MatchDecimal(t) == Some(m)
    ensures DecodeType(t) == m.word + "(," + m.scale + ")" + m.rest
  {
    hide Strip, MatchSized, MatchDecimal;
  }

  // ---- what the two forms are, text by text ----

  // An identifier, or a non-empty name in double quotes.
  predicate Qualifier(q: string) {
    || (q != [] && IsIdentStart(q[0]) && forall c | c in q :: IsIdent(c))
    || (|q| > 2 && q[0] == '"' && q[|q| - 1] == '"' && '"' !in q[1..|q| - 1])
  }

  // Letters, digits, underscores and dollar signs, no digit or dollar first; anything in quotes.
  lemma QualifiersAre()
    ensures Qualifier("public") && Qualifier("_App$1") && Qualifier("\"My schema\"")
    ensures !Qualifier("") && !Qualifier("1a") && !Qualifier("$a") && !Qualifier("a-b") && !Qualifier("a b") && !Qualifier("\"\"")
  {
    assert '-' in "a-b" && ' ' in "a b";
    assert forall c | c in "public" :: IsIdent(c);
    assert forall c | c in "_App$1" :: IsIdent(c);
  }

  // The text without its leading qualifier and dot, or the text when it has none.
  ghost predicate Unqualified(text: string, u: string) {
    || (exists q :: Qualifier(q) && text == q + "." + u)
    || (u == text && forall q, t :: text == q + "." + t ==> !Qualifier(q))
  }

  lemma QualifierDropped(q: string, t: string)
    requires Qualifier(q)
    ensures DropQualifier(q + "." + t) == t
  {
    var text := q + "." + t;
    assert text[0] == q[0] && text[|q|] == '.' && text[|q| + 1..] == t;
    if IsIdentStart(q[0]) {
      IdentRunOf(q, "." + t);
      assert text == q + ("." + t);
    } else {
      var inner := q[1..|q| - 1];
      assert text[1..] == inner + ['"'] + ("." + t);
      assert text[1..][..|inner|] == inner;
      IndexOfAt(text[1..], '"', |inner|);
    }
  }

  lemma {:induction false} IdentRunOf(q: string, rest: string)
    requires (forall c | c in q :: IsIdent(c)) && (rest != [] ==> !IsIdent(rest[0]))
    ensures IdentRun(q + rest) == |q|
  {
    if q == [] {
      assert q + rest == rest;
    } else {
      assert q[0] in q && (q + rest)[1..] == q[1..] + rest;
      assert forall c | c in q[1..] :: c in q;
      IdentRunOf(q[1..], rest);
    }
  }

  // What is dropped, when anything is, is a qualifier and a dot.
  lemma DroppedIsQualifier(text: string)
    ensures DropQualifier(text) == text || exists q :: Qualifier(q) && text == q + "." + DropQualifier(text)
  {
    if DropQualifier(text) != text {
      if IsIdentStart(text[0]) {
        var d := IdentRun(text);
        assert d > 0 && text[..d][0] == text[0];
        Around(text, '.', d);
        assert Qualifier(text[..d]);
      } else {
        var n := IndexOf(text[1..], '"');
        assert text[..n + 2][1..n + 1] == text[1..][..n] && text[n + 1] == '"';
        assert Qualifier(text[..n + 2]);
        Around(text, '.', n + 2);
      }
    }
  }

  lemma UnqualifiedIs(text: string, u: string)
    ensures Unqualified(text, u) <==> DropQualifier(text) == u
  {
    hide DropQualifier, Qualifier;
    DroppedIsQualifier(text);
    forall q, t | Qualifier(q) && text == q + "." + t ensures DropQualifier(text) == t && t != text {
      QualifierDropped(q, t);
      assert |q + "." + t| > |t|;
    }
  }

  // On PostgreSQL two types are the same exactly when their trimmed texts, each without its
  // leading qualifier if it has one, are one text.
  lemma SameTypePostgresExactly(a: string, b: string)
    ensures SameType(a, b, Postgres) <==> exists u :: Unqualified(Strip(a), u) && Unqualified(Strip(b), u)
  {
    hide DropQualifier, Unqualified, Strip;
    var u, v := DropQualifier(Strip(a)), DropQualifier(Strip(b));
    UnqualifiedIs(Strip(a), u);
    UnqualifiedIs(Strip(b), u);
    if w :| Unqualified(Strip(a), w) && Unqualified(Strip(b), w) {
      UnqualifiedIs(Strip(a), w);
      UnqualifiedIs(Strip(b), w);
    }
  }

  lemma NoDotNoQualifier(t: string)
    requires '.' !in t
    ensures Unqualified(t, t)
  {
    hide Qualifier;
    forall q, u ensures t != q + "." + u { assert (q + "." + u)[|q|] == '.'; }
  }

  // Unqualified types are compared as they are written.
  lemma PlainPostgresTypes(a: string, b: string)
    requires Trimmed(a) && Trimmed(b) && '.' !in a && '.' !in b
    ensures SameType(a, b, Postgres) <==> a == b
  {
    StripTrimmed(a);
    StripTrimmed(b);
    NoDotNoQualifier(a);
    NoDotNoQualifier(b);
    hide DropQualifier, Unqualified, Strip;
    UnqualifiedIs(a, a);
    UnqualifiedIs(b, b);
  }

  // A schema qualifier, plain or quoted, plays no part.
  lemma QualifierIsCosmetic(q: string, t: string)
    requires Qualifier(q) && Trimmed(t) && '.' !in t
    ensures SameType(q + "." + t, t, Postgres)
  {
    var text := q + "." + t;
    assert text[0] == q[0] && text[|text| - 1] == if t == [] then '.' else t[|t| - 1];
    StripTrimmed(text);
    StripTrimmed(t);
    QualifierDropped(q, t);
    NoDotNoQualifier(t);
    hide DropQualifier, Unqualified, Strip;
    UnqualifiedIs(t, t);
  }

  // word(digits)rest
  predicate SizedAs(words: set<string>, text: string, word: string, digits: string, rest: string) {
    word in words && DigitText(digits) && text == word + "(" + digits + ")" + rest
  }

  predicate HasWidth(text: string, word: string, digits: string, rest: string) {
    SizedAs(INT_WORDS, text, word, digits, rest) && !(word == "tinyint" && digits == "1")
  }

  // The text without its cosmetic width, or the text when it has none.
  ghost predicate Widthless(text: string, u: string) {
    || (exists word, digits, rest :: HasWidth(text, word, digits, rest) && u == word + rest)
    || (u == text && forall word, digits, rest :: !HasWidth(text, word, digits, rest))
  }

  lemma WidthlessIs(text: string, u: string)
    ensures Widthless(text, u) <==> DropWidth(text) == u
  {
    hide MatchSized;
    forall word, digits, rest | SizedAs(INT_WORDS, text, word, digits, rest)
      ensures MatchSized(INT_WORDS, text) == Some(Sized(word, digits, rest))
    {
      IntWordFacts(word);
      MatchSizedOf(INT_WORDS, word, digits, rest);
    }
    match MatchSized(INT_WORDS, text)
    case Some(m) =>
      assert SizedAs(INT_WORDS, text, m.word, m.digits, m.rest);
      assert HasWidth(text, m.word, m.digits, m.rest) <==> !(m.word == "tinyint" && m.digits == "1");
    case None =>
  }

  // On MySQL two types are the same exactly when their trimmed texts, each without its cosmetic
  // width if it has one, are one text.
  lemma SameTypeMySqlExactly(a: string, b: string)
    ensures SameType(a, b, MySql) <==> exists u :: Widthless(Strip(a), u) && Widthless(Strip(b), u)
  {
    hide DropWidth, Widthless, Strip;
    var u, v := DropWidth(Strip(a)), DropWidth(Strip(b));
    WidthlessIs(Strip(a), u);
    WidthlessIs(Strip(b), u);
    if w :| Widthless(Strip(a), w) && Widthless(Strip(b), w) {
      WidthlessIs(Strip(a), w);
      WidthlessIs(Strip(b), w);
    }
  }

  // A decimal with or without a scale, "0" standing for an absent one.
  ghost predicate ScaledAs(text: string, word: string, scale: string, rest: string) {
    && word in DECIMAL_WORDS
    && exists p :: DigitText(p) && ((DigitText(scale) && text == word + "(" + p + "," + scale + ")" + rest)
                                    || (scale == "0" && text == word + "(" + p + ")" + rest))
  }

  // The text without its string length or its decimal precision, or the text itself.
  ghost predicate Reduced(text: string, u: string) {
    || (exists word, digits, rest :: SizedAs(LENGTH_WORDS, text, word, digits, rest) && u == word + rest)
    || (exists word, scale, rest :: ScaledAs(text, word, scale, rest) && u == word + "(," + scale + ")" + rest)
    || (u == text && (forall word, digits, rest :: !SizedAs(LENGTH_WORDS, text, word, digits, rest))
        && forall word, scale, rest :: !ScaledAs(text, word, scale, rest))
  }

  lemma DecimalSpells(word: string, p: string, scale: string, rest: string)
    ensures word + "(" + p + "," + scale + ")" + rest == word + ("(" + (p + ("," + (scale + (")" + rest)))))
    ensures word + "(" + p + ")" + rest == word + ("(" + (p + (")" + rest)))
  {
  }

  lemma MatchDecimalScaled(word: string, p: string, scale: string, rest: string)
    requires word in DECIMAL_WORDS && DigitText(p) && DigitText(scale)
    ensures MatchDecimal(word + "(" + p + "," + scale + ")" + rest) == Some(Scaled(word, scale, rest))
  {
    hide *;
    DecimalSpells(word, p, scale, rest);
    var frac := scale + (")" + rest);
    MatchDecimalAfter(word, p + ("," + frac));
    AfterWordOf(word, p, frac);
    AfterCommaOf(word, scale, rest);
  }

  lemma MatchDecimalAfter(word: string, tail: string)
    requires word in DECIMAL_WORDS
    ensures MatchDecimal(word + ("(" + tail)) == AfterWord(word, tail)
  {
    hide AfterWord, IndexOf;
    DecimalWordFacts(word);
    var text := word + ("(" + tail);
    assert text[..|word|] == word && text[|word|] == '(' && text[|word| + 1..] == tail;
    IndexOfAt(text, '(', |word|);
  }

  lemma AfterWordOf(word: string, p: string, frac: string)
    requires DigitText(p)
    ensures AfterWord(word, p + ("," + frac)) == AfterComma(word, frac)
  {
    hide AfterComma, DigitRun;
    var tail := p + ("," + frac);
    DigitRunOf(p, "," + frac);
    assert tail[|p|] == ',' && tail[|p| + 1..] == frac;
  }

  lemma AfterCommaOf(word: string, scale: string, rest: string)
    requires DigitText(scale)
    ensures AfterComma(word, scale + (")" + rest)) == Some(Scaled(word, scale, rest))
  {
    hide DigitRun;
    var frac := scale + (")" + rest);
    DigitRunOf(scale, ")" + rest);
    assert frac[|scale|] == ')' && frac[..|scale|] == scale && frac[|scale| + 1..] == rest;
  }

  lemma MatchDecimalAlone(word: string, p: string, rest: string)
    requires word in DECIMAL_WORDS && DigitText(p)
    ensures MatchDecimal(word + "(" + p + ")" + rest) == Some(Scaled(word, "0", rest))
  {
    hide *;
    DecimalSpells(word, p, "0", rest);
    MatchDecimalAfter(word, p + (")" + rest));
    AfterWordAlone(word, p, rest);
  }

  lemma AfterWordAlone(word: string, p: string, rest: string)
    requires DigitText(p)
    ensures AfterWord(word, p + (")" + rest)) == Some(Scaled(word, "0", rest))
  {
    hide AfterComma, DigitRun;
    var tail := p + (")" + rest);
    DigitRunOf(p, ")" + rest);
    assert tail[|p|] == ')' && tail[|p| + 1..] == rest;
  }

  // Where the parts of a match stand.
  lemma DecimalParts(text: string) returns (k: nat, d: nat, e: nat)
    requires MatchDecimal(text).Some?
    ensures k < |text| && text[k] == '(' && text[..k] in DECIMAL_WORDS
    ensures var tail := text[k + 1..];
            && d < |tail| && DigitText(tail[..d])
            && if tail[d] == ')' then MatchDecimal(text) == Some(Scaled(text[..k], "0", tail[d + 1..]))
               else var frac := tail[d + 1..];
                    && tail[d] == ',' && e < |frac| && frac[e] == ')' && DigitText(frac[..e])
                    && MatchDecimal(text) == Some(Scaled(text[..k], frac[..e], frac[e + 1..]))
  {
    k := IndexOf(text, '(');
    var tail := text[k + 1..];
    d := DigitRun(tail);
    e := if tail[d] == ')' then 0 else DigitRun(tail[d + 1..]);
    hide DigitRun, IndexOf;
  }

  lemma MatchedDecimal(text: string)
    requires MatchDecimal(text).Some?
    ensures var m := MatchDecimal(text).value; ScaledAs(text, m.word, m.scale, m.rest)
  {
    hide *;
    var k, d, e := DecimalParts(text);
    var word, tail := text[..k], text[k + 1..];
    if tail[d] == ')' {
      AloneSpells(text, k, tail, d);
      IsScaled(text, word, tail[..d], "0", tail[d + 1..]);
    } else {
      var frac := tail[d + 1..];
      FullSpells(text, k, tail, d, frac, e);
      IsScaled(text, word, tail[..d], frac[..e], frac[e + 1..]);
    }
  }

  lemma IsScaled(text: string, word: string, p: string, scale: string, rest: string)
    requires word in DECIMAL_WORDS && DigitText(p)
    requires (DigitText(scale) && text == word + "(" + p + "," + scale + ")" + rest) || (scale == "0" && text == word + "(" + p + ")" + rest)
    ensures ScaledAs(text, word, scale, rest)
  {
  }

  lemma AloneSpells(text: string, k: nat, tail: string, d: nat)
    requires k < |text| && text[k] == '(' && tail == text[k + 1..] && d < |tail| && tail[d] == ')'
    ensures text == text[..k] + "(" + tail[..d] + ")" + tail[d + 1..]
  {
    Around(text, '(', k);
    Around(tail, ')', d);
    SizedSpells(text[..k], tail[..d], tail[d + 1..]);
  }

  lemma FullSpells(text: string, k: nat, tail: string, d: nat, frac: string, e: nat)
    requires k < |text| && text[k] == '(' && tail == text[k + 1..]
    requires d < |tail| && tail[d] == ',' && frac == tail[d + 1..] && e < |frac| && frac[e] == ')'
    ensures text == text[..k] + "(" + tail[..d] + "," + frac[..e] + ")" + frac[e + 1..]
  {
    Around(text, '(', k);
    Around(tail, ',', d);
    Around(frac, ')', e);
    Reassociate(text, text[..k], tail, tail[..d], frac, frac[..e], frac[e + 1..]);
    DecimalSpells(text[..k], tail[..d], frac[..e], frac[e + 1..]);
  }

  lemma Reassociate(text: string, word: string, tail: string, p: string, frac: string, scale: string, rest: string)
    requires text == word + ['('] + tail && tail == p + [','] + frac && frac == scale + [')'] + rest
    ensures text == word + ("(" + (p + ("," + (scale + (")" + rest)))))
  {
    assert frac == scale + (")" + rest);
    assert tail == p + ("," + frac);
    assert text == word + ("(" + tail);
  }

  lemma ScaledMatches(text: string, word: string, scale: string, rest: string)
    requires ScaledAs(text, word, scale, rest)
    ensures MatchDecimal(text) == Some(Scaled(word, scale, rest)) && MatchSized(LENGTH_WORDS, text) == None
  {
    hide MatchDecimal, MatchSized;
    DecimalWordFacts(word);
    var p :| DigitText(p) && ((DigitText(scale) && text == word + "(" + p + "," + scale + ")" + rest)
                              || (scale == "0" && text == word + "(" + p + ")" + rest));
    if text == word + "(" + p + ")" + rest && scale == "0" {
      MatchDecimalAlone(word, p, rest);
      assert text == word + "(" + (p + ")" + rest);
      NotSized(LENGTH_WORDS, word, p + ")" + rest);
    } else {
      MatchDecimalScaled(word, p, scale, rest);
      assert text == word + "(" + (p + "," + scale + ")" + rest);
      NotSized(LENGTH_WORDS, word, p + "," + scale + ")" + rest);
    }
  }

  lemma SizedMatches(text: string, word: string, digits: string, rest: string)
    requires SizedAs(LENGTH_WORDS, text, word, digits, rest)
    ensures MatchSized(LENGTH_WORDS, text) == Some(Sized(word, digits, rest))
  {
    LengthWordFacts(word);
    MatchSizedOf(LENGTH_WORDS, word, digits, rest);
  }

  lemma ReducedIs(text: string, u: string)
    ensures Reduced(text, u) <==> DecodeNormalized(text) == u
  {
    hide MatchSized, MatchDecimal, ScaledAs;
    forall word, digits, rest | SizedAs(LENGTH_WORDS, text, word, digits, rest)
      ensures MatchSized(LENGTH_WORDS, text) == Some(Sized(word, digits, rest))
    {
      SizedMatches(text, word, digits, rest);
    }
    forall word, scale, rest | ScaledAs(text, word, scale, rest)
      ensures MatchDecimal(text) == Some(Scaled(word, scale, rest)) && MatchSized(LENGTH_WORDS, text) == None
    {
      ScaledMatches(text, word, scale, rest);
    }
    match MatchSized(LENGTH_WORDS, text)
    case Some(m) => assert SizedAs(LENGTH_WORDS, text, m.word, m.digits, m.rest);
    case None =>
      if MatchDecimal(text).Some? { MatchedDecimal(text); }
  }

  // Two MySQL types decode the same exactly when their trimmed texts, without cosmetic width
  // and then without string length or decimal precision, are one text.
  ghost predicate Decodes(text: string, u: string) {
    exists w :: Widthless(text, w) && Reduced(w, u)
  }

  lemma DecodeTypeExactly(a: string, b: string)
    ensures DecodeType(a) == DecodeType(b) <==> exists u :: Decodes(Strip(a), u) && Decodes(Strip(b), u)
  {
    forall u ensures Decodes(Strip(a), u) <==> DecodeType(a) == u { DecodesIs(a, u); }
    forall u ensures Decodes(Strip(b), u) <==> DecodeType(b) == u { DecodesIs(b, u); }
    hide DecodeType, Decodes;
    assert Decodes(Strip(a), DecodeType(a));
  }

  lemma DecodesIs(a: string, u: string)
    ensures Decodes(Strip(a), u) <==> DecodeType(a) == u
  {
    hide Widthless, Reduced, DropWidth, DecodeNormalized, Strip;
    var w := DropWidth(Strip(a));
    WidthlessIs(Strip(a), w);
    ReducedIs(w, u);
    if v :| Widthless(Strip(a), v) && Reduced(v, u) { WidthlessIs(Strip(a), v); }
  }

  // A trimmed type with no size, or one whose word is no integer, string or decimal word.
  ghost predicate Verbatim(text: string) {
    Trimmed(text) && forall w, t :: text == w + "(" + t && '(' !in w ==> w !in INT_WORDS + LENGTH_WORDS + DECIMAL_WORDS
  }

  lemma PlainIsVerbatim(text: string)
    requires Trimmed(text) && '(' !in text
    ensures Verbatim(text)
  {
    forall w, t ensures text != w + "(" + t { assert (w + "(" + t)[|w|] == '('; }
  }

  lemma SizedIsVerbatim(word: string, tail: string)
    requires Trimmed(word + "(" + tail) && '(' !in word && word !in INT_WORDS + LENGTH_WORDS + DECIMAL_WORDS
    ensures Verbatim(word + "(" + tail)
  {
    forall w, t | word + "(" + tail == w + "(" + t && '(' !in w ensures w == word {
      PartitionOfJoined(word, '(', tail);
      PartitionOfJoined(w, '(', t);
    }
  }

  lemma VerbatimForms(text: string)
    requires Verbatim(text)
    ensures Widthless(text, text) && Reduced(text, text)
  {
    forall word, digits, rest ensures !SizedAs(INT_WORDS, text, word, digits, rest) && !SizedAs(LENGTH_WORDS, text, word, digits, rest) {
      if word in INT_WORDS + LENGTH_WORDS { NotSizedAs(text, word, digits, rest); }
    }
    forall word, scale, rest ensures !ScaledAs(text, word, scale, rest) {
      if word in DECIMAL_WORDS { NotScaled(text, word, scale, rest); }
    }
  }

  lemma NotSizedAs(text: string, word: string, digits: string, rest: string)
    requires Verbatim(text) && word in INT_WORDS + LENGTH_WORDS
    ensures text != word + "(" + digits + ")" + rest
  {
    WordFacts(word);
    assert text != word + "(" + (digits + ")" + rest);
    assert word + "(" + (digits + ")" + rest) == word + "(" + digits + ")" + rest;
  }

  lemma WordFacts(word: string)
    requires word in INT_WORDS + LENGTH_WORDS
    ensures '(' !in word
  {
    if word in INT_WORDS { IntWordFacts(word); } else { LengthWordFacts(word); }
  }

  lemma NotScaled(text: string, word: string, scale: string, rest: string)
    requires Verbatim(text) && word in DECIMAL_WORDS
    ensures !ScaledAs(text, word, scale, rest)
  {
    DecimalWordFacts(word);
    forall p ensures text != word + "(" + p + "," + scale + ")" + rest && text != word + "(" + p + ")" + rest {
      assert text != word + "(" + (p + "," + scale + ")" + rest) && text != word + "(" + (p + ")" + rest);
      assert word + "(" + (p + "," + scale + ")" + rest) == word + "(" + p + "," + scale + ")" + rest;
      assert word + "(" + (p + ")" + rest) == word + "(" + p + ")" + rest;
    }
  }

  // Such types are compared, and decode, as they are written.
  lemma VerbatimTypes(a: string, b: string)
    requires Verbatim(a) && Verbatim(b)
    ensures SameType(a, b, MySql) <==> a == b
    ensures DecodeType(a) == DecodeType(b) <==> a == b
  {
    StripTrimmed(a);
    StripTrimmed(b);
    VerbatimForms(a);
    VerbatimForms(b);
    hide Verbatim, Widthless, Reduced, DropWidth, DecodeNormalized, Strip;
    WidthlessIs(a, a);
    WidthlessIs(b, b);
    ReducedIs(a, a);
    ReducedIs(b, b);
  }

  // A decimal without a scale decodes as one with scale 0.
  lemma DecimalAlone(word: string, p: string, rest: string)
    requires word in DECIMAL_WORDS && DigitText(p) && (rest == [] || !IsSpace(rest[|rest| - 1]))
    ensures DecodeType(word + "(" + p + ")" + rest) == DecodeType(word + "(" + p + ",0)" + rest)
  {
    DecimalWordFacts(word);
    var a, b := word + "(" + p + ")" + rest, word + "(" + p + ",0)" + rest;
    assert b == word + "(" + p + "," + "0" + ")" + rest;
    assert a == word + "(" + (p + ")" + rest) && b == word + "(" + (p + ",0)" + rest);
    assert a[0] == word[0] && b[0] == word[0] && a[|a| - 1] == b[|b| - 1] == if rest == [] then ')' else rest[|rest| - 1];
    StripTrimmed(a);
    StripTrimmed(b);
    hide Strip, MatchSized, MatchDecimal;
    NotSized(INT_WORDS, word, p + ")" + rest);
    NotSized(INT_WORDS, word, p + ",0)" + rest);
    NotSized(LENGTH_WORDS, word, p + ")" + rest);
    NotSized(LENGTH_WORDS, word, p + ",0)" + rest);
    MatchDecimalAlone(word, p, rest);
    MatchDecimalScaled(word, p, "0", rest);
  }
}
