/**
 The scanner of plural expressions (yylex in plural.c): what it reads from a text,
 and that it reads back every spelling of a token sequence.
 */
module PluralLexer {
  import opened DecimalDigits
  import opened Divisibility
  import opened PluralSyntax

  /** unsigned long int wraps around at this value. */
  const ULONG_RANGE := 0x1_0000_0000_0000_0000

  /** The character at a position of the null-terminated text. */
  function CharAt(text: string, i: nat): char
  {
    if i < |text| then text[i] else '\0'
  }

  predicate IsBlank(c: char)
  {
    c == ' ' || c == '\t'
  }

  /** Characters at which the scanner stops without passing them. */
  predicate IsEnd(c: char)
  {
    c == '\0' || c == ';' || c == '\n'
  }

  function SkipBlanks(text: string, i: nat): (j: nat)
    ensures i <= j && (i <= |text| ==> j <= |text|)
    decreases |text| - i
  {
    if i < |text| && IsBlank(text[i]) then SkipBlanks(text, i + 1) else i
  }

  /** The value n of the digits so far and the position after further digits. */
  function ScanDigits(text: string, i: nat, n: nat): (r: (nat, nat))
    ensures i <= r.1 && (i <= |text| ==> r.1 <= |text|)
    decreases |text| - i
  {
    if i < |text| && IsDigit(text[i]) then ScanDigits(text, i + 1, (n * 10 + DigitValue(text[i])) % ULONG_RANGE)
    else (n, i)
  }

  /** The token for a character that is neither blank nor a digit, by the character
      after it, and how many characters it takes. */
  function SymbolToken(c: char, next: char): (r: (Token, nat))
    ensures r.0 == End <==> IsEnd(c)
    ensures r.1 <= 2 && (r.1 == 0 <==> r.0 == End)
    ensures r.1 == 2 ==> next in {'=', '&', '|'}
  {
    match c
    case '=' => if next == '=' then (BinOp(Equal), 2) else (Err, 1)
    case '!' => if next == '=' then (BinOp(NotEqual), 2) else (Bang, 1)
    case '&' => if next == '&' then (BinOp(Land), 2) else (Err, 1)
    case '|' => if next == '|' then (BinOp(Lor), 2) else (Err, 1)
    case '<' => if next == '=' then (BinOp(LessOrEqual), 2) else (BinOp(LessThan), 1)
    case '>' => if next == '=' then (BinOp(GreaterOrEqual), 2) else (BinOp(GreaterThan), 1)
    case '*' => (BinOp(Mult), 1)
    case '/' => (BinOp(Divide), 1)
    case '%' => (BinOp(Module), 1)
    case '+' => (BinOp(Plus), 1)
    case '-' => (BinOp(Minus), 1)
    case 'n' => (VarN, 1)
    case '?' => (Quest, 1)
    case ':' => (Colon, 1)
    case '(' => (LParen, 1)
    case ')' => (RParen, 1)
    case ';' => (End, 0)
    case '\n' => (End, 0)
    case '\0' => (End, 0)
    case _ => (Err, 1)
  }

  /** The next token from a position and the position after it. */
  function Lex(text: string, cp: nat): (r: (Token, nat))
    requires cp <= |text|
    ensures cp <= r.1 <= |text|
    ensures r.0 != End ==> cp < r.1
  {
    var i := SkipBlanks(text, cp);
    var c := CharAt(text, i);
    if IsDigit(c) then
      var (n, j) := ScanDigits(text, i + 1, DigitValue(c));
      (Number(n), j)
    else
      var (t, k) := SymbolToken(c, CharAt(text, i + 1));
      (t, i + k)
  }

  /** All tokens from a position to the end token. */
  function LexAll(text: string, cp: nat): (ts: seq<Token>)
    requires cp <= |text|
    ensures ts != [] && ts[|ts| - 1] == End && forall i :: 0 <= i < |ts| - 1 ==> ts[i] != End
    decreases |text| - cp
  {
    var (t, next) := Lex(text, cp);
    if t == End then [End] else [t] + LexAll(text, next)
  }

  // ---------------------------------------------------------------- spelling

  function Text(t: Token): string
  {
    match t
    case End => "" case Err => ""
    case Quest => "?" case Colon => ":" case Bang => "!" case VarN => "n" case LParen => "(" case RParen => ")"
    case Number(n) => Digits(n)
    case BinOp(op) =>
      match op
      case Mult => "*" case Divide => "/" case Module => "%" case Plus => "+" case Minus => "-"
      case LessThan => "<" case GreaterThan => ">" case LessOrEqual => "<=" case GreaterOrEqual => ">="
      case Equal => "==" case NotEqual => "!=" case Land => "&&" case Lor => "||"
  }

  predicate AllBlank(s: string)
  {
    forall i :: 0 <= i < |s| ==> IsBlank(s[i])
  }

  /** The tokens spelled out, with a gap before each and one after the last. */
  function Spell(toks: seq<Token>, gaps: seq<string>): string
    requires |gaps| == |toks| + 1
    decreases |toks|
  {
    if toks == [] then gaps[0] else gaps[0] + Text(toks[0]) + Spell(toks[1..], gaps[1..])
  }

  /** Tokens that are read as one when they are spelled without a gap. */
  predicate Merge(a: Token, b: Token)
  {
    || (a.Number? && b.Number?)
    || (b == BinOp(Equal) && a in {Bang, BinOp(LessThan), BinOp(GreaterThan)})
  }

  predicate Separable(toks: seq<Token>)
  {
    forall i :: 0 < i < |toks| ==> !Merge(toks[i - 1], toks[i])
  }

  /** Tokens that have a spelling. */
  predicate Spellable(t: Token)
  {
    t != End && t != Err && (t.Number? ==> t.n < ULONG_RANGE)
  }

  lemma {:induction false} SkipsGap(pre: string, gap: string, rest: string)
    requires AllBlank(gap) && !IsBlank(CharAt(rest, 0))
    ensures SkipBlanks(pre + gap + rest, |pre|) == |pre| + |gap|
    decreases |gap|
  {
    var text := pre + gap + rest;
    if gap == [] {
      assert |pre| < |text| ==> text[|pre|] == rest[0];
    } else {
      assert text == (pre + gap[..1]) + gap[1..] + rest;
      SkipsGap(pre + gap[..1], gap[1..], rest);
      assert text[|pre|] == gap[0];
    }
  }

  lemma ScanOne(pre: string, c: char, rest: string, x: nat)
    requires IsDigit(c)
    ensures ScanDigits(pre + ([c] + rest), |pre|, x)
         == ScanDigits(pre + ([c] + rest), |pre| + 1, (x * 10 + DigitValue(c)) % ULONG_RANGE)
  {
  }

  /** Reading the digits of a number gives the number, as far as an unsigned long
      holds it. */
  lemma {:induction false} ScansNumber(pre: string, s: string, rest: string)
    requires AllDigits(s)
    ensures ScanDigits(pre + s + rest, |pre|, 0)
         == ScanDigits(pre + s + rest, |pre| + |s|, NumberOf(s) % ULONG_RANGE)
    decreases |s|
  {
    hide ScanDigits;
    if s != [] {
      var t, c := s[..|s| - 1], s[|s| - 1];
      assert s == t + [c];
      assert pre + s + rest == pre + t + ([c] + rest) == (pre + t) + ([c] + rest);
      ScansNumber(pre, t, [c] + rest);
      ScanOne(pre + t, c, rest, NumberOf(t) % ULONG_RANGE);
      WrapDigit(NumberOf(t), DigitValue(c));
    }
  }

  lemma WrapDigit(x: nat, d: nat)
    ensures (x % ULONG_RANGE * 10 + d) % ULONG_RANGE == (x * 10 + d) % ULONG_RANGE
  {
    var q, r := x / ULONG_RANGE, x % ULONG_RANGE;
    assert x * 10 + d == 10 * q * ULONG_RANGE + (r * 10 + d);
    ModShift(ULONG_RANGE, r * 10 + d, 10 * q);
  }

  lemma DigitsStart(pre: string, s: string, rest: string)
    requires s != [] && IsDigit(s[0])
    ensures CharAt(pre + s + rest, |pre|) == s[0]
    ensures ScanDigits(pre + s + rest, |pre|, 0) == ScanDigits(pre + s + rest, |pre| + 1, DigitValue(s[0]))
  {
  }

  lemma DigitsEnd(pre: string, rest: string, n: nat)
    requires !IsDigit(CharAt(rest, 0))
    ensures ScanDigits(pre + rest, |pre|, n) == (n, |pre|)
  {
  }

  lemma ScansAll(pre: string, s: string, rest: string)
    requires s != [] && AllDigits(s) && !IsDigit(CharAt(rest, 0))
    ensures var text := pre + s + rest;
      && CharAt(text, |pre|) == s[0]
      && ScanDigits(text, |pre| + 1, DigitValue(s[0])) == (NumberOf(s) % ULONG_RANGE, |pre| + |s|)
  {
    hide NumberOf, ScanDigits, AllDigits;
    assert IsDigit(s[0]) by { FirstDigit(s); }
    ScansNumber(pre, s, rest);
    DigitsStart(pre, s, rest);
    DigitsEnd(pre + s, rest, NumberOf(s) % ULONG_RANGE);
  }

  lemma FirstDigit(s: string)
    requires s != [] && AllDigits(s)
    ensures IsDigit(s[0]) && !IsBlank(s[0])
  {
  }

  /** A literal is read as its value modulo the range of unsigned long. */
  lemma LexNumber(pre: string, gap: string, s: string, rest: string)
    requires AllBlank(gap) && s != [] && AllDigits(s) && !IsDigit(CharAt(rest, 0))
    ensures Lex(pre + gap + s + rest, |pre|) == (Number(NumberOf(s) % ULONG_RANGE), |pre| + |gap| + |s|)
  {
    hide SkipBlanks, NumberOf, ScanDigits, AllBlank, AllDigits, IsDigit, IsBlank, Lex;
    FirstDigit(s);
    ScansAll(pre + gap, s, rest);
    SkipsGap(pre, gap, s + rest);
    Grouped(pre + gap, s, rest);
    LexDigits(pre + gap + s + rest, |pre|, |pre + gap|);
  }

  lemma Regrouped(a: string, b: string, c: string, d: string, e: string)
    ensures a + ((b + c + d) + e) == a + b + c + (d + e) == (a + (b + c)) + (d + e)
  {
  }

  lemma Grouped(a: string, b: string, c: string)
    ensures a + (b + c) == a + b + c
  {
  }

  lemma LexDigits(text: string, cp: nat, i: nat)
    requires cp <= |text| && SkipBlanks(text, cp) == i && IsDigit(CharAt(text, i))
    ensures Lex(text, cp) == (Number(ScanDigits(text, i + 1, DigitValue(CharAt(text, i))).0),
                              ScanDigits(text, i + 1, DigitValue(CharAt(text, i))).1)
  {
    hide SkipBlanks, ScanDigits;
  }

  /** The character after a token's spelling does not belong to it. */
  predicate EndsBefore(t: Token, next: char)
  {
    && (t.Number? ==> !IsDigit(next))
    && (t in {Bang, BinOp(LessThan), BinOp(GreaterThan)} ==> next != '=')
  }

  lemma SymbolText(t: Token, next: char)
    requires Spellable(t) && !t.Number? && EndsBefore(t, next)
    ensures 1 <= |Text(t)| <= 2 && !IsBlank(Text(t)[0]) && !IsDigit(Text(t)[0])
    ensures SymbolToken(Text(t)[0], if |Text(t)| == 2 then Text(t)[1] else next) == (t, |Text(t)|)
  {
  }

  /** The ways to write a token: a number in any digits that have its value modulo the
      range of unsigned long, all others in one way. */
  ghost predicate IsWord(word: string, t: Token)
  {
    match t
    case End => false
    case Err => false
    case Number(n) => word != [] && AllDigits(word) && NumberOf(word) % ULONG_RANGE == n
    case _ => word == Text(t)
  }

  lemma TextIsWord(t: Token)
    requires Spellable(t)
    ensures IsWord(Text(t), t)
  {
    hide Digits, NumberOf;
    if t.Number? {
      NumberOfDigits(t.n);
      ModUnique(ULONG_RANGE, t.n, 0, t.n);
    }
  }

  lemma LexWord(pre: string, gap: string, t: Token, word: string, rest: string)
    requires AllBlank(gap) && IsWord(word, t) && EndsBefore(t, CharAt(rest, 0))
    ensures Lex(pre + gap + word + rest, |pre|) == (t, |pre| + |gap| + |word|)
  {
    if t.Number? {
      LexNumber(pre, gap, word, rest);
    } else {
      SymbolText(t, CharAt(rest, 0));
      hide SymbolToken, Text, SkipBlanks, ScanDigits, Digits;
      LexSymbol(pre, gap, word, rest);
    }
  }

  lemma LexSymbol(pre: string, gap: string, s: string, rest: string)
    requires AllBlank(gap) && 1 <= |s| <= 2 && !IsBlank(s[0]) && !IsDigit(s[0])
    ensures var (t, k) := SymbolToken(s[0], if |s| == 2 then s[1] else CharAt(rest, 0));
      Lex(pre + gap + s + rest, |pre|) == (t, |pre| + |gap| + k)
  {
    hide SymbolToken, SkipBlanks, ScanDigits;
    var text := pre + gap + s + rest;
    assert text == pre + gap + (s + rest);
    SkipsGap(pre, gap, s + rest);
    CharsAfter(pre + gap, s, rest);
  }

  lemma CharsAfter(pre: string, s: string, rest: string)
    requires 1 <= |s| <= 2
    ensures CharAt(pre + s + rest, |pre|) == s[0]
    ensures CharAt(pre + s + rest, |pre| + 1) == if |s| == 2 then s[1] else CharAt(rest, 0)
  {
  }

  ghost predicate Gaps(gaps: seq<string>)
  {
    forall i :: 0 <= i < |gaps| ==> AllBlank(gaps[i])
  }

  /** Words with a gap before each and one after the last. */
  function Join(words: seq<string>, gaps: seq<string>): string
    requires |gaps| == |words| + 1
    decreases |words|
  {
    if words == [] then gaps[0] else gaps[0] + words[0] + Join(words[1..], gaps[1..])
  }

  /** A text is words for some tokens, in blanks and tabs, up to its end, a semicolon or
      a newline; without a gap between them no two tokens are read as one. */
  ghost predicate Spells(text: string, toks: seq<Token>, words: seq<string>, gaps: seq<string>, tail: string)
  {
    && |words| == |toks| && |gaps| == |toks| + 1
    && (forall i :: 0 <= i < |toks| ==> IsWord(words[i], toks[i]))
    && (forall i, j :: 0 <= i < |gaps| && 0 <= j < |gaps[i]| ==> gaps[i][j] == ' ' || gaps[i][j] == '\t')
    && (forall i :: 0 < i < |toks| && gaps[i] == [] ==> !Merge(toks[i - 1], toks[i]))
    && (tail == [] || tail[0] == '\0' || tail[0] == ';' || tail[0] == '\n')
    && text == Join(words, gaps) + tail
  }

  lemma SpellsGap(text: string, toks: seq<Token>, words: seq<string>, gaps: seq<string>, tail: string)
    requires Spells(text, toks, words, gaps, tail)
    ensures AllBlank(gaps[0]) && IsEnd(CharAt(tail, 0))
    ensures toks != [] ==>
      IsWord(words[0], toks[0]) && Spells(Join(words[1..], gaps[1..]) + tail, toks[1..], words[1..], gaps[1..], tail)
  {
    hide Join, IsWord;
    if toks != [] {
      assert forall i :: 0 < i < |toks[1..]| ==> toks[1..][i - 1] == toks[i] && toks[1..][i] == toks[i + 1];
    }
  }

  /** What comes after a token in such a text does not belong to it. */
  lemma SpellStart(t: Token, text: string, toks: seq<Token>, words: seq<string>, gaps: seq<string>, tail: string)
    requires Spells(text, toks, words, gaps, tail)
    requires toks != [] && gaps[0] == [] ==> !Merge(t, toks[0])
    ensures EndsBefore(t, CharAt(text, 0))
  {
    SpellsGap(text, toks, words, gaps, tail);
    if gaps[0] == [] {
      if toks != [] {
        WordStart(words[0], toks[0]);
        assert text[0] == words[0][0];
      } else {
        assert text == tail;
      }
    } else {
      assert text[0] == gaps[0][0];
    }
  }

  lemma WordStart(word: string, t: Token)
    requires IsWord(word, t)
    ensures word != [] && (IsDigit(word[0]) <==> t.Number?) && (word[0] == '=' <==> t == BinOp(Equal))
  {
  }

  /** Such a text is read as the tokens. */
  lemma {:induction false} LexSpelled(pre: string, text: string, toks: seq<Token>, words: seq<string>,
    gaps: seq<string>, tail: string)
    requires Spells(text, toks, words, gaps, tail)
    ensures LexAll(pre + text, |pre|) == toks + [End]
    decreases |toks|
  {
    hide Lex, Text, CharAt, Merge, EndsBefore, Spells, IsWord;
    SpellsGap(text, toks, words, gaps, tail);
    SpellsParts(text, toks, words, gaps, tail);
    if toks == [] {
      LexEnd(pre, gaps[0], tail);
      assert pre + text == pre + gaps[0] + tail;
    } else {
      var t, ts, ws, gs := toks[0], toks[1..], words[1..], gaps[1..];
      var more := Join(ws, gs) + tail;
      SpellStart(t, more, ts, ws, gs, tail);
      LexWord(pre, gaps[0], t, words[0], more);
      var s := gaps[0] + words[0];
      LexSpelled(pre + s, more, ts, ws, gs, tail);
      Regrouped(pre, gaps[0], words[0], Join(ws, gs), tail);
      LexAllCons(pre + text, |pre|, t, |pre + s|);
      assert toks + [End] == [t] + (ts + [End]);
    }
  }

  lemma SpellsParts(text: string, toks: seq<Token>, words: seq<string>, gaps: seq<string>, tail: string)
    requires Spells(text, toks, words, gaps, tail)
    ensures |words| == |toks| && |gaps| == |toks| + 1 && text == Join(words, gaps) + tail
    ensures |toks| > 1 && gaps[1..][0] == [] ==> !Merge(toks[0], toks[1..][0])
    ensures toks != [] ==> toks[0] != End
  {
  }

  /** Reading a spelling of tokens that do not merge gives the tokens, whatever the
      gaps. */
  lemma LexSpelling(pre: string, toks: seq<Token>, gaps: seq<string>, tail: string)
    requires |gaps| == |toks| + 1 && Gaps(gaps)
    requires (forall i :: 0 <= i < |toks| ==> Spellable(toks[i])) && Separable(toks) && IsEnd(CharAt(tail, 0))
    ensures LexAll(pre + Spell(toks, gaps) + tail, |pre|) == toks + [End]
  {
    hide LexAll, Spells, Spell, Text, Join, IsWord, Separable, Gaps;
    var words := SpellingSpells(toks, gaps, tail);
    var text := Spell(toks, gaps) + tail;
    LexSpelled(pre, text, toks, words, gaps, tail);
    assert pre + Spell(toks, gaps) + tail == pre + text;
  }

  lemma SpellingSpells(toks: seq<Token>, gaps: seq<string>, tail: string) returns (words: seq<string>)
    requires |gaps| == |toks| + 1 && Gaps(gaps)
    requires (forall i :: 0 <= i < |toks| ==> Spellable(toks[i])) && Separable(toks) && IsEnd(CharAt(tail, 0))
    ensures Spells(Spell(toks, gaps) + tail, toks, words, gaps, tail)
  {
    hide Text, IsWord, Merge, Spell, Join;
    words := seq(|toks|, i requires 0 <= i < |toks| => Text(toks[i]));
    forall i | 0 <= i < |toks| ensures IsWord(words[i], toks[i]) {
      TextIsWord(toks[i]);
    }
    SpellIsJoin(toks, words, gaps);
  }

  lemma {:induction false} SpellIsJoin(toks: seq<Token>, words: seq<string>, gaps: seq<string>)
    requires |words| == |toks| && |gaps| == |toks| + 1
    requires forall i :: 0 <= i < |toks| ==> words[i] == Text(toks[i])
    ensures Spell(toks, gaps) == Join(words, gaps)
    decreases |toks|
  {
    hide Text;
    if toks != [] {
      SpellIsJoin(toks[1..], words[1..], gaps[1..]);
    }
  }

  lemma LexEnd(pre: string, gap: string, tail: string)
    requires AllBlank(gap) && IsEnd(CharAt(tail, 0))
    ensures LexAll(pre + gap + tail, |pre|) == [End]
  {
    EndPlain(CharAt(tail, 0));
    hide SkipBlanks, AllBlank, IsBlank, IsEnd, LexAll;
    SkipsGap(pre, gap, tail);
    assert CharAt(pre + gap + tail, |pre + gap|) == CharAt(tail, 0);
    LexAllEnd(pre + gap + tail, |pre|);
  }

  lemma EndPlain(c: char)
    requires IsEnd(c)
    ensures !IsBlank(c)
  {
  }

  lemma LexAllEnd(text: string, cp: nat)
    requires cp <= |text| && IsEnd(CharAt(text, SkipBlanks(text, cp)))
    ensures LexAll(text, cp) == [End]
  {
    hide SkipBlanks, ScanDigits;
  }

  lemma LexAllCons(text: string, cp: nat, t: Token, next: nat)
    requires cp <= |text| && t != End && Lex(text, cp) == (t, next)
    ensures next <= |text| && LexAll(text, cp) == [t] + LexAll(text, next)
  {
    hide Lex;
  }

  // -------------------------------------------- which texts have which tokens

  lemma {:induction false} BlanksSkipped(text: string, cp: nat)
    requires cp <= |text|
    ensures var i := SkipBlanks(text, cp); AllBlank(text[cp..i]) && !IsBlank(CharAt(text, i))
    decreases |text| - cp
  {
    if cp < |text| && IsBlank(text[cp]) {
      BlanksSkipped(text, cp + 1);
      var i := SkipBlanks(text, cp + 1);
      assert text[cp..i] == [text[cp]] + text[cp + 1..i];
    }
  }

  /** The digits that are scanned, and their value after that of the digits before. */
  lemma {:induction false} DigitsScanned(text: string, start: nat, i: nat)
    requires start <= i <= |text| && AllDigits(text[start..i])
    ensures var (n, j) := ScanDigits(text, i, NumberOf(text[start..i]) % ULONG_RANGE);
      && i <= j <= |text| && AllDigits(text[start..j]) && n == NumberOf(text[start..j]) % ULONG_RANGE
      && !IsDigit(CharAt(text, j))
    decreases |text| - i
  {
    hide NumberOf;
    if i < |text| && IsDigit(text[i]) {
      OneDigitMore(text, start, i);
      WrapDigit(NumberOf(text[start..i]), DigitValue(text[i]));
      hide AllDigits;
      DigitsScanned(text, start, i + 1);
    }
  }

  lemma OneDigitMore(text: string, start: nat, i: nat)
    requires start <= i < |text| && AllDigits(text[start..i]) && IsDigit(text[i])
    ensures AllDigits(text[start..i + 1])
    ensures NumberOf(text[start..i + 1]) == NumberOf(text[start..i]) * 10 + DigitValue(text[i])
  {
    assert text[start..i + 1] == text[start..i] + [text[i]];
    assert text[start..i + 1][..i - start] == text[start..i];
  }

  /** A symbol that is recognised is the token written out. */
  lemma SymbolRead(c: char, next: char)
    requires !IsBlank(c) && !IsDigit(c)
    ensures var (t, k) := SymbolToken(c, next);
      t != Err && t != End ==>
        IsWord(if k == 2 then [c, next] else [c], t) && 1 <= k <= 2 && (k == 1 ==> EndsBefore(t, next))
        && (k == 2 ==> forall c' :: EndsBefore(t, c')) && (k == 2 ==> next != '\0')
  {
  }

  /** A token that is read and the text it is read from. */
  lemma LexRead(text: string, cp: nat)
    requires cp <= |text|
    ensures var i := SkipBlanks(text, cp); var (t, next) := Lex(text, cp);
      && AllBlank(text[cp..i])
      && (t == End ==> next == i && IsEnd(CharAt(text, i)))
      && (t != End && t != Err ==> i <= next && IsWord(text[i..next], t) && EndsBefore(t, CharAt(text, next)))
  {
    hide SymbolToken, IsWord, EndsBefore;
    BlanksSkipped(text, cp);
    var i := SkipBlanks(text, cp);
    var c := CharAt(text, i);
    if IsDigit(c) {
      NumberRead(text, i);
    } else {
      SymbolRead(c, CharAt(text, i + 1));
      var (t, k) := SymbolToken(c, CharAt(text, i + 1));
      if t != End && t != Err {
        EndOfSymbol(c, CharAt(text, i + 1));
        assert text[i..i + k] == if k == 2 then [c, CharAt(text, i + 1)] else [c];
      }
    }
  }

  lemma EndOfSymbol(c: char, next: char)
    ensures SymbolToken(c, next).0 == End <==> IsEnd(c)
  {
  }

  lemma NumberRead(text: string, i: nat)
    requires i <= |text| && IsDigit(CharAt(text, i))
    ensures var (n, j) := ScanDigits(text, i + 1, DigitValue(CharAt(text, i)));
      i < j <= |text| && IsWord(text[i..j], Number(n)) && EndsBefore(Number(n), CharAt(text, j))
  {
    hide ScanDigits;
    var s := text[i..i + 1];
    assert s == [text[i]] && s[..0] == [];
    assert NumberOf(s) == DigitValue(text[i]);
    ModUnique(ULONG_RANGE, NumberOf(s), 0, NumberOf(s));
    DigitsScanned(text, i, i + 1);
  }

  /** A text that is scanned without an error token is words for the tokens. */
  lemma {:induction false} ScannedSpells(text: string, cp: nat)
    returns (words: seq<string>, gaps: seq<string>, tail: string)
    requires cp <= |text| && Err !in LexAll(text, cp)
    ensures var all := LexAll(text, cp); Spells(text[cp..], all[..|all| - 1], words, gaps, tail)
    decreases |text| - cp
  {
    hide Lex, IsWord, Merge;
    LexRead(text, cp);
    var i := SkipBlanks(text, cp);
    var (t, next) := Lex(text, cp);
    if t == End {
      words, gaps, tail := [], [text[cp..i]], text[i..];
      assert text[cp..] == text[cp..i] + text[i..];
      assert LexAll(text, cp)[..0] == [];
    } else {
      LexAllCons(text, cp, t, next);
      var rest := LexAll(text, next);
      NoErrCons(t, rest, LexAll(text, cp));
      hide LexAll, Spells;
      var ws, gs;
      ws, gs, tail := ScannedSpells(text, next);
      words, gaps := [text[i..next]] + ws, [text[cp..i]] + gs;
      var toks := rest[..|rest| - 1];
      assert text[cp..] == text[cp..i] + text[i..next] + text[next..];
      if toks != [] && gs[0] == [] {
        NoMerge(t, toks[0], ws[0], CharAt(text, next), text[next..], ws, gs, tail);
      }
      SpellsCons(t, text[i..next], text[cp..i], text[next..], toks, ws, gs, tail);
    }
  }

  lemma NoErrCons(t: Token, rest: seq<Token>, all: seq<Token>)
    requires all == [t] + rest && rest != [] && Err !in all
    ensures t != Err && Err !in rest && all[..|all| - 1] == [t] + rest[..|rest| - 1]
  {
    assert all[0] == t;
    assert forall x :: x in rest ==> x in all;
  }

  lemma NoMerge(t: Token, u: Token, word: string, c: char, text: string, words: seq<string>, gaps: seq<string>,
    tail: string)
    requires EndsBefore(t, c) && IsWord(word, u) && words != [] && |gaps| == |words| + 1 && words[0] == word
    requires gaps[0] == [] && text == Join(words, gaps) + tail && c == CharAt(text, 0)
    ensures !Merge(t, u)
  {
    WordStart(word, u);
    assert text[0] == word[0];
  }

  lemma SpellsCons(t: Token, word: string, gap: string, text: string, toks: seq<Token>, words: seq<string>,
    gaps: seq<string>, tail: string)
    requires Spells(text, toks, words, gaps, tail) && AllBlank(gap) && IsWord(word, t)
    requires toks != [] && gaps[0] == [] ==> !Merge(t, toks[0])
    ensures Spells(gap + word + text, [t] + toks, [word] + words, [gap] + gaps, tail)
  {
    hide IsWord, Merge, Join;
    var ts, ws, gs := [t] + toks, [word] + words, [gap] + gaps;
    forall i | 0 <= i < |ts| ensures IsWord(ws[i], ts[i]) {
      assert i > 0 ==> ws[i] == words[i - 1] && ts[i] == toks[i - 1];
    }
    forall i, j | 0 <= i < |gs| && 0 <= j < |gs[i]| ensures gs[i][j] == ' ' || gs[i][j] == '\t' {
      assert i > 0 ==> gs[i] == gaps[i - 1];
      assert i == 0 ==> IsBlank(gap[j]);
    }
    forall i | 0 < i < |ts| && gs[i] == [] ensures !Merge(ts[i - 1], ts[i]) {
      assert gs[i] == gaps[i - 1] && ts[i] == toks[i - 1] && (i > 1 ==> ts[i - 1] == toks[i - 2]);
    }
    JoinCons(word, gap, words, gaps);
    Grouped(gap + word, Join(words, gaps), tail);
  }

  lemma JoinCons(word: string, gap: string, words: seq<string>, gaps: seq<string>)
    requires |gaps| == |words| + 1
    ensures Join([word] + words, [gap] + gaps) == gap + word + Join(words, gaps)
  {
    assert ([word] + words)[1..] == words && ([gap] + gaps)[1..] == gaps;
  }

  /** Exactly the texts of words for some tokens are scanned as those tokens, without an
      error token. */
  lemma LexExactly(text: string, cp: nat, toks: seq<Token>)
    requires cp <= |text|
    ensures Err !in toks && LexAll(text, cp) == toks + [End]
       <==> exists words, gaps, tail :: Spells(text[cp..], toks, words, gaps, tail)
  {
    hide LexAll, Spells;
    if Err !in toks && LexAll(text, cp) == toks + [End] {
      var words, gaps, tail := ScannedSpells(text, cp);
      assert (toks + [End])[..|toks|] == toks;
    }
    if words, gaps, tail :| Spells(text[cp..], toks, words, gaps, tail) {
      SpelledScans(text, cp, toks, words, gaps, tail);
    }
  }

  lemma SpelledScans(text: string, cp: nat, toks: seq<Token>, words: seq<string>, gaps: seq<string>, tail: string)
    requires cp <= |text| && Spells(text[cp..], toks, words, gaps, tail)
    ensures Err !in toks && LexAll(text, cp) == toks + [End]
  {
    hide LexAll, Spells;
    LexSpelled(text[..cp], text[cp..], toks, words, gaps, tail);
    assert text[..cp] + text[cp..] == text;
    NoErr(text[cp..], toks, words, gaps, tail);
  }

  lemma NoErr(text: string, toks: seq<Token>, words: seq<string>, gaps: seq<string>, tail: string)
    requires Spells(text, toks, words, gaps, tail)
    ensures Err !in toks
  {
  }

  // -------------------------------------------------- derivations do not merge

  /** The tokens that a derivation begins and ends with. */
  predicate Opens(t: Token)
  {
    t == VarN || t == Bang || t == LParen || t.Number?
  }

  predicate Closes(t: Token)
  {
    t == VarN || t == RParen || t.Number?
  }

  lemma Edges(n: nat)
    ensures Opens(VarN) && Opens(Bang) && Opens(LParen) && Opens(Number(n))
    ensures Closes(VarN) && Closes(RParen) && Closes(Number(n))
  {
  }

  lemma {:induction false} YieldEdges(d: Cst)
    ensures Opens(Yield(d)[0]) && Closes(Yield(d)[|Yield(d)| - 1])
  {
    Edges(if d.CNum? then d.n else 0);
    hide Opens, Closes;
    match d
    case CVar =>
    case CNum(_) =>
    case CNot(e) =>
      YieldEdges(e);
    case CParen(e) =>
    case CBin(op, l, r) =>
      YieldEdges(l);
      YieldEdges(r);
      Ends(Yield(l), [BinOp(op)], Yield(r));
    case CCond(a, t, f) =>
      YieldEdges(a);
      YieldEdges(f);
      Ends(Yield(a), [Quest], Yield(t));
      Ends(Yield(a) + [Quest] + Yield(t), [Colon], Yield(f));
  }

  lemma Ends(a: seq<Token>, b: seq<Token>, c: seq<Token>)
    requires a != [] && c != []
    ensures (a + b + c)[0] == a[0] && (a + b + c)[|a + b + c| - 1] == c[|c| - 1]
  {
  }

  lemma SeparableConcat(a: seq<Token>, b: seq<Token>)
    requires Separable(a) && Separable(b)
    requires a != [] && b != [] ==> !Merge(a[|a| - 1], b[0])
    ensures Separable(a + b)
  {
  }

  lemma {:induction false} YieldSeparable(d: Cst)
    ensures Separable(Yield(d))
  {
    match d
    case CVar =>
    case CNum(_) =>
    case CNot(e) =>
      YieldSeparable(e);
      YieldEdges(e);
      SeparableConcat([Bang], Yield(e));
    case CParen(e) =>
      YieldSeparable(e);
      YieldEdges(e);
      SeparableConcat([LParen], Yield(e));
      SeparableConcat([LParen] + Yield(e), [RParen]);
    case CBin(op, l, r) =>
      YieldSeparable(l);
      YieldSeparable(r);
      YieldEdges(l);
      YieldEdges(r);
      SeparableConcat(Yield(l), [BinOp(op)]);
      SeparableConcat(Yield(l) + [BinOp(op)], Yield(r));
    case CCond(a, t, f) =>
      YieldSeparable(a);
      YieldSeparable(t);
      YieldSeparable(f);
      YieldEdges(a);
      YieldEdges(t);
      YieldEdges(f);
      SeparableConcat(Yield(a), [Quest]);
      SeparableConcat(Yield(a) + [Quest], Yield(t));
      SeparableConcat(Yield(a) + [Quest] + Yield(t), [Colon]);
      SeparableConcat(Yield(a) + [Quest] + Yield(t) + [Colon], Yield(f));
  }

  /** The numbers of an expression fit in an unsigned long. */
  predicate NumbersFit(e: Expr)
  {
    match e
    case Var => true
    case Num(n) => n < ULONG_RANGE
    case Lnot(a) => NumbersFit(a)
    case Binary(_, l, r) => NumbersFit(l) && NumbersFit(r)
    case Qmop(a, t, f) => NumbersFit(a) && NumbersFit(t) && NumbersFit(f)
  }

  lemma {:induction false} YieldSpellable(d: Cst)
    requires NumbersFit(Strip(d))
    ensures forall i :: 0 <= i < |Yield(d)| ==> Spellable(Yield(d)[i])
  {
    match d
    case CVar =>
    case CNum(_) =>
    case CNot(e) => YieldSpellable(e);
    case CParen(e) => YieldSpellable(e);
    case CBin(_, l, r) => YieldSpellable(l); YieldSpellable(r);
    case CCond(a, t, f) => YieldSpellable(a); YieldSpellable(t); YieldSpellable(f);
  }

  /** The scanner reads back every spelling of a derivation. */
  lemma LexDerivation(d: Cst, gaps: seq<string>, tail: string)
    requires NumbersFit(Strip(d)) && |gaps| == |Yield(d)| + 1 && Gaps(gaps) && IsEnd(CharAt(tail, 0))
    ensures LexAll(Spell(Yield(d), gaps) + tail, 0) == Yield(d) + [End]
  {
    hide LexAll, Spell, Yield, Strip, NumbersFit, Gaps, CharAt, IsEnd;
    YieldSpellable(d);
    YieldSeparable(d);
    LexSpelling([], Yield(d), gaps, tail);
    assert [] + Spell(Yield(d), gaps) + tail == Spell(Yield(d), gaps) + tail;
  }
}
