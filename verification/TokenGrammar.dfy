/** The tokens of a text, said without the tokenizer: a text is cut into blanks, comments and the spellings
    of tokens, each reaching as far as it can, and the tokenizer finds exactly that cut. */
module TokenGrammar {
  import opened Common
  import opened Lexer
  import opened Params

  datatype Piece = Gap(text: string) | Tok(x: Token)

  function Spell(x: Token): string {
    match x
    case Word(s) => s
    case Number(s) => s
    case Str(s) => Format(s)
    case Op(s) => s
    case Mark(c) => [c]
    case Placeholder => "?"
  }

  function TextOf(p: Piece): string {
    match p case Gap(t) => t case Tok(x) => Spell(x)
  }

  function Print(ps: seq<Piece>): string {
    if ps == [] then [] else TextOf(ps[0]) + Print(ps[1..])
  }

  function TokensOf(ps: seq<Piece>): seq<Token> {
    if ps == [] then [] else (match ps[0] case Gap(_) => [] case Tok(x) => [x]) + TokensOf(ps[1..])
  }

  // ----- the pieces

  predicate Wordy(c: char, k: Classes) {
    c == '_' || k.letter(c) || k.digit(c) || k.numeral(c)
  }

  /** A letter or underscore, then letters, digits, numerals and underscores. */
  predicate WordSpelling(s: string, k: Classes) {
    s != [] && (k.letter(s[0]) || s[0] == '_') && forall i :: 0 <= i < |s| ==> Wordy(s[i], k)
  }

  /** Digits with at most one point, which does not come first. */
  predicate NumberSpelling(s: string, k: Classes) {
    && s != [] && k.digit(s[0]) && !k.letter(s[0])
    && (forall i :: 0 <= i < |s| ==> k.digit(s[i]) || s[i] == '.')
    && (forall i, j :: 0 <= i < j < |s| ==> !(s[i] == '.' && s[j] == '.'))
  }

  /** What can stand between the marks of a block comment: read in steps of `/` with `*`, or one character,
      no step comes to the closing mark. */
  predicate Body(b: string) {
    if b == [] then true
    else if b[0] == '/' && |b| > 1 && b[1] == '*' then Body(b[2..])
    else b != "/" && !(b[0] == '*' && |b| > 1 && b[1] == '/') && Body(b[1..])
  }

  ghost predicate Comment(t: string, rest: string) {
    || (exists x :: t == "--" + x && '\n' !in x && (rest == [] || rest[0] == '\n'))
    || (exists b :: t == "/*" + b + "*/" && Body(b))
  }

  /** The piece is well formed and could not be longer before this rest. */
  ghost predicate Fits(p: Piece, rest: string, k: Classes) {
    var c := FirstOf(rest);
    match p
    case Gap(t) => (|t| == 1 && t[0] in " \t\r\n") || Comment(t, rest)
    case Tok(Word(s)) => WordSpelling(s, k) && (c.None? || !Wordy(c.value, k))
    case Tok(Number(s)) =>
      NumberSpelling(s, k) && (c.None? || !(k.digit(c.value) || (c.value == '.' && '.' !in s)))
    case Tok(Str(_)) => c != Some('\'')
    case Tok(Op(s)) => s in {">=", "<=", "!="} || (s in {"+", "*", "="}) || (s in {"<", ">"} && c != Some('='))
                       || (s == "-" && c != Some('-')) || (s == "/" && c != Some('*'))
    case Tok(Mark(x)) => x in "(),;."
    case Tok(Placeholder) => true
  }

  ghost predicate WellCut(ps: seq<Piece>, k: Classes) {
    ps == [] || (Fits(ps[0], Print(ps[1..]), k) && WellCut(ps[1..], k))
  }

  // ----- words and numbers

  lemma {:induction false} AllWord(s: string, k: Classes)
    ensures WordLen(s, k) == |s| <==> forall i :: 0 <= i < |s| ==> Wordy(s[i], k)
  {
    if s != [] {
      AllWord(s[1..], k);
      assert s == [s[0]] + s[1..];
      if forall i :: 0 <= i < |s[1..]| ==> Wordy(s[1..][i], k) {
        forall i | 0 < i < |s| ensures Wordy(s[i], k) {
          assert s[i] == s[1..][i - 1];
        }
      }
      if forall i :: 0 <= i < |s| ==> Wordy(s[i], k) {
        forall i | 0 <= i < |s[1..]| ensures Wordy(s[1..][i], k) {
          assert s[1..][i] == s[i + 1];
        }
      }
    }
  }

  lemma WordIs(s: string, k: Classes)
    ensures WordSpelling(s, k) <==> WordText(s, k)
  {
    if s != [] {
      AllWord(s, k);
      assert k.letter(s[0]) || s[0] == '_' ==> Wordy(s[0], k);
    }
  }

  predicate Numeric(s: string, dot: bool, k: Classes) {
    s == [] || (if k.digit(s[0]) then Numeric(s[1..], dot, k) else s[0] == '.' && !dot && Numeric(s[1..], true, k))
  }

  lemma {:induction false} AllNumber(s: string, dot: bool, k: Classes)
    ensures NumberLen(s, dot, k) == |s| <==> Numeric(s, dot, k)
    decreases |s|
  {
    if s != [] {
      AllNumber(s[1..], dot || !k.digit(s[0]), k);
    }
  }

  predicate Pointed(s: string, dot: bool, k: Classes) {
    && (forall i :: 0 <= i < |s| ==> k.digit(s[i]) || s[i] == '.')
    && (forall i, j :: 0 <= i < j < |s| ==> !(s[i] == '.' && s[j] == '.'))
    && (dot ==> '.' !in s)
  }

  lemma {:induction false} NumericIs(s: string, dot: bool, k: Classes)
    requires !k.digit('.')
    ensures Numeric(s, dot, k) <==> Pointed(s, dot, k)
    decreases |s|
  {
    if s != [] {
      PointedTail(s[0], s[1..], dot, k);
      assert s == [s[0]] + s[1..];
      hide Pointed;
      NumericIs(s[1..], dot || !k.digit(s[0]), k);
    }
  }

  lemma PointedTail(c: char, r: string, dot: bool, k: Classes)
    requires !k.digit('.')
    ensures Pointed([c] + r, dot, k) <==>
              (k.digit(c) && Pointed(r, dot, k)) || (c == '.' && !dot && Pointed(r, true, k))
  {
    var s := [c] + r;
    if Pointed(s, dot, k) {
      forall i | 0 <= i < |r| ensures k.digit(r[i]) || r[i] == '.' {
        assert s[i + 1] == r[i];
      }
      forall i, j | 0 <= i < j < |r| ensures !(r[i] == '.' && r[j] == '.') {
        assert s[i + 1] == r[i] && s[j + 1] == r[j];
      }
      if '.' in r {
        var i := IndexIn(r, '.');
        assert s[i + 1] == '.' && s[0] == c;
      }
      assert s[0] == c;
    }
    if (k.digit(c) && Pointed(r, dot, k)) || (c == '.' && !dot && Pointed(r, true, k)) {
      forall i | 0 <= i < |s| ensures k.digit(s[i]) || s[i] == '.' {
        assert i > 0 ==> s[i] == r[i - 1];
      }
      forall i, j | 0 <= i < j < |s| ensures !(s[i] == '.' && s[j] == '.') {
        assert s[j] == r[j - 1] && r[j - 1] in r && (i > 0 ==> s[i] == r[i - 1]);
      }
    }
  }

  lemma NumberIs(s: string, k: Classes)
    requires Sane(k)
    ensures NumberSpelling(s, k) <==> NumberText(s, k)
  {
    NotADigit(k);
    hide Sane;
    if s != [] {
      AllNumber(s[1..], false, k);
      NumericIs(s[1..], false, k);
      PointedTail(s[0], s[1..], false, k);
      assert s == [s[0]] + s[1..];
    }
  }

  // ----- comments and literals

  lemma {:induction false} BodySkipped(b: string, r: string)
    requires Body(b)
    ensures SkipBlock(b + "*/" + r) == Some(r)
    decreases |b|
  {
    var s := b + "*/" + r;
    if b == [] {
      assert s == "*/" + r;
      assert s[2..] == r;
    } else if b[0] == '/' && |b| > 1 && b[1] == '*' {
      assert s[2..] == b[2..] + "*/" + r;
      BodySkipped(b[2..], r);
    } else {
      assert s[1..] == b[1..] + "*/" + r;
      assert s[1] == if |b| > 1 then b[1] else '*';
      BodySkipped(b[1..], r);
    }
  }

  lemma Glue(a: string, b: string, m: string, r: string)
    ensures a + (b + m + r) == (a + b) + m + r
  {
  }

  lemma TwoFirst(s: string)
    requires |s| > 1
    ensures s == [s[0], s[1]] + s[2..]
  {
  }

  lemma FrontOf(s: string, n: nat)
    requires n <= |s|
    ensures s == s[..n] + s[n..]
  {
  }

  lemma OneFirst(s: string)
    requires s != []
    ensures s == [s[0]] + s[1..]
  {
  }

  lemma {:induction false} SkippedBody(s: string) returns (b: string)
    requires SkipBlock(s).Some?
    ensures Body(b) && s == b + "*/" + SkipBlock(s).value
    decreases |s|
  {
    var r := SkipBlock(s).value;
    if s[0] == '*' && |s| > 1 && s[1] == '/' {
      b := [];
      TwoFirst(s);
    } else if s[0] == '/' && |s| > 1 && s[1] == '*' {
      var c := SkippedBody(s[2..]);
      hide SkipBlock;
      TwoFirst(s);
      Glue("/*", c, "*/", r);
      b := "/*" + c;
      BodyStep("/*", c);
    } else {
      var c := SkippedBody(s[1..]);
      hide SkipBlock;
      OneFirst(s);
      Glue([s[0]], c, "*/", r);
      b := [s[0]] + c;
      NextChar(s, c, r);
      BodyStep([s[0]], c);
    }
  }

  lemma NextChar(s: string, c: string, r: string)
    requires s != [] && s[1..] == c + "*/" + r
    ensures |s| > 1 && s[1] == if c == [] then '*' else c[0]
  {
    assert s[1] == s[1..][0];
  }

  lemma BodyStep(a: string, c: string)
    requires Body(c)
             && (a == "/*" || (|a| == 1 && !(a == "/" && (c == [] || c[0] == '*'))
                               && !(a == "*" && c != [] && c[0] == '/')))
    ensures Body(a + c)
  {
    var b := a + c;
    if a == "/*" {
      assert b[0] == '/' && b[1] == '*' && b[2..] == c;
    } else {
      assert b[0] == a[0] && b[1..] == c && (c != [] ==> b[1] == c[0]);
    }
  }

  lemma {:induction false} SkippedLine(s: string) returns (x: string)
    ensures s == x + SkipLine(s) && '\n' !in x && (SkipLine(s) == [] || SkipLine(s)[0] == '\n')
    decreases |s|
  {
    if s == [] || s[0] == '\n' {
      x := [];
    } else {
      x := SkippedLine(s[1..]);
      OneFirst(s);
      Append([s[0]], x, SkipLine(s));
      x := [s[0]] + x;
    }
  }

  lemma {:induction false} ReadIsDoubled(s: string)
    requires ReadLiteral(s).Some?
    ensures s == Double(ReadLiteral(s).value.text) + "'" + ReadLiteral(s).value.rest
    decreases |s|
  {
    if s[0] != '\'' || (|s| > 1 && s[1] == '\'') {
      var n := if s[0] == '\'' then 2 else 1;
      var c, q, r := s[..n], ReadLiteral(s[n..]).value, ReadLiteral(s).value;
      assert r.text == [s[0]] + q.text && r.rest == q.rest;
      ReadIsDoubled(s[n..]);
      DoubleCons(s[0], q.text);
      hide Double, ReadLiteral;
      assert c == if s[0] == '\'' then "''" else [s[0]];
      FrontOf(s, n);
      Glue(c, Double(q.text), "'", q.rest);
    } else {
      OneFirst(s);
    }
  }

  lemma DoubleCons(c: char, p: string)
    ensures Double([c] + p) == (if c == '\'' then "''" else [c]) + Double(p)
  {
    assert ([c] + p)[1..] == p;
  }

  // ----- each turn of the tokenizer takes a piece that fits

  lemma LineFits(s: string, k: Classes)
    requires LineComment(s)
    ensures First(s, k).Skip? && Comment(s[..First(s, k).n], s[First(s, k).n..])
  {
    LineFirst(s, k);
    hide First;
    var r := SkipLine(s[1..]);
    var y := SkippedLine(s[1..]);
    assert s[1..][0] == '-';
    assert y != [] && y[0] == '-';
    var x := y[1..];
    Front(s, "-" + y, r);
    assert "-" + y == "--" + x;
    forall c | c in x ensures c != '\n' {
      assert c in y;
    }
  }

  lemma BlockFits(s: string, k: Classes)
    requires BlockComment(s) && First(s, k).Skip?
    ensures Comment(s[..First(s, k).n], s[First(s, k).n..])
  {
    BlockFirst(s, k);
    hide First;
    var r := SkipBlock(s[2..]).value;
    var b := SkippedBody(s[2..]);
    hide SkipBlock, Body;
    var t := "/*" + b + "*/";
    TwoFirst(s);
    assert s == t + r;
    assert s[..|t|] == t && s[|t|..] == r;
  }

  lemma LiteralFits(s: string, k: Classes)
    requires s != [] && s[0] == '\'' && First(s, k).Take?
    ensures var n, x := First(s, k).n, First(s, k).x; x.Str? && Spell(x) == s[..n]
  {
    QuoteFirst(s, k);
    hide First;
    var q := ReadLiteral(s[1..]).value;
    ReadIsDoubled(s[1..]);
    hide ReadLiteral, Double;
    OneFirst(s);
    var f := "'" + Double(q.text) + "'";
    Glue("'", Double(q.text), "'", q.rest);
    assert s == f + q.rest && s[..|f|] == f;
  }

  /** Whatever the tokenizer takes is the spelling of the token, and fits. */
  lemma TakeFits(s: string, k: Classes)
    requires Sane(k) && First(s, k).Take?
    ensures var n, x := First(s, k).n, First(s, k).x; Spell(x) == s[..n] && Fits(Tok(x), s[n..], k)
  {
    var n, x := First(s, k).n, First(s, k).x;
    if s[0] == '?' {
      MarkFirst(s, k);
    } else {
      Maximal(s, k);
      if x.Str? {
        LiteralFits(s, k);
      } else if x.Word? {
        FrontIsWord(s, k);
        WordIs(s[..n], k);
      } else if x.Number? {
        FrontIsNumber(s, k);
        NumberIs(s[..n], k);
      } else {
        SignFits(s, k);
      }
    }
  }

  lemma SignFits(s: string, k: Classes)
    requires First(s, k).Take? && (First(s, k).x.Op? || First(s, k).x.Mark?)
    ensures var n, x := First(s, k).n, First(s, k).x; Spell(x) == s[..n] && Fits(Tok(x), s[n..], k)
  {
    var n, x := First(s, k).n, First(s, k).x;
    assert s[..1] == [s[0]];
    if |s| > 1 {
      assert s[..2] == [s[0], s[1]] && s[1..][0] == s[1];
    }
  }

  lemma SkipFits(s: string, k: Classes)
    requires First(s, k).Skip?
    ensures var n := First(s, k).n; Fits(Gap(s[..n]), s[n..], k)
  {
    if s[0] in SPACES {
      assert s[..1] == [s[0]];
    } else if LineComment(s) {
      LineFits(s, k);
    } else {
      BlockFits(s, k);
    }
  }

  // ----- and a piece that fits is what the tokenizer takes

  lemma CommentTaken(t: string, rest: string, k: Classes)
    requires Comment(t, rest)
    ensures First(t + rest, k) == Skip(|t|)
  {
    var u := t + rest;
    if x :| t == "--" + x && '\n' !in x && (rest == [] || rest[0] == '\n') {
      assert u[1..] == ("-" + x) + rest;
      assert '\n' !in "-" + x;
      SkipLineOver("-" + x, rest);
      assert SkipLine(rest) == rest;
      LineFirst(u, k);
    } else {
      var b :| t == "/*" + b + "*/" && Body(b);
      assert u[2..] == b + "*/" + rest;
      BodySkipped(b, rest);
      BlockFirst(u, k);
    }
  }

  lemma LiteralTaken(s: string, rest: string, k: Classes)
    requires FirstOf(rest) != Some('\'')
    ensures First(Format(s) + rest, k) == Take(|Format(s)|, Str(s))
  {
    var u := Format(s) + rest;
    ReadDoubled(s, rest);
    assert u[0] == '\'' && u[1..] == Double(s) + "'" + rest;
    QuoteFirst(u, k);
  }

  lemma DoubleTaken(a: char, rest: string, k: Classes)
    requires a in "><!" && !k.letter(a) && !k.digit(a)
    ensures First([a, '='] + rest, k) == Take(2, Op([a, '=']))
  {
    var u := [a, '='] + rest;
    assert u[0] == a && u[1] == '=' && u[..2] == [a, '='];
  }

  lemma SingleTaken(a: char, rest: string, k: Classes)
    requires !k.letter(a) && !k.digit(a) && Fits(Tok(if a in "(),;." then Mark(a) else Op([a])), rest, k)
    ensures First([a] + rest, k) == Take(1, if a in "(),;." then Mark(a) else Op([a]))
  {
    var u := [a] + rest;
    assert u[0] == a && u[..1] == [a] && |u| == 1 + |rest|;
    if rest != [] {
      assert u[1] == rest[0];
    }
  }

  lemma SignTaken(x: Token, rest: string, k: Classes)
    requires Sane(k) && (x.Op? || x.Mark? || x == Placeholder) && Fits(Tok(x), rest, k)
    ensures First(Spell(x) + rest, k) == Take(|Spell(x)|, x)
  {
    var t := Spell(x);
    NoWord(t[0], k);
    hide Sane, First;
    if x == Placeholder {
      MarkFirst("?" + rest, k);
    } else if |t| == 2 {
      assert t == [t[0], '='];
      DoubleTaken(t[0], rest, k);
    } else {
      assert t == [t[0]];
      SingleTaken(t[0], rest, k);
    }
  }

  /** Punctuation begins no word and no number. */
  lemma NoWord(c: char, k: Classes)
    requires Sane(k)
    ensures c in SINGLE_OPS || c in MARKS || c == '!' || c == '?' ==> !k.letter(c) && c != '_' && !k.digit(c)
  {
    if c in SINGLE_OPS || c in MARKS || c == '!' || c == '?' {
      Underscore();
      assert c in SPACES + SINGLE_OPS + MARKS + "'?!_";
    }
  }

  lemma PieceTaken(p: Piece, rest: string, k: Classes)
    requires Sane(k) && Fits(p, rest, k)
    ensures First(TextOf(p) + rest, k) == match p case Gap(t) => Skip(|t|) case Tok(x) => Take(|Spell(x)|, x)
  {
    var u := TextOf(p) + rest;
    match p
    case Gap(t) =>
      if |t| == 1 && t[0] in SPACES {
        assert u[0] == t[0];
      } else {
        CommentTaken(t, rest, k);
      }
    case Tok(Word(s)) =>
      WordIs(s, k);
      WordStable(s, rest, k);
    case Tok(Number(s)) =>
      NumberIs(s, k);
      UnderscoreIsNoDigit(s[0], k);
      NumberStable(s, rest, k);
    case Tok(Str(s)) => LiteralTaken(s, rest, k);
    case Tok(x) => SignTaken(x, rest, k);
  }

  // ----- the whole text

  lemma {:induction false} CutExists(s: string, k: Classes) returns (ps: seq<Piece>)
    requires Sane(k) && Lex(s, k).Some?
    ensures Print(ps) == s && WellCut(ps, k) && TokensOf(ps) == Lex(s, k).value
    decreases |s|
  {
    match First(s, k)
    case Over => ps := [];
    case Skip(n) =>
      SkipFits(s, k);
      var rest := CutExists(s[n..], k);
      hide First, Fits;
      ps := [Gap(s[..n])] + rest;
      CutCons(Gap(s[..n]), rest, s, n, k);
    case Take(n, x) =>
      TakeFits(s, k);
      var rest := CutExists(s[n..], k);
      hide First, Fits, Spell;
      ps := [Tok(x)] + rest;
      CutCons(Tok(x), rest, s, n, k);
  }

  lemma CutCons(p: Piece, rest: seq<Piece>, s: string, n: nat, k: Classes)
    requires n <= |s| && TextOf(p) == s[..n] && Print(rest) == s[n..] && Fits(p, s[n..], k) && WellCut(rest, k)
    ensures Print([p] + rest) == s && WellCut([p] + rest, k)
    ensures TokensOf([p] + rest) == (match p case Gap(_) => [] case Tok(x) => [x]) + TokensOf(rest)
  {
    hide Fits;
    assert ([p] + rest)[1..] == rest;
  }

  lemma {:induction false} CutIsLexed(ps: seq<Piece>, k: Classes)
    requires Sane(k) && WellCut(ps, k)
    ensures Lex(Print(ps), k) == Some(TokensOf(ps))
    decreases |ps|
  {
    if ps != [] {
      var p, rest := ps[0], Print(ps[1..]);
      PieceTaken(p, rest, k);
      CutIsLexed(ps[1..], k);
      hide First, Fits;
      assert (TextOf(p) + rest)[|TextOf(p)|..] == rest;
      assert [] + TokensOf(ps[1..]) == TokensOf(ps[1..]);
    }
  }

  /** The tokenizer yields these tokens exactly when the text can be cut so that they are what is between
      the gaps; it raises exactly when the text cannot be cut at all. */
  lemma LexExact(s: string, ts: seq<Token>, k: Classes)
    requires Sane(k)
    ensures Lex(s, k) == Some(ts) <==> exists ps :: Print(ps) == s && WellCut(ps, k) && TokensOf(ps) == ts
    ensures Lex(s, k) == None <==> forall ps :: WellCut(ps, k) ==> Print(ps) != s
  {
    if Lex(s, k).Some? {
      var ps := CutExists(s, k);
      assert Print(ps) == s && WellCut(ps, k);
    }
    forall ps | Print(ps) == s && WellCut(ps, k) ensures Lex(s, k) == Some(TokensOf(ps)) {
      CutIsLexed(ps, k);
    }
  }

  /** Comments are quiet exactly when no gap of the cut holds a quote or a question mark. */
  lemma {:induction false} QuietExact(ps: seq<Piece>, k: Classes)
    requires Sane(k) && WellCut(ps, k)
    ensures QuietComments(Print(ps), k) <==> forall p <- ps :: p.Gap? ==> '\'' !in p.text && '?' !in p.text
    decreases |ps|
  {
    if ps != [] {
      var p, rest := ps[0], Print(ps[1..]);
      PieceTaken(p, rest, k);
      QuietExact(ps[1..], k);
      hide First, Fits, Spell;
      assert ps == [p] + ps[1..];
      assert (TextOf(p) + rest)[|TextOf(p)|..] == rest && (TextOf(p) + rest)[..|TextOf(p)|] == TextOf(p);
    }
  }
}
