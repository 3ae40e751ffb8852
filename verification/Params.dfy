/** Parameter substitution against the tokenizer: exactly when the substituted statement has the
    template's tokens with each placeholder replaced by the parameter's own. */
module Params {
  import opened Common
  import opened Lexer

  /** `_format_value` on a string: quotes doubled, the whole quoted. */
  function Double(p: string): string {
    if p == [] then [] else (if p[0] == '\'' then "''" else [p[0]]) + Double(p[1..])
  }

  function Format(p: string): string {
    "'" + Double(p) + "'"
  }

  // ----- the two scanning modes of `_substitute_params`; ps are the formatted parameters still to use

  function Outside(t: string, ps: seq<string>): string
    decreases |t|, 1
  {
    if t == [] then []
    else if t[0] == '\'' then "'" + Inside(t[1..], ps)
    else if t[0] == '?' && ps != [] then ps[0] + Outside(t[1..], ps[1..])
    else [t[0]] + Outside(t[1..], ps)
  }

  function Inside(t: string, ps: seq<string>): string
    decreases |t|, 0
  {
    if t == [] then []
    else if t[0] == '\'' then
      if |t| > 1 && t[1] == '\'' then "''" + Inside(t[2..], ps) else "'" + Outside(t[1..], ps)
    else [t[0]] + Inside(t[1..], ps)
  }

  /** Placeholders outside literals. */
  function Count(t: string, inString: bool): nat
    decreases |t|
  {
    if t == [] then 0
    else if inString then
      if t[0] == '\'' then if |t| > 1 && t[1] == '\'' then Count(t[2..], true) else Count(t[1..], false)
      else Count(t[1..], true)
    else if t[0] == '\'' then Count(t[1..], true)
    else (if t[0] == '?' then 1 else 0) + Count(t[1..], false)
  }

  function Rest(t: string, ps: seq<string>, inString: bool): string {
    if inString then Inside(t, ps) else Outside(t, ps)
  }

  /** `_substitute_params`, and how many parameters it used. */
  method SubstituteParams(sql: string, ps: seq<string>) returns (out: string, used: nat)
    ensures out == Outside(sql, ps)
    ensures used == if Count(sql, false) <= |ps| then Count(sql, false) else |ps|
  {
    out, used := [], 0;
    var inString, i := false, 0;
    assert sql[0..] == sql && ps[0..] == ps;
    while i < |sql|
      invariant i <= |sql| && used <= |ps|
      invariant out + Rest(sql[i..], ps[used..], inString) == Outside(sql, ps)
      invariant used + Least(Count(sql[i..], inString), |ps| - used) == Least(Count(sql, false), |ps|)
      decreases |sql| - i
    {
      var c := sql[i];
      Tail(sql, i);
      if inString {
        if c == '\'' && i + 1 < |sql| && sql[i + 1] == '\'' {
          Append(out, "''", Inside(sql[i + 2..], ps[used..]));
          out, i := out + "''", i + 2;
        } else {
          inString := c != '\'';
          Append(out, [c], Rest(sql[i + 1..], ps[used..], inString));
          out, i := out + [c], i + 1;
        }
      } else if c == '?' && used < |ps| {
        assert ps[used..][1..] == ps[used + 1..];
        Append(out, ps[used], Outside(sql[i + 1..], ps[used + 1..]));
        out, used, i := out + ps[used], used + 1, i + 1;
      } else {
        inString := c == '\'';
        Append(out, [c], Rest(sql[i + 1..], ps[used..], inString));
        out, i := out + [c], i + 1;
      }
    }
    assert sql[i..] == [] && out + [] == out;
  }

  function Least(a: int, b: int): int {
    if a <= b then a else b
  }

  lemma Tail(s: string, i: nat)
    requires i < |s|
    ensures s[i..] != [] && s[i..][0] == s[i] && s[i..][1..] == s[i + 1..]
    ensures i + 1 < |s| ==> |s[i..]| > 1 && s[i..][1] == s[i + 1] && s[i..][2..] == s[i + 2..]
    ensures i + 1 == |s| ==> |s[i..]| == 1
  {
  }

  lemma Append(a: string, b: string, c: string)
    ensures a + (b + c) == (a + b) + c
  {
  }

  /** The JDBC driver's count: the same number on every SQL string. */
  method CountPlaceholders(sql: string) returns (count: nat)
    ensures count == Count(sql, false)
  {
    count := 0;
    var inLiteral, i := false, 0;
    assert sql[0..] == sql;
    while i < |sql|
      invariant i <= |sql| && count + Count(sql[i..], inLiteral) == Count(sql, false)
      decreases |sql| - i
    {
      var c := sql[i];
      Tail(sql, i);
      if inLiteral {
        if c == '\'' {
          if i + 1 < |sql| && sql[i + 1] == '\'' {
            i := i + 1;
          } else {
            inLiteral := false;
          }
        }
      } else if c == '\'' {
        inLiteral := true;
      } else if c == '?' {
        count := count + 1;
      }
      i := i + 1;
    }
    assert sql[i..] == [];
  }

  /** No placeholder touches a quote or another placeholder. */
  predicate Spaced(t: string, inString: bool)
    decreases |t|
  {
    if t == [] then true
    else if inString then
      if t[0] == '\'' then
        if |t| > 1 && t[1] == '\'' then Spaced(t[2..], true) else (|t| > 1 ==> t[1] != '?') && Spaced(t[1..], false)
      else Spaced(t[1..], true)
    else if t[0] == '\'' then Spaced(t[1..], true)
    else if t[0] == '?' then (|t| > 1 ==> t[1] != '\'' && t[1] != '?') && Spaced(t[1..], false)
    else Spaced(t[1..], false)
  }

  // ----- parameters

  /** A string, an unsigned or negative number by its digits, or NULL, TRUE or FALSE. */
  datatype Param = Text(s: string) | Digits(s: string) | Minus(s: string) | Name(s: string)

  /** `_format_value`. */
  function Render(p: Param): string {
    match p
    case Text(s) => Format(s)
    case Digits(s) => s
    case Minus(s) => "-" + s
    case Name(s) => s
  }

  /** Digits are what the tokenizer takes for one number, names what it takes for one word. */
  predicate Proper(p: Param, k: Classes) {
    match p
    case Text(_) => true
    case Digits(s) => NumberText(s, k)
    case Minus(s) => NumberText(s, k)
    case Name(s) => WordText(s, k)
  }

  predicate NumberText(s: string, k: Classes) {
    s != [] && k.digit(s[0]) && !k.letter(s[0]) && NumberLen(s[1..], false, k) == |s| - 1
  }

  predicate WordText(s: string, k: Classes) {
    s != [] && (k.letter(s[0]) || s[0] == '_') && WordLen(s[1..], k) == |s| - 1
  }

  /** What it stands for. */
  function TokensFor(p: Param): seq<Token> {
    match p
    case Text(s) => [Str(s)]
    case Digits(s) => [Number(s)]
    case Minus(s) => [Op("-"), Number(s)]
    case Name(s) => [Word(s)]
  }

  function LastOf(p: Param): Token {
    match p
    case Text(s) => Str(s)
    case Digits(s) => Number(s)
    case Minus(s) => Number(s)
    case Name(s) => Word(s)
  }

  function Rendered(ps: seq<Param>): (r: seq<string>)
    ensures |r| == |ps| && forall i :: 0 <= i < |ps| ==> r[i] == Render(ps[i])
  {
    seq(|ps|, i requires 0 <= i < |ps| => Render(ps[i]))
  }

  predicate AllProper(ps: seq<Param>, k: Classes) {
    forall i :: 0 <= i < |ps| ==> Proper(ps[i], k)
  }

  lemma RenderedTail(ps: seq<Param>, k: Classes)
    requires ps != []
    ensures Rendered(ps)[1..] == Rendered(ps[1..]) && Rendered(ps)[0] == Render(ps[0])
    ensures AllProper(ps, k) ==> Proper(ps[0], k) && AllProper(ps[1..], k)
  {
  }

  /** The template's tokens with the placeholders filled in, in order. */
  function Fill(ts: seq<Token>, ps: seq<Param>): seq<Token> {
    if ts == [] then []
    else if ts[0] == Placeholder && ps != [] then TokensFor(ps[0]) + Fill(ts[1..], ps[1..])
    else [ts[0]] + Fill(ts[1..], ps)
  }

  function FillAll(ts: Option<seq<Token>>, ps: seq<Param>): Option<seq<Token>> {
    if ts.None? then None else Some(Fill(ts.value, ps))
  }

  // ----- conditions on templates

  predicate Bland(s: string) {
    '\'' !in s && '?' !in s
  }

  /** Comments hold neither quotes nor question marks. */
  predicate QuietComments(t: string, k: Classes)
    decreases |t|
  {
    match First(t, k)
    case Over => true
    case Bad => BlockComment(t) ==> Bland(t)
    case Skip(n) => Bland(t[..n]) && QuietComments(t[n..], k)
    case Take(n, _) => QuietComments(t[n..], k)
  }

  /** The first character of what substitution makes of the text. */
  function Head(t: string, ps: seq<Param>): Option<char> {
    if t == [] then None
    else if t[0] == '?' && ps != [] && Render(ps[0]) != [] then Some(Render(ps[0])[0])
    else Some(t[0])
  }

  /** The character would become part of the token before it. */
  predicate Fuses(x: Token, c: Option<char>, k: Classes) {
    c.Some? &&
    match x
    case Word(_) => WordChar(c.value, k)
    case Number(s) => k.digit(c.value) || (c.value == '.' && '.' !in s)
    case Str(_) => c.value == '\''
    case _ => false
  }

  /** No token and no parameter runs into what follows it. */
  predicate Apart(t: string, ps: seq<Param>, k: Classes)
    decreases |t|
  {
    match First(t, k)
    case Over => true
    case Bad => true
    case Skip(n) => Apart(t[n..], ps, k)
    case Take(n, x) =>
      if x == Placeholder && ps != [] then !Fuses(LastOf(ps[0]), Head(t[n..], ps[1..]), k) && Apart(t[n..], ps[1..], k)
      else !Fuses(x, Head(t[n..], ps), k) && Apart(t[n..], ps, k)
  }

  /** No negative number comes right behind a minus sign: the two would begin a comment. */
  predicate NoDashes(t: string, ps: seq<Param>, k: Classes)
    decreases |t|
  {
    match First(t, k)
    case Over => true
    case Bad => true
    case Skip(n) => NoDashes(t[n..], ps, k)
    case Take(n, x) =>
      if x == Placeholder && ps != [] then NoDashes(t[n..], ps[1..], k)
      else !(x == Op("-") && Head(t[n..], ps) == Some('-')) && NoDashes(t[n..], ps, k)
  }

  // ----- literals

  /** A doubled string closed by a single quote reads back exactly; followed by another quote, it reads
      on and comes out longer. */
  lemma {:induction false} ReadDoubled(p: string, r: string)
    ensures (r == [] || r[0] != '\'') ==> ReadLiteral(Double(p) + "'" + r) == Some(Literal(p, r))
    ensures r != [] && r[0] == '\'' ==>
              var q := ReadLiteral(Double(p) + "'" + r); q.Some? ==> |q.value.text| > |p|
    decreases |p|
  {
    var s := Double(p) + "'" + r;
    if p == [] {
      assert s == "'" + r;
      assert s[1..] == r;
    } else {
      var t := Double(p[1..]) + "'" + r;
      ReadDoubled(p[1..], r);
      DoubledStep(p, r);
      hide Double;
      assert [p[0]] + p[1..] == p;
    }
  }

  lemma DoubledStep(p: string, r: string)
    requires p != []
    ensures ReadLiteral(Double(p) + "'" + r) == Extend(p[0], ReadLiteral(Double(p[1..]) + "'" + r))
  {
    var s, t := Double(p) + "'" + r, Double(p[1..]) + "'" + r;
    if p[0] == '\'' {
      assert s == "''" + t;
      assert s[0] == '\'' && s[1] == '\'' && s[2..] == t;
    } else {
      assert s == [p[0]] + t;
      assert s[0] == p[0] && s[1..] == t;
    }
  }

  /** A literal reads the same whatever follows it, except another quote: then it reads on. */
  lemma {:induction false} LiteralFront(c: string, r: string, v: string)
    requires ReadLiteral(c + r).Some? && ReadLiteral(c + r).value.rest == r
    ensures v == [] || v[0] != '\'' ==> ReadLiteral(c + v) == Some(Literal(ReadLiteral(c + r).value.text, v))
    ensures v != [] && v[0] == '\'' && ReadLiteral(c + v).Some? ==>
              |ReadLiteral(c + v).value.text| > |ReadLiteral(c + r).value.text|
    decreases |c|
  {
    assert |c + r| > |r|;
    Split(c, r);
    Split(c, v);
    if c[0] == '\'' {
      if |c| > 1 {
        assert (c + r)[1] == c[1] && (c + v)[1] == c[1];
        Split(c[1..], r);
        Split(c[1..], v);
        assert c[1..][1..] == c[2..] && (c + r)[2..] == c[2..] + r && (c + v)[2..] == c[2..] + v;
        LiteralFront(c[2..], r, v);
      }
    } else {
      LiteralFront(c[1..], r, v);
    }
  }

  lemma Split(c: string, r: string)
    requires c != []
    ensures (c + r)[0] == c[0] && (c + r)[1..] == c[1..] + r
  {
  }

  // ----- substitution copies everything but placeholders

  predicate Plain(c: char) {
    c != '\'' && c != '?'
  }

  /** Characters that are neither quotes nor placeholders are copied. */
  lemma {:induction false} PlainRun(t: string, fs: seq<string>, n: nat)
    requires n <= |t| && forall i :: 0 <= i < n ==> Plain(t[i])
    ensures Outside(t, fs) == t[..n] + Outside(t[n..], fs)
    ensures Spaced(t, false) == Spaced(t[n..], false) && Count(t, false) == Count(t[n..], false)
    decreases n
  {
    if n == 0 {
      assert t[0..] == t;
    } else {
      PlainChar(t, fs);
      hide Outside, Spaced, Count;
      PlainRun(t[1..], fs, n - 1);
      assert t[1..][n - 1..] == t[n..];
      assert t[..n] == [t[0]] + t[1..][..n - 1];
      Append([t[0]], t[1..][..n - 1], Outside(t[n..], fs));
    }
  }

  lemma PlainChar(t: string, fs: seq<string>)
    requires t != [] && Plain(t[0])
    ensures Outside(t, fs) == [t[0]] + Outside(t[1..], fs)
    ensures Spaced(t, false) == Spaced(t[1..], false) && Count(t, false) == Count(t[1..], false)
  {
  }

  lemma AtEnd(r: string, fs: seq<string>)
    requires r == [] || r[0] != '\''
    ensures Inside("'" + r, fs) == "'" + Outside(r, fs) && Count("'" + r, true) == Count(r, false)
    ensures Spaced("'" + r, true) <==> (r == [] || r[0] != '?') && Spaced(r, false)
  {
    var s := "'" + r;
    assert s[0] == '\'' && s[1..] == r && (r != [] ==> s[1] == r[0]);
  }

  lemma AtDouble(x: string, fs: seq<string>)
    ensures Inside("''" + x, fs) == "''" + Inside(x, fs) && Count("''" + x, true) == Count(x, true)
    ensures Spaced("''" + x, true) <==> Spaced(x, true)
  {
    var s := "''" + x;
    assert s[0] == '\'' && s[1] == '\'' && s[2..] == x;
  }

  lemma AtChar(c: char, x: string, fs: seq<string>)
    requires c != '\''
    ensures Inside([c] + x, fs) == [c] + Inside(x, fs) && Count([c] + x, true) == Count(x, true)
    ensures Spaced([c] + x, true) <==> Spaced(x, true)
  {
    var s := [c] + x;
    assert s[0] == c && s[1..] == x;
  }

  /** A literal's text is the closing quote, or a doubled quote or another character and a literal's text. */
  lemma LiteralShape(c: string, r: string) returns (f: string)
    requires ReadLiteral(c + r).Some? && ReadLiteral(c + r).value.rest == r
    ensures c != []
    ensures || (c == "'" && (r == [] || r[0] != '\''))
            || ((c == "''" + f || (c == [c[0]] + f && c[0] != '\'')) && |f| < |c|
                && ReadLiteral(f + r).Some? && ReadLiteral(f + r).value.rest == r)
  {
    assert |c + r| > |r|;
    Split(c, r);
    f := c[1..];
    if c[0] != '\'' {
      assert c == [c[0]] + f;
    } else if |c| == 1 {
      assert c == "'" && f + r == r;
      assert r != [] ==> (c + r)[1] == r[0];
    } else {
      assert (c + r)[1] == c[1];
      Split(f, r);
      assert (c + r)[2..] == f[1..] + r;
      f := f[1..];
      assert c == "''" + f;
    }
  }

  /** So are literals. */
  lemma {:induction false} LiteralCopied(c: string, r: string, fs: seq<string>)
    requires ReadLiteral(c + r).Some? && ReadLiteral(c + r).value.rest == r
    ensures Inside(c + r, fs) == c + Outside(r, fs) && Count(c + r, true) == Count(r, false)
    ensures Spaced(c + r, true) <==> (r == [] || r[0] != '?') && Spaced(r, false)
    decreases |c|
  {
    hide Inside, Outside, Spaced, Count;
    var f := LiteralShape(c, r);
    hide ReadLiteral;
    if c == "'" && (r == [] || r[0] != '\'') {
      AtEnd(r, fs);
    } else {
      LiteralCopied(f, r, fs);
      if c == "''" + f {
        Append("''", f, r);
        Append("''", f, Outside(r, fs));
        AtDouble(f + r, fs);
      } else {
        Append([c[0]], f, r);
        Append([c[0]], f, Outside(r, fs));
        AtChar(c[0], f + r, fs);
      }
    }
  }

  lemma {:induction false} OpenLiteralCopied(t: string, fs: seq<string>)
    requires ReadLiteral(t).None?
    ensures Inside(t, fs) == t && Count(t, true) == 0
    decreases |t|
  {
    if t != [] {
      if t[0] == '\'' {
        OpenLiteralCopied(t[2..], fs);
        assert t == "''" + t[2..];
      } else {
        OpenLiteralCopied(t[1..], fs);
        assert t == [t[0]] + t[1..];
      }
    }
  }

  /** A word character is no punctuation. */
  lemma NotSpecial(c: char, k: Classes)
    requires Sane(k) && (WordChar(c, k) || c == '.')
    ensures Plain(c) && (WordChar(c, k) ==> c != '-' && c != '/' && c != '=' && c != '*' && c != '\n')
    ensures WordChar(c, k) ==> c !in SPACES && c !in SINGLE_OPS && c !in MARKS && c != '!' && c != '.'
  {
    if WordChar(c, k) {
      NotPunctuation(c, k);
      hide Sane;
      assert '-' in SINGLE_OPS && '/' in SINGLE_OPS && '=' in SINGLE_OPS && '*' in SINGLE_OPS;
      assert '\n' in SPACES && '.' in MARKS;
    }
  }

  lemma NotPunctuation(c: char, k: Classes)
    requires Sane(k) && WordChar(c, k)
    ensures c !in SPACES && c !in SINGLE_OPS && c !in MARKS && c != '\'' && c != '?' && c != '!'
  {
    var all := SPACES + SINGLE_OPS + MARKS + "'?!_";
    hide SPACES, SINGLE_OPS, MARKS;
    if c != '_' {
      assert c !in all;
      assert '\'' in "'?!_" && '?' in "'?!_" && '!' in "'?!_";
    } else {
      Underscore();
    }
  }

  lemma Underscore()
    ensures '_' !in SPACES && '_' !in SINGLE_OPS && '_' !in MARKS
  {
  }

  /** The characters of any token but a literal or a placeholder are plain. */
  lemma TokenIsPlain(t: string, k: Classes)
    requires Sane(k) && t != [] && t[0] != '\'' && t[0] != '?' && First(t, k).Take?
    ensures forall i :: 0 <= i < First(t, k).n ==> Plain(t[i])
  {
    var n := First(t, k).n;
    WordChars(t[1..], k);
    NumberChars(t[1..], false, k);
    forall i | 0 <= i < n ensures Plain(t[i]) {
      if i > 0 {
        assert t[i] == t[1..][i - 1];
      }
      if k.letter(t[0]) || t[0] == '_' || k.digit(t[0]) {
        NotSpecial(t[i], k);
      }
    }
  }

  /** One turn of the tokenizer, as substitution treats its text. */
  lemma TurnCopied(t: string, fs: seq<string>, k: Classes)
    requires Sane(k) && t != [] && t[0] != '?' && (First(t, k).Take? || First(t, k).Skip?)
    requires First(t, k).Skip? ==> Bland(t[..First(t, k).n])
    ensures var n := First(t, k).n;
            Outside(t, fs) == t[..n] + Outside(t[n..], fs)
            && Count(t, false) == Count(t[n..], false)
    ensures var r := t[First(t, k).n..];
            Spaced(t, false) <==> (t[0] == '\'' && r != [] ==> r[0] != '?') && Spaced(r, false)
  {
    if t[0] == '\'' {
      LiteralTurn(t, fs, k);
    } else {
      var n := First(t, k).n;
      if First(t, k).Take? {
        TokenIsPlain(t, k);
      } else {
        BlandIsPlain(t, n);
      }
      hide First, Outside, Spaced, Count;
      PlainRun(t, fs, n);
    }
  }

  lemma BlandIsPlain(t: string, n: nat)
    requires n <= |t| && Bland(t[..n])
    ensures forall i :: 0 <= i < n ==> Plain(t[i])
  {
    forall i | 0 <= i < n ensures Plain(t[i]) {
      assert t[i] == t[..n][i] && t[i] in t[..n];
    }
  }

  /** A literal and its value. */
  lemma FirstLiteral(t: string, k: Classes) returns (c: string, r: string)
    requires t != [] && t[0] == '\'' && First(t, k).Take?
    ensures t[..First(t, k).n] == "'" + c && t[First(t, k).n..] == r && t[1..] == c + r
    ensures ReadLiteral(c + r) == Some(Literal(First(t, k).x.text, r)) && First(t, k).x.Str?
  {
    QuoteFirst(t, k);
    hide First;
    r := ReadLiteral(t[1..]).value.rest;
    c := LiteralParts(t[1..]);
    hide ReadLiteral;
    Front(t, "'" + c, r);
  }

  lemma Front(t: string, a: string, r: string)
    requires t != [] && a != [] && a[0] == t[0] && t[1..] == a[1..] + r
    ensures t == a + r && t[..|a|] == a && t[|a|..] == r && |t| - |r| == |a|
  {
    Split(a, r);
    assert t == [t[0]] + t[1..];
  }

  lemma LiteralTurn(t: string, fs: seq<string>, k: Classes)
    requires t != [] && t[0] == '\'' && First(t, k).Take?
    ensures var n := First(t, k).n;
            Outside(t, fs) == t[..n] + Outside(t[n..], fs)
            && Count(t, false) == Count(t[n..], false)
    ensures var r := t[First(t, k).n..]; Spaced(t, false) <==> (r != [] ==> r[0] != '?') && Spaced(r, false)
  {
    var c, r := FirstLiteral(t, k);
    hide First, ReadLiteral;
    LiteralCopied(c, r, fs);
    Append("'", c, Outside(r, fs));
  }

  // ----- a turn on the same text with something else behind it

  /** The rest of the template, and what substitution made of it. */
  predicate Joined(r: string, v: string, k: Classes) {
    && (r == [] <==> v == [])
    && (v != [] ==> v[0] == r[0] || (r[0] == '?' && (v[0] == '\'' || v[0] == '-' || WordChar(v[0], k))))
  }

  function FirstOf(v: string): Option<char> {
    if v == [] then None else Some(v[0])
  }

  lemma WordStable(c: string, v: string, k: Classes)
    requires Sane(k) && WordText(c, k)
    ensures First(c + v, k).Take?
    ensures if Fuses(Word(c), FirstOf(v), k) then First(c + v, k).x != Word(c)
            else First(c + v, k) == Take(|c|, Word(c))
  {
    Split(c, v);
    WordFirst(c + v, k);
    hide First, Sane;
    WordLenAppend(c[1..], v, k);
    assert WordLen(v, k) > 0 <==> Fuses(Word(c), FirstOf(v), k);
    assert (c + v)[..|c|] == c;
  }

  lemma WordFirst(u: string, k: Classes)
    requires Sane(k) && u != [] && (k.letter(u[0]) || u[0] == '_')
    ensures var n := 1 + WordLen(u[1..], k); First(u, k) == Take(n, Word(u[..n]))
  {
    NotSpecial(u[0], k);
    hide Sane, WordLen;
  }

  lemma NumberFirst(u: string, k: Classes)
    requires Sane(k) && u != [] && k.digit(u[0]) && !k.letter(u[0]) && u[0] != '_'
    ensures var n := 1 + NumberLen(u[1..], false, k); First(u, k) == Take(n, Number(u[..n]))
  {
    NotSpecial(u[0], k);
    hide Sane, NumberLen;
  }

  lemma NumberStable(c: string, v: string, k: Classes)
    requires Sane(k) && NumberText(c, k) && c[0] != '_'
    ensures First(c + v, k).Take? && First(c + v, k).x.Number?
    ensures if Fuses(Number(c), FirstOf(v), k) then First(c + v, k).x != Number(c)
            else First(c + v, k) == Take(|c|, Number(c))
  {
    Split(c, v);
    NotADigit(k);
    NumberLenAppend(c[1..], v, false, k);
    NumberFirst(c + v, k);
    hide First, Sane;
    assert '.' in c <==> '.' in c[1..] by { assert c == [c[0]] + c[1..]; }
    assert (c + v)[..|c|] == c;
  }

  lemma NotADigit(k: Classes)
    requires Sane(k)
    ensures !k.digit('.')
  {
    assert '.' in MARKS;
    assert '.' in SPACES + SINGLE_OPS + MARKS + "'?!_";
  }

  lemma LiteralStable(t: string, v: string, k: Classes)
    requires t != [] && t[0] == '\'' && First(t, k).Take?
    ensures var n, x, turn := First(t, k).n, First(t, k).x, First(t[..First(t, k).n] + v, k);
            if Fuses(x, FirstOf(v), k) then turn.Bad? || (turn.Take? && turn.x != x) else turn == Take(n, x)
  {
    var n := First(t, k).n;
    var c, r := FirstLiteral(t, k);
    hide First;
    LiteralFront(c, r, v);
    hide ReadLiteral;
    var u := t[..n] + v;
    QuoteThen(c, v);
    QuoteFirst(u, k);
    assert |t[..n]| == n;
  }

  lemma QuoteThen(c: string, v: string)
    ensures var u := ("'" + c) + v; u != [] && u[0] == '\'' && u[1..] == c + v && |u| == 1 + |c| + |v|
  {
  }

  lemma QuoteFirst(u: string, k: Classes)
    requires u != [] && u[0] == '\''
    ensures var q := ReadLiteral(u[1..]);
            First(u, k) == if q.None? then Bad else Take(|u| - |q.value.rest|, Str(q.value.text))
  {
    hide ReadLiteral;
  }

  lemma OpStable(t: string, v: string, k: Classes)
    requires Sane(k) && t != [] && First(t, k).Take? && (First(t, k).x.Op? || First(t, k).x.Mark?)
    requires Joined(t[First(t, k).n..], v, k) && !(First(t, k).x == Op("-") && FirstOf(v) == Some('-'))
    ensures First(t[..First(t, k).n] + v, k) == First(t, k)
  {
    var n, x := First(t, k).n, First(t, k).x;
    var c, r := t[..n], t[n..];
    var u := c + v;
    assert t == c + r && u[0] == t[0] && u[..n] == c;
    if v != [] && WordChar(v[0], k) {
      NotSpecial(v[0], k);
    }
    if n == 1 {
      assert v != [] ==> u[1] == v[0] && t[1] == r[0];
      assert r != [] ==> |t| > 1;
    } else {
      assert u[1] == c[1] == t[1];
    }
  }

  lemma TakeStable(t: string, v: string, k: Classes)
    requires Sane(k) && t != [] && t[0] != '?' && First(t, k).Take?
    requires Joined(t[First(t, k).n..], v, k) && !(First(t, k).x == Op("-") && FirstOf(v) == Some('-'))
    ensures var n, x, turn := First(t, k).n, First(t, k).x, First(t[..First(t, k).n] + v, k);
            if Fuses(x, FirstOf(v), k) then turn.Bad? || (turn.Take? && turn.x != x) else turn == Take(n, x)
  {
    var c, x := t[..First(t, k).n], First(t, k).x;
    if t[0] == '\'' {
      LiteralStable(t, v, k);
    } else if x.Word? {
      FrontIsWord(t, k);
      hide First, Sane;
      WordStable(c, v, k);
    } else if x.Number? {
      FrontIsNumber(t, k);
      hide First, Sane;
      NumberStable(c, v, k);
    } else {
      OpStable(t, v, k);
    }
  }

  lemma FrontIsWord(t: string, k: Classes)
    requires t != [] && First(t, k).Take? && First(t, k).x.Word?
    ensures var n := First(t, k).n; WordText(t[..n], k) && First(t, k).x == Word(t[..n])
  {
    var n := First(t, k).n;
    WordLenFront(t[1..], k);
    assert t[..n][1..] == t[1..][..n - 1];
    hide WordLen;
  }

  lemma FrontIsNumber(t: string, k: Classes)
    requires t != [] && First(t, k).Take? && First(t, k).x.Number?
    ensures var n := First(t, k).n; NumberText(t[..n], k) && t[0] != '_' && First(t, k).x == Number(t[..n])
  {
    var n := First(t, k).n;
    NumberLenFront(t[1..], false, k);
    assert t[..n][1..] == t[1..][..n - 1];
    hide NumberLen;
  }

  lemma {:induction false} SkipLineFront(a: string, r: string, v: string)
    requires SkipLine(a + r) == r
    ensures r == [] || r[0] == '\n'
    ensures v == [] || v[0] == '\n' ==> SkipLine(a + v) == v
    decreases |a|
  {
    if a == [] {
      assert a + r == r && a + v == v;
    } else {
      Split(a, r);
      Split(a, v);
      assert |a + r| > |r|;
      SkipLineFront(a[1..], r, v);
    }
  }

  lemma {:induction false} SkipBlockFront(a: string, r: string, v: string)
    requires SkipBlock(a + r) == Some(r)
    ensures SkipBlock(a + v) == Some(v)
    decreases |a|
  {
    assert |a + r| > |r|;
    Split(a, r);
    Split(a, v);
    NotOne(a, r);
    if |a| > 1 {
      Split(a[1..], r);
      Split(a[1..], v);
      assert a[1..][1..] == a[2..] && (a + r)[2..] == a[2..] + r && (a + v)[2..] == a[2..] + v;
      if a[0] == '*' && a[1] == '/' {
        assert a[2..] + r == r;
        assert |a[2..]| == 0;
        assert a[2..] + v == v;
      } else if a[0] == '/' && a[1] == '*' {
        SkipBlockFront(a[2..], r, v);
      } else {
        SkipBlockFront(a[1..], r, v);
      }
    }
  }

  lemma NotOne(a: string, r: string)
    requires a != [] && SkipBlock(a + r) == Some(r)
    ensures |a| > 1
  {
    Split(a, r);
    if |a| == 1 {
      assert a[1..] + r == r;
    }
  }

  lemma SkipStable(t: string, v: string, k: Classes)
    requires Sane(k) && First(t, k).Skip? && Joined(t[First(t, k).n..], v, k)
    ensures First(t[..First(t, k).n] + v, k) == First(t, k)
  {
    if t[0] in SPACES {
      assert (t[..1] + v)[0] == t[0];
    } else if LineComment(t) {
      LineStable(t, v, k);
    } else {
      BlockStable(t, v, k);
    }
  }

  lemma LineFirst(u: string, k: Classes)
    requires LineComment(u)
    ensures First(u, k) == Skip(|u| - |SkipLine(u[1..])|)
  {
    assert '-' !in SPACES;
    hide SkipLine;
  }

  lemma BlockFirst(u: string, k: Classes)
    requires BlockComment(u)
    ensures First(u, k) == match SkipBlock(u[2..]) case None => Bad case Some(r) => Skip(|u| - |r|)
  {
    assert '/' !in SPACES;
    hide SkipBlock;
  }

  lemma LineStable(t: string, v: string, k: Classes)
    requires LineComment(t) && Joined(t[First(t, k).n..], v, k)
    ensures First(t, k).Skip? && First(t[..First(t, k).n] + v, k) == First(t, k)
  {
    LineFirst(t, k);
    hide First;
    var r := SkipLine(t[1..]);
    var a := SkipLineParts(t[1..]);
    Front(t, "-" + a, r);
    assert t[1..][0] == '-' && |a| > 0 && a[0] == '-' by { NotEmptySkip(t, a, r); }
    hide SkipLine;
    SkipLineFront(a, r, v);
    var u := ("-" + a) + v;
    assert u[0] == '-' && u[1] == '-' && u[1..] == a + v;
    LineFirst(u, k);
  }

  lemma NotEmptySkip(t: string, a: string, r: string)
    requires LineComment(t) && t[1..] == a + r && r == SkipLine(t[1..])
    ensures t[1..][0] == '-' && |a| > 0 && a[0] == '-'
  {
    assert t[1..][0] == '-';
    assert |r| < |t[1..]|;
    Split(a, r);
  }

  lemma BlockStable(t: string, v: string, k: Classes)
    requires BlockComment(t) && First(t, k).Skip?
    ensures First(t[..First(t, k).n] + v, k) == First(t, k)
  {
    BlockFirst(t, k);
    hide First;
    var r := SkipBlock(t[2..]).value;
    var a := SkipBlockParts(t[2..]);
    SkipBlockFront(a, r, v);
    hide SkipBlock;
    assert t == ("/*" + a) + r && |t| - |r| == |"/*" + a| by { assert t == t[..2] + t[2..]; }
    var u := ("/*" + a) + v;
    assert t[..|"/*" + a|] == "/*" + a;
    assert u[0] == '/' && u[1] == '*' && u[2..] == a + v;
    BlockFirst(u, k);
  }

  // ----- parameters among tokens

  function Prepend(xs: seq<Token>, r: Option<seq<Token>>): Option<seq<Token>> {
    if r.None? then None else Some(xs + r.value)
  }

  /** What substitution makes of a text begins as `Head` says. */
  lemma HeadIs(r: string, ps: seq<Param>, k: Classes)
    requires Sane(k) && AllProper(ps, k)
    ensures var v := Outside(r, Rendered(ps)); Joined(r, v, k) && FirstOf(v) == Head(r, ps)
  {
    if r != [] && r[0] == '?' && ps != [] {
      RenderedTail(ps, k);
      var p := ps[0];
      assert Render(p) != [] && (Render(p)[0] == '\'' || Render(p)[0] == '-' || WordChar(Render(p)[0], k));
      assert Outside(r, Rendered(ps)) == Render(p) + Outside(r[1..], Rendered(ps)[1..]);
    }
  }

  /** The turn decides. */
  lemma LexTake(u: string, k: Classes, n: nat, x: Token)
    requires First(u, k) == Take(n, x)
    ensures Lex(u, k) == Cons(x, Lex(u[n..], k))
  {
  }

  /** Text whose first turn is not this token. */
  lemma LexOther(u: string, k: Classes, x: Token, o: Option<seq<Token>>)
    requires First(u, k).Bad? || (First(u, k).Take? && First(u, k).x != x)
    requires o.Some?
    ensures Lex(u, k) != Cons(x, o)
  {
    if First(u, k).Take? {
      var y, rest := First(u, k).x, Lex(u[First(u, k).n..], k);
      if rest.Some? {
        assert ([y] + rest.value)[0] == y && ([x] + o.value)[0] == x;
      }
    }
  }

  lemma ConsSame(x: Token, a: Option<seq<Token>>, b: Option<seq<Token>>)
    ensures Cons(x, a) == Cons(x, b) <==> a == b
  {
    if a.Some? && b.Some? {
      assert ([x] + a.value)[1..] == a.value && ([x] + b.value)[1..] == b.value;
    }
  }

  /** A rendered parameter with something behind it gives the parameter's tokens and then the rest's,
      exactly when its last token does not run on. */
  lemma RenderLex(p: Param, v: string, k: Classes)
    requires Sane(k) && Proper(p, k)
    ensures !Fuses(LastOf(p), FirstOf(v), k) ==> Lex(Render(p) + v, k) == Prepend(TokensFor(p), Lex(v, k))
    ensures Fuses(LastOf(p), FirstOf(v), k) ==>
              forall o: Option<seq<Token>> :: o.Some? ==> Lex(Render(p) + v, k) != Prepend(TokensFor(p), o)
  {
    match p
    case Text(s) => TextLex(s, v, k);
    case Digits(s) => NumberLex(s, v, k);
    case Name(s) =>
      WordStable(s, v, k);
      OneToken(s, v, k, Word(s));
    case Minus(s) =>
      NumberLex(s, v, k);
      MinusLex(s, v, k);
  }

  /** One solid token. */
  lemma OneToken(c: string, v: string, k: Classes, x: Token)
    requires if Fuses(x, FirstOf(v), k) then First(c + v, k).Bad? || (First(c + v, k).Take? && First(c + v, k).x != x)
             else First(c + v, k) == Take(|c|, x)
    ensures !Fuses(x, FirstOf(v), k) ==> Lex(c + v, k) == Prepend([x], Lex(v, k))
    ensures Fuses(x, FirstOf(v), k) ==> forall o: Option<seq<Token>> :: o.Some? ==> Lex(c + v, k) != Prepend([x], o)
  {
    hide First;
    if !Fuses(x, FirstOf(v), k) {
      LexTake(c + v, k, |c|, x);
      assert (c + v)[|c|..] == v;
    } else {
      forall o: Option<seq<Token>> | o.Some? ensures Lex(c + v, k) != Prepend([x], o) {
        LexOther(c + v, k, x, o);
      }
    }
  }

  lemma NumberLex(s: string, v: string, k: Classes)
    requires Sane(k) && NumberText(s, k)
    ensures !Fuses(Number(s), FirstOf(v), k) ==> Lex(s + v, k) == Prepend([Number(s)], Lex(v, k))
    ensures Fuses(Number(s), FirstOf(v), k) ==>
              forall o: Option<seq<Token>> :: o.Some? ==> Lex(s + v, k) != Prepend([Number(s)], o)
  {
    UnderscoreIsNoDigit(s[0], k);
    NumberStable(s, v, k);
    OneToken(s, v, k, Number(s));
  }

  lemma UnderscoreIsNoDigit(c: char, k: Classes)
    requires Sane(k) && k.digit(c)
    ensures c != '_' && c != '-' && c != '=' && c != '\n'
  {
    assert '_' in SPACES + SINGLE_OPS + MARKS + "'?!_";
    NotSpecial(c, k);
  }

  lemma TextLex(s: string, v: string, k: Classes)
    ensures !Fuses(Str(s), FirstOf(v), k) ==> Lex(Format(s) + v, k) == Prepend([Str(s)], Lex(v, k))
    ensures Fuses(Str(s), FirstOf(v), k) ==>
              forall o: Option<seq<Token>> :: o.Some? ==> Lex(Format(s) + v, k) != Prepend([Str(s)], o)
  {
    var u := Format(s) + v;
    ReadDoubled(s, v);
    assert u[0] == '\'' && u[1..] == Double(s) + "'" + v;
    QuoteFirst(u, k);
    hide Double, ReadLiteral;
    OneToken(Format(s), v, k, Str(s));
  }

  lemma MinusLex(s: string, v: string, k: Classes)
    requires Sane(k) && NumberText(s, k)
    ensures Lex("-" + s + v, k) == Cons(Op("-"), Lex(s + v, k))
    ensures forall o: Option<seq<Token>> :: Prepend([Op("-"), Number(s)], o) == Cons(Op("-"), Prepend([Number(s)], o))
    ensures forall o: Option<seq<Token>> :: Lex(s + v, k) != o ==> Lex("-" + s + v, k) != Cons(Op("-"), o)
  {
    var u := "-" + s + v;
    UnderscoreIsNoDigit(s[0], k);
    assert u[0] == '-' && u[1] == s[0] && u[1..] == s + v;
    MinusFirst(u, k);
    LexTake(u, k, 1, Op("-"));
    hide First, Lex;
    forall o: Option<seq<Token>> ensures Prepend([Op("-"), Number(s)], o) == Cons(Op("-"), Prepend([Number(s)], o)) {
      if o.Some? {
        assert [Op("-"), Number(s)] + o.value == [Op("-")] + ([Number(s)] + o.value);
      }
    }
    forall o: Option<seq<Token>> | Lex(s + v, k) != o ensures Lex(u, k) != Cons(Op("-"), o) {
      ConsSame(Op("-"), Lex(s + v, k), o);
    }
  }

  lemma MinusFirst(u: string, k: Classes)
    requires Sane(k) && |u| > 1 && u[0] == '-' && u[1] != '-'
    ensures First(u, k) == Take(1, Op("-"))
  {
    assert '-' in SINGLE_OPS && '-' !in SPACES;
    assert '-' in SPACES + SINGLE_OPS + MARKS + "'?!_";
    assert u[..1] == "-";
  }

  lemma FillCons(x: Token, ts: Option<seq<Token>>, ps: seq<Param>)
    ensures x != Placeholder || ps == [] ==> FillAll(Cons(x, ts), ps) == Cons(x, FillAll(ts, ps))
    ensures x == Placeholder && ps != [] ==> FillAll(Cons(x, ts), ps) == Prepend(TokensFor(ps[0]), FillAll(ts, ps[1..]))
  {
    if ts.Some? {
      assert ([x] + ts.value)[1..] == ts.value;
    }
  }

  // ----- the theorem

  ghost predicate Agrees(t: string, ps: seq<Param>, k: Classes) {
    Lex(Outside(t, Rendered(ps)), k) == FillAll(Lex(t, k), ps)
  }

  ghost predicate Claim(t: string, ps: seq<Param>, k: Classes) {
    && (Apart(t, ps, k) ==> Agrees(t, ps, k))
    && (!Apart(t, ps, k) && Lex(t, k).Some? ==> !Agrees(t, ps, k))
  }

  lemma SkipStep(t: string, ps: seq<Param>, k: Classes)
    requires Sane(k) && First(t, k).Skip? && Bland(t[..First(t, k).n]) && AllProper(ps, k)
    requires Claim(t[First(t, k).n..], ps, k)
    ensures Claim(t, ps, k)
  {
    var n := First(t, k).n;
    var r, fs := t[n..], Rendered(ps);
    SkipsNoMark(t, k);
    TurnCopied(t, fs, k);
    HeadIs(r, ps, k);
    var u, v := Outside(t, fs), Outside(r, fs);
    hide Outside, Spaced, Count;
    SkipStable(t, v, k);
    assert u[n..] == v;
    hide First;
  }

  lemma SkipsNoMark(t: string, k: Classes)
    requires First(t, k).Skip?
    ensures t != [] && t[0] != '?'
  {
    assert '?' !in SPACES;
  }

  lemma TakeStep(t: string, ps: seq<Param>, k: Classes)
    requires Sane(k) && First(t, k).Take? && t[0] != '?' && AllProper(ps, k)
    requires var n, x := First(t, k).n, First(t, k).x;
             x != Placeholder && Claim(t[n..], ps, k) && !(x == Op("-") && Head(t[n..], ps) == Some('-'))
    ensures Claim(t, ps, k)
  {
    var n, x := First(t, k).n, First(t, k).x;
    var r, fs := t[n..], Rendered(ps);
    TurnCopied(t, fs, k);
    HeadIs(r, ps, k);
    var u, v := Outside(t, fs), Outside(r, fs);
    hide Outside, Spaced, Count;
    TakeStable(t, v, k);
    LexTake(t, k, n, x);
    FillCons(x, Lex(r, k), ps);
    assert u == t[..n] + v && u[n..] == v;
    ApartTake(t, ps, k);
    hide First, Apart, Head, Fuses, Fill;
    if Fuses(x, Head(r, ps), k) {
      if Lex(r, k).Some? {
        LexOther(u, k, x, FillAll(Lex(r, k), ps));
      }
    } else {
      LexTake(u, k, n, x);
      hide Lex;
      ConsSame(x, Lex(v, k), FillAll(Lex(r, k), ps));
    }
  }

  lemma ApartTake(t: string, ps: seq<Param>, k: Classes)
    requires First(t, k).Take? && First(t, k).x != Placeholder
    ensures var n, x := First(t, k).n, First(t, k).x;
            Apart(t, ps, k) <==> !Fuses(x, Head(t[n..], ps), k) && Apart(t[n..], ps, k)
  {
    hide First;
  }

  lemma NoDashesTake(t: string, ps: seq<Param>, k: Classes)
    requires First(t, k).Take? && First(t, k).x != Placeholder
    ensures var n, x := First(t, k).n, First(t, k).x;
            NoDashes(t, ps, k) <==> !(x == Op("-") && Head(t[n..], ps) == Some('-')) && NoDashes(t[n..], ps, k)
  {
    hide First;
  }

  lemma MarkFirst(t: string, k: Classes)
    requires Sane(k) && t != [] && t[0] == '?'
    ensures First(t, k) == Take(1, Placeholder)
  {
    assert '?' in SPACES + SINGLE_OPS + MARKS + "'?!_";
  }

  lemma MarkStep(t: string, ps: seq<Param>, k: Classes)
    requires Sane(k) && t != [] && t[0] == '?' && AllProper(ps, k)
    requires Claim(t[1..], if ps == [] then [] else ps[1..], k)
    ensures Claim(t, ps, k)
  {
    var r, fs := t[1..], Rendered(ps);
    MarkFirst(t, k);
    LexTake(t, k, 1, Placeholder);
    FillCons(Placeholder, Lex(r, k), ps);
    var u := Outside(t, fs);
    if ps == [] {
      var v := Outside(r, fs);
      assert u == ['?'] + v && u[1..] == v;
      MarkFirst(u, k);
      LexTake(u, k, 1, Placeholder);
      hide First, Lex, Outside;
      ConsSame(Placeholder, Lex(v, k), FillAll(Lex(r, k), ps));
    } else {
      FilledStep(t, ps, k);
    }
  }

  lemma FilledStep(t: string, ps: seq<Param>, k: Classes)
    requires Sane(k) && t != [] && t[0] == '?' && ps != [] && AllProper(ps, k) && Claim(t[1..], ps[1..], k)
    requires First(t, k) == Take(1, Placeholder) && Lex(t, k) == Cons(Placeholder, Lex(t[1..], k))
    requires FillAll(Lex(t, k), ps) == Prepend(TokensFor(ps[0]), FillAll(Lex(t[1..], k), ps[1..]))
    ensures Claim(t, ps, k)
  {
    var r, p := t[1..], ps[0];
    RenderedTail(ps, k);
    var v := Outside(r, Rendered(ps[1..]));
    assert Outside(t, Rendered(ps)) == Render(p) + v;
    HeadIs(r, ps[1..], k);
    assert Apart(t, ps, k) <==> !Fuses(LastOf(p), FirstOf(v), k) && Apart(r, ps[1..], k);
    RenderLex(p, v, k);
    hide First, Lex, Outside, Apart, Head, Fuses, Fill, Render, Sane;
    if !Fuses(LastOf(p), FirstOf(v), k) {
      PrependSame(TokensFor(p), Lex(v, k), FillAll(Lex(r, k), ps[1..]));
    }
  }

  lemma PrependSame(xs: seq<Token>, a: Option<seq<Token>>, b: Option<seq<Token>>)
    ensures Prepend(xs, a) == Prepend(xs, b) <==> a == b
  {
    if a.Some? && b.Some? {
      assert (xs + a.value)[|xs|..] == a.value && (xs + b.value)[|xs|..] == b.value;
    }
  }

  /** A text that cannot be tokenized is not saved by substitution. */
  lemma BadStep(t: string, ps: seq<Param>, k: Classes)
    requires Sane(k) && First(t, k).Bad? && AllProper(ps, k) && (BlockComment(t) ==> Bland(t))
    ensures Claim(t, ps, k)
  {
    var fs := Rendered(ps);
    var u := Outside(t, fs);
    if t[0] == '\'' {
      OpenLiteralCopied(t[1..], fs);
      assert u == t;
    } else if BlockComment(t) {
      assert t[..|t|] == t;
      BlandIsPlain(t, |t|);
      PlainRun(t, fs, |t|);
      assert u == t;
    } else {
      assert t[0] != '?';
      HeadIs(t[1..], ps, k);
      PlainRun(t, fs, 1);
      OddChar(t, Outside(t[1..], fs), k);
      assert t[..1] == [t[0]];
    }
  }

  lemma OddChar(t: string, v: string, k: Classes)
    requires Sane(k) && First(t, k).Bad? && !BlockComment(t) && t[0] != '\'' && Joined(t[1..], v, k)
    ensures First([t[0]] + v, k).Bad?
  {
    var u := [t[0]] + v;
    assert '-' in SINGLE_OPS && '/' in SINGLE_OPS && '<' in SINGLE_OPS && '>' in SINGLE_OPS;
    if v != [] {
      assert u[1] == v[0] && t[1] == t[1..][0];
      if WordChar(v[0], k) {
        NotSpecial(v[0], k);
      }
    }
  }

  lemma {:induction false} TokensExact(t: string, ps: seq<Param>, k: Classes)
    requires Sane(k) && QuietComments(t, k) && AllProper(ps, k) && NoDashes(t, ps, k)
    ensures Claim(t, ps, k)
    decreases |t|
  {
    match First(t, k)
    case Over =>
    case Bad => BadStep(t, ps, k);
    case Skip(n) =>
      TokensExact(t[n..], ps, k);
      SkipStep(t, ps, k);
    case Take(n, x) =>
      if t[0] == '?' {
        MarkFirst(t, k);
        TokensExact(t[1..], if ps == [] then [] else ps[1..], k);
        hide First, Claim;
        MarkStep(t, ps, k);
      } else {
        TokensExact(t[n..], ps, k);
        hide Claim;
        TakeStep(t, ps, k);
      }
  }

  /** Substitution commutes with tokenizing: for every template that tokenizes, its comments free of quotes
      and question marks, and any strings, numbers and names, no negative number right behind a minus
      sign: the substituted statement has exactly the template's tokens with each placeholder replaced by
      its parameter's, if and only if no token and no parameter runs into what follows it. */
  lemma SubstitutionExact(t: string, ps: seq<Param>, k: Classes)
    requires Sane(k) && QuietComments(t, k) && Lex(t, k).Some? && AllProper(ps, k) && NoDashes(t, ps, k)
    ensures Lex(Outside(t, Rendered(ps)), k) == Some(Fill(Lex(t, k).value, ps)) <==> Apart(t, ps, k)
  {
    TokensExact(t, ps, k);
  }

  // ----- strings only

  predicate AllText(ps: seq<Param>) {
    forall i :: 0 <= i < |ps| ==> ps[i].Text?
  }

  /** What comes after a token of the template or after a literal, when all parameters are strings. */
  lemma TextHead(r: string, ps: seq<Param>)
    requires AllText(ps)
    ensures Head(r, ps) == if r == [] then None else if r[0] == '?' && ps != [] then Some('\'') else Some(r[0])
  {
  }

  /** The tokenizer takes as much as it can: a token never runs into the template's next character. */
  lemma Maximal(t: string, k: Classes)
    requires Sane(k) && First(t, k).Take? && t[0] != '?'
    ensures var n, x := First(t, k).n, First(t, k).x;
            && !Fuses(x, FirstOf(t[n..]), k) && !(x == Op("-") && FirstOf(t[n..]) == Some('-'))
            && (!x.Str? ==> !Fuses(x, Some('\''), k)) && (x.Str? <==> t[0] == '\'')
  {
    var n, x := First(t, k).n, First(t, k).x;
    var r := t[n..];
    assert t == t[..n] + r;
    QuoteIsNoWord(k);
    if t[0] == '\'' {
      LiteralStable(t, r, k);
    } else if x.Word? {
      FrontIsWord(t, k);
      WordStable(t[..n], r, k);
    } else if x.Number? {
      FrontIsNumber(t, k);
      NumberStable(t[..n], r, k);
    } else if r != [] {
      assert n == 1 ==> t[1] == r[0];
    }
  }

  lemma QuoteIsNoWord(k: Classes)
    requires Sane(k)
    ensures !WordChar('\'', k)
  {
    assert '\'' in SPACES + SINGLE_OPS + MARKS + "'?!_";
  }

  ghost predicate KeptApart(t: string, ps: seq<Param>, k: Classes) {
    NoDashes(t, ps, k) && (Apart(t, ps, k) <==> Spaced(t, false))
  }

  lemma TextSkip(t: string, ps: seq<Param>, k: Classes)
    requires Sane(k) && First(t, k).Skip? && Bland(t[..First(t, k).n]) && KeptApart(t[First(t, k).n..], ps, k)
    ensures KeptApart(t, ps, k) && Count(t, false) == Count(t[First(t, k).n..], false)
  {
    SkipsNoMark(t, k);
    assert t[0] != '\'';
    TurnCopied(t, [], k);
    hide Outside, Spaced, Count, First;
  }

  lemma TextTake(t: string, ps: seq<Param>, k: Classes)
    requires Sane(k) && First(t, k).Take? && t[0] != '?' && AllText(ps) && Count(t, false) <= |ps|
    requires KeptApart(t[First(t, k).n..], ps, k)
    ensures KeptApart(t, ps, k)
  {
    var n, x := First(t, k).n, First(t, k).x;
    var r := t[n..];
    assert x != Placeholder && (r != [] && r[0] == '?' ==> Count(r, false) > 0);
    hide Outside, First, Sane, Spaced, Count, Head, Apart, NoDashes;
    TurnCopied(t, [], k);
    Maximal(t, k);
    TextHead(r, ps);
    ApartTake(t, ps, k);
    NoDashesTake(t, ps, k);
  }

  lemma TextMark(t: string, ps: seq<Param>, k: Classes)
    requires Sane(k) && t != [] && t[0] == '?' && AllText(ps) && Count(t, false) <= |ps|
    requires ps != [] && KeptApart(t[1..], ps[1..], k)
    ensures KeptApart(t, ps, k)
  {
    var r := t[1..];
    MarkFirst(t, k);
    TextHead(r, ps[1..]);
    assert r != [] && r[0] == '?' ==> Count(r, false) > 0 && |ps| > 1;
    hide First, Sane;
  }

  lemma {:induction false} TextsKeepApart(t: string, ps: seq<Param>, k: Classes)
    requires Sane(k) && QuietComments(t, k) && AllText(ps) && Count(t, false) <= |ps| && Lex(t, k).Some?
    ensures KeptApart(t, ps, k)
    decreases |t|
  {
    match First(t, k)
    case Over =>
    case Bad =>
    case Skip(n) =>
      SkipsNoMark(t, k);
      TurnCopied(t, [], k);
      hide KeptApart;
      TextsKeepApart(t[n..], ps, k);
      TextSkip(t, ps, k);
    case Take(n, x) =>
      LexTake(t, k, n, x);
      if t[0] == '?' {
        MarkFirst(t, k);
        hide KeptApart;
        TextsKeepApart(t[1..], ps[1..], k);
        TextMark(t, ps, k);
      } else {
        TurnCopied(t, [], k);
        hide KeptApart;
        TextsKeepApart(t[n..], ps, k);
        TextTake(t, ps, k);
      }
  }

  /** With string parameters only, enough of them: exactly when no placeholder touches a quote or another
      placeholder. */
  lemma StringsExact(t: string, ps: seq<Param>, k: Classes)
    requires Sane(k) && QuietComments(t, k) && Lex(t, k).Some? && AllText(ps) && Count(t, false) <= |ps|
    ensures Lex(Outside(t, Rendered(ps)), k) == Some(Fill(Lex(t, k).value, ps)) <==> Spaced(t, false)
  {
    TextsKeepApart(t, ps, k);
    hide Lex, Apart, NoDashes, Spaced, Count, QuietComments, Sane, Outside, Fill;
    SubstitutionExact(t, ps, k);
  }

  // ----- counting

  /** With every placeholder filled, no placeholder token is left for the tokenizer to refuse. */
  lemma {:induction false} NothingLeft(ts: seq<Token>, ps: seq<Param>)
    requires Placeholders(ts) <= |ps|
    ensures Placeholder !in Fill(ts, ps)
    decreases ts
  {
    if ts != [] {
      if ts[0] == Placeholder {
        NothingLeft(ts[1..], ps[1..]);
      } else {
        NothingLeft(ts[1..], ps);
      }
    }
  }

  function Placeholders(ts: seq<Token>): nat {
    if ts == [] then 0 else (if ts[0] == Placeholder then 1 else 0) + Placeholders(ts[1..])
  }

  /** Both counts are the number of placeholder tokens. */
  lemma {:induction false} CountIsTokens(t: string, k: Classes)
    requires Sane(k) && QuietComments(t, k) && Lex(t, k).Some?
    ensures Count(t, false) == Placeholders(Lex(t, k).value)
    decreases |t|
  {
    match First(t, k)
    case Over =>
    case Bad =>
    case Skip(n) =>
      SkipsNoMark(t, k);
      TurnCopied(t, [], k);
      CountIsTokens(t[n..], k);
    case Take(n, x) =>
      LexTake(t, k, n, x);
      CountIsTokens(t[n..], k);
      var ts := Lex(t[n..], k).value;
      assert ([x] + ts)[1..] == ts;
      if t[0] == '?' {
        MarkFirst(t, k);
      } else {
        TurnCopied(t, [], k);
      }
  }

  // ----- what the conditions shut out

  /** A negative number behind a minus sign: the rest of the line is gone. */
  lemma DashDash(r: string, d: string, ps: seq<Param>, k: Classes)
    requires Sane(k) && NumberText(d, k)
    ensures var t := "-?" + r;
            Lex(Outside(t, Rendered([Minus(d)] + ps)), k) == Lex(SkipLine(Outside(r, Rendered(ps))), k)
  {
    var v := Outside(r, Rendered(ps));
    DashText(r, d, ps, k);
    NoNewline(d, k);
    SkipLineOver("-" + d, v);
    hide Outside;
    LineGone("-" + (("-" + d) + v), k);
    assert ("-" + (("-" + d) + v))[1..] == ("-" + d) + v;
  }

  lemma DashText(r: string, d: string, ps: seq<Param>, k: Classes)
    ensures Outside("-?" + r, Rendered([Minus(d)] + ps)) == "-" + (("-" + d) + Outside(r, Rendered(ps)))
  {
    var t, all := "-?" + r, [Minus(d)] + ps;
    RenderedTail(all, k);
    assert all[1..] == ps && t[1..] == "?" + r && t[1..][1..] == r;
    assert Outside(t[1..], Rendered(all)) == Render(Minus(d)) + Outside(r, Rendered(ps));
  }

  lemma LineGone(u: string, k: Classes)
    requires LineComment(u)
    ensures Lex(u, k) == Lex(SkipLine(u[1..]), k)
  {
    var rest := SkipLine(u[1..]);
    var a := SkipLineParts(u[1..]);
    LineFirst(u, k);
    hide First, SkipLine;
    Front(u, "-" + a, rest);
  }

  lemma NoNewline(d: string, k: Classes)
    requires Sane(k) && NumberText(d, k)
    ensures '\n' !in "-" + d
  {
    NumberChars(d[1..], false, k);
    forall i | 0 <= i < |d| ensures d[i] != '\n' {
      if i > 0 {
        assert d[i] == d[1..][i - 1];
      }
      if d[i] != '.' {
        UnderscoreIsNoDigit(d[i], k);
      }
    }
  }

  lemma {:induction false} SkipLineOver(a: string, v: string)
    requires '\n' !in a
    ensures SkipLine(a + v) == SkipLine(v)
    decreases |a|
  {
    if a == [] {
      assert a + v == v;
    } else {
      Split(a, v);
      SkipLineOver(a[1..], v);
    }
  }

  /** A question mark in a comment takes a parameter: the statement gets the next one instead. */
  lemma CommentTakesParameter(a: string, b: string, k: Classes)
    requires Sane(k) && '\n' !in a
    ensures var t := "--?\n?";
            && Lex(t, k) == Some([Placeholder]) && Count(t, false) == 2
            && Lex(Outside(t, Rendered([Text(a), Text(b)])), k) == Some([Str(b)])
            && Fill([Placeholder], [Text(a), Text(b)]) == [Str(a)]
  {
    hide Lex, Outside, Count, Format, Fill;
    assert "--?\n?" == "--" + "?" + "\n" + "?";
    CommentThen("?", "?", k);
    LexMark(k);
    CountOfExample();
    OutsideOfExample(a, b);
    DoubleNoNewline(a);
    CommentThen(Format(a), Format(b), k);
    LexText(b, k);
    FillExample(a, b);
  }

  lemma LexText(b: string, k: Classes)
    ensures Lex(Format(b), k) == Some([Str(b)])
  {
    TextLex(b, [], k);
    hide Format;
    assert Format(b) + [] == Format(b) && Lex([], k) == Some([]) && [Str(b)] + [] == [Str(b)];
  }

  lemma FillExample(a: string, b: string)
    ensures Fill([Placeholder], [Text(a), Text(b)]) == [Str(a)]
  {
    assert [Placeholder][1..] == [] && Fill([], [Text(a), Text(b)][1..]) == [];
  }

  lemma CountOfExample()
    ensures Count("--?\n?", false) == 2
  {
    var t := "--?\n?";
    assert t[1..] == "-?\n?" && t[1..][1..] == "?\n?" && t[1..][1..][1..] == "\n?" && t[1..][1..][1..][1..] == "?";
    assert Count("?", false) == 1 by { assert "?"[1..] == []; }
    assert Count("\n?", false) == 1 && Count("?\n?", false) == 2 && Count("-?\n?", false) == 2;
  }

  lemma OutsideOfExample(a: string, b: string)
    ensures Outside("--?\n?", Rendered([Text(a), Text(b)])) == "--" + Format(a) + "\n" + Format(b)
  {
    var t, fs := "--?\n?", Rendered([Text(a), Text(b)]);
    assert fs == [Format(a), Format(b)];
    assert t[1..] == "-?\n?" && "-?\n?"[1..] == "?\n?" && "?\n?"[1..] == "\n?" && "\n?"[1..] == "?" && "?"[1..] == [];
    assert fs[1..] == [Format(b)] && fs[1..][1..] == [];
    assert Outside("?", fs[1..]) == Format(b) + Outside([], []);
    assert Outside("\n?", fs[1..]) == "\n" + Format(b);
    assert Outside("?\n?", fs) == Format(a) + ("\n" + Format(b));
    assert Outside("-?\n?", fs) == "-" + (Format(a) + ("\n" + Format(b)));
    assert Outside(t, fs) == "-" + ("-" + (Format(a) + ("\n" + Format(b))));
  }

  lemma LexMark(k: Classes)
    requires Sane(k)
    ensures Lex("?", k) == Some([Placeholder])
  {
    MarkFirst("?", k);
    assert "?"[1..] == [] && Lex([], k) == Some([]);
    LexTake("?", k, 1, Placeholder);
    assert [Placeholder] + [] == [Placeholder];
  }

  /** A line comment and its newline are skipped. */
  lemma CommentThen(a: string, v: string, k: Classes)
    requires '\n' !in a
    ensures Lex("--" + a + "\n" + v, k) == Lex(v, k)
  {
    var u, rest := "--" + a + "\n" + v, "\n" + v;
    assert u[1..] == ("-" + a) + rest;
    SkipLineOver("-" + a, rest);
    LineGone(u, k);
    assert '\n' in SPACES && First(rest, k) == Skip(1) && rest[1..] == v;
  }

  lemma {:induction false} DoubleNoNewline(a: string)
    requires '\n' !in a
    ensures '\n' !in Double(a) && '\n' !in Format(a)
  {
    if a != [] {
      DoubleNoNewline(a[1..]);
    }
  }

  /** A quote in a comment hides every placeholder behind it: nothing is substituted. */
  lemma QuoteInComment(f: string, k: Classes)
    requires Sane(k)
    ensures var t := "--'\n?"; Lex(t, k) == Some([Placeholder]) && Count(t, false) == 0 && Outside(t, [f]) == t
  {
    var t := "--'\n?";
    assert t == "--" + "'" + "\n" + "?";
    CommentThen("'", "?", k);
    LexMark(k);
    QuoteHides(f);
  }

  lemma QuoteHides(f: string)
    ensures var t := "--'\n?"; Count(t, false) == 0 && Outside(t, [f]) == t
  {
    var a, b, c, d := "--'\n?", "-'\n?", "'\n?", "\n?";
    assert a[1..] == b && b[1..] == c && c[1..] == d && d[1..] == "?" && "?"[1..] == [];
    assert ReadLiteral("?") == Extend('?', ReadLiteral([]));
    assert ReadLiteral(d) == None;
    OpenLiteralCopied(d, [f]);
    hide Inside, ReadLiteral;
    assert Outside(c, [f]) == "'" + d && Count(c, false) == 0;
    assert Outside(b, [f]) == "-" + c && Count(b, false) == 0;
    assert Outside(a, [f]) == "-" + b;
  }
}
