/** The SQL tokenizer, with one token more: a `?` outside a literal is a Placeholder, where the real
    tokenizer raises. Source positions are not kept. */
module Lexer {
  import opened Common

  /** Words are identifiers and keywords alike: which they are depends on the text alone. */
  datatype Token =
    | Word(text: string) | Number(text: string) | Str(text: string) | Op(text: string) | Mark(c: char) | Placeholder

  /** The host language's character classes: `isalpha`, `isdigit`, and `isdecimal` or `isnumeric`.
      `isalnum` is all of them. */
  datatype Classes = Classes(letter: char -> bool, digit: char -> bool, numeral: char -> bool)

  const SPACES: string := " \t\r\n"
  const SINGLE_OPS: string := "+-*/<>="
  const MARKS: string := "(),;."

  /** No punctuation is a letter, a digit or a numeral. */
  ghost predicate Sane(k: Classes) {
    forall c | c in SPACES + SINGLE_OPS + MARKS + "'?!_" :: !k.digit(c) && !k.numeral(c) && (k.letter(c) ==> c == '_')
  }

  predicate WordChar(c: char, k: Classes) {
    k.letter(c) || k.digit(c) || k.numeral(c) || c == '_'
  }

  /** How many leading characters belong to the word. */
  function WordLen(s: string, k: Classes): (n: nat)
    ensures n <= |s|
  {
    if s != [] && WordChar(s[0], k) then 1 + WordLen(s[1..], k) else 0
  }

  /** Digits with at most one point. */
  function NumberLen(s: string, dot: bool, k: Classes): (n: nat)
    ensures n <= |s|
  {
    if s == [] then 0
    else if k.digit(s[0]) then 1 + NumberLen(s[1..], dot, k)
    else if s[0] == '.' && !dot then 1 + NumberLen(s[1..], true, k)
    else 0
  }

  /** The rest of a literal after its opening quote: its value and what follows; None if unterminated. */
  datatype Literal = Literal(text: string, rest: string)

  function ReadLiteral(s: string): (r: Option<Literal>)
    ensures r.Some? ==> |r.value.rest| < |s|
  {
    if s == [] then None
    else if s[0] == '\'' then
      if |s| > 1 && s[1] == '\'' then Extend('\'', ReadLiteral(s[2..])) else Some(Literal("", s[1..]))
    else Extend(s[0], ReadLiteral(s[1..]))
  }

  function Extend(c: char, r: Option<Literal>): (q: Option<Literal>)
    ensures q.Some? <==> r.Some?
    ensures q.Some? ==> q.value.rest == r.value.rest
  {
    if r.None? then None else Some(Literal([c] + r.value.text, r.value.rest))
  }

  function SkipLine(s: string): (r: string)
    ensures |r| <= |s|
  {
    if s == [] || s[0] == '\n' then s else SkipLine(s[1..])
  }

  /** After the opening of a block comment; None if unterminated. */
  function SkipBlock(s: string): (r: Option<string>)
    ensures r.Some? ==> |r.value| < |s|
  {
    if s == [] then None
    else if s[0] == '*' && |s| > 1 && s[1] == '/' then Some(s[2..])
    else if s[0] == '/' && |s| > 1 && s[1] == '*' then SkipBlock(s[2..])
    else SkipBlock(s[1..])
  }

  predicate LineComment(s: string) { |s| > 1 && s[0] == '-' && s[1] == '-' }

  predicate BlockComment(s: string) { |s| > 1 && s[0] == '/' && s[1] == '*' }

  predicate DoubleOp(s: string) { |s| > 1 && s[0] in "><!" && s[1] == '=' }

  function Cons(t: Token, r: Option<seq<Token>>): Option<seq<Token>> {
    if r.None? then None else Some([t] + r.value)
  }

  /** One turn of the loop: over, ParseError, n characters skipped, or n characters that make a token. */
  datatype Turn = Over | Bad | Skip(n: nat) | Take(n: nat, x: Token)

  function First(s: string, k: Classes): (r: Turn)
    ensures r.Skip? || r.Take? ==> 0 < r.n <= |s|
    ensures r.Over? <==> s == []
  {
    if s == [] then Over
    else if s[0] in SPACES then Skip(1)
    else if LineComment(s) then Skip(|s| - |SkipLine(s[1..])|)
    else if BlockComment(s) then (match SkipBlock(s[2..]) case None => Bad case Some(r) => Skip(|s| - |r|))
    else if s[0] == '\'' then
      (match ReadLiteral(s[1..]) case None => Bad case Some(l) => Take(|s| - |l.rest|, Str(l.text)))
    else if k.letter(s[0]) || s[0] == '_' then
      var n := 1 + WordLen(s[1..], k);
      Take(n, Word(s[..n]))
    else if k.digit(s[0]) then
      var n := 1 + NumberLen(s[1..], false, k);
      Take(n, Number(s[..n]))
    else if DoubleOp(s) then Take(2, Op(s[..2]))
    else if s[0] in SINGLE_OPS then Take(1, Op(s[..1]))
    else if s[0] in MARKS then Take(1, Mark(s[0]))
    else if s[0] == '?' then Take(1, Placeholder)
    else Bad
  }

  /** `tokenize`; None stands for ParseError. */
  function Lex(s: string, k: Classes): Option<seq<Token>>
    decreases |s|
  {
    match First(s, k)
    case Over => Some([])
    case Bad => None
    case Skip(n) => Lex(s[n..], k)
    case Take(n, x) => Cons(x, Lex(s[n..], k))
  }

  // ----- what is read and what is left

  lemma {:induction false} SkipLineParts(s: string) returns (a: string)
    ensures s == a + SkipLine(s)
    decreases |s|
  {
    if s == [] || s[0] == '\n' {
      a := [];
    } else {
      a := SkipLineParts(s[1..]);
      a := [s[0]] + a;
      assert s == [s[0]] + s[1..];
    }
  }

  lemma {:induction false} SkipBlockParts(s: string) returns (a: string)
    requires SkipBlock(s).Some?
    ensures s == a + SkipBlock(s).value
    decreases |s|
  {
    if s[0] == '*' && |s| > 1 && s[1] == '/' {
      a := s[..2];
      assert s == s[..2] + s[2..];
    } else if s[0] == '/' && |s| > 1 && s[1] == '*' {
      a := SkipBlockParts(s[2..]);
      a := s[..2] + a;
      assert s == s[..2] + s[2..];
    } else {
      a := SkipBlockParts(s[1..]);
      a := [s[0]] + a;
      assert s == [s[0]] + s[1..];
    }
  }

  lemma {:induction false} LiteralParts(s: string) returns (a: string)
    requires ReadLiteral(s).Some?
    ensures s == a + ReadLiteral(s).value.rest
    decreases |s|
  {
    if s[0] == '\'' {
      if |s| > 1 && s[1] == '\'' {
        a := LiteralParts(s[2..]);
        a := s[..2] + a;
        assert s == s[..2] + s[2..];
      } else {
        a := [s[0]];
        assert s == [s[0]] + s[1..];
      }
    } else {
      a := LiteralParts(s[1..]);
      a := [s[0]] + a;
      assert s == [s[0]] + s[1..];
    }
  }

  // ----- runs of word and number characters

  lemma {:induction false} WordChars(s: string, k: Classes)
    ensures forall i :: 0 <= i < WordLen(s, k) ==> WordChar(s[i], k)
  {
    if s != [] && WordChar(s[0], k) {
      WordChars(s[1..], k);
      forall i | 0 <= i < WordLen(s, k) ensures WordChar(s[i], k) {
        assert i > 0 ==> s[i] == s[1..][i - 1];
      }
    }
  }

  lemma {:induction false} NumberChars(s: string, dot: bool, k: Classes)
    ensures forall i :: 0 <= i < NumberLen(s, dot, k) ==> k.digit(s[i]) || s[i] == '.'
    decreases |s|
  {
    if s != [] && NumberLen(s, dot, k) > 0 {
      NumberChars(s[1..], dot || !k.digit(s[0]), k);
      forall i | 0 <= i < NumberLen(s, dot, k) ensures k.digit(s[i]) || s[i] == '.' {
        assert i > 0 ==> s[i] == s[1..][i - 1];
      }
    }
  }

  lemma {:induction false} WordLenAppend(a: string, v: string, k: Classes)
    requires WordLen(a, k) == |a|
    ensures WordLen(a + v, k) == |a| + WordLen(v, k)
    decreases |a|
  {
    if a == [] {
      assert a + v == v;
    } else {
      assert (a + v)[1..] == a[1..] + v && (a + v)[0] == a[0];
      WordLenAppend(a[1..], v, k);
    }
  }

  lemma {:induction false} WordLenFront(t: string, k: Classes)
    ensures WordLen(t[..WordLen(t, k)], k) == WordLen(t, k)
    decreases |t|
  {
    var n := WordLen(t, k);
    if n > 0 {
      WordLenFront(t[1..], k);
      assert t[..n][1..] == t[1..][..n - 1] && t[..n][0] == t[0];
    }
  }

  lemma {:induction false} NumberLenAppend(a: string, v: string, dot: bool, k: Classes)
    requires NumberLen(a, dot, k) == |a| && !k.digit('.')
    ensures NumberLen(a + v, dot, k) == |a| + NumberLen(v, dot || '.' in a, k)
    decreases |a|
  {
    if a == [] {
      assert a + v == v;
    } else {
      assert (a + v)[1..] == a[1..] + v && (a + v)[0] == a[0];
      NumberLenAppend(a[1..], v, dot || !k.digit(a[0]), k);
      assert '.' in a <==> a[0] == '.' || '.' in a[1..];
    }
  }

  lemma {:induction false} NumberLenFront(t: string, dot: bool, k: Classes)
    ensures NumberLen(t[..NumberLen(t, dot, k)], dot, k) == NumberLen(t, dot, k)
    decreases |t|
  {
    var n := NumberLen(t, dot, k);
    if n > 0 {
      NumberLenFront(t[1..], dot || !k.digit(t[0]), k);
      assert t[..n][1..] == t[1..][..n - 1] && t[..n][0] == t[0];
    }
  }
}
