/**
 * Python `str.format` as the two scripts use it:
 * `filename_pattern.format(arxiv_id=..., title=...)`. A pattern is read as
 * a sequence of pieces: literal characters (`{{` and `}}` stand for one
 * brace) and the two replacement fields `{arxiv_id}` and `{title}`. Any
 * other field, a lone `}` or an unclosed `{` makes `format` raise.
 */
module PyFormat {
  import opened Wrappers
  import opened Text

  /** One piece of a parsed pattern. */
  datatype Piece = Lit(c: char) | IdField | TitleField

  /**
   * The piece a non-empty pattern starts with and the number of characters
   * it takes; None where the pattern's first brace is not part of a piece.
   */
  function Lex(p: string): (r: (Option<Piece>, nat))
    requires p != []
    ensures 1 <= r.1 <= |p|
  {
    if p[0] == '{' then
      if StartsWith(p, "{{") then (Some(Lit('{')), 2)
      else if StartsWith(p, "{arxiv_id}") then (Some(IdField), 10)
      else if StartsWith(p, "{title}") then (Some(TitleField), 7)
      else (None, 1)
    else if p[0] == '}' then
      if StartsWith(p, "}}") then (Some(Lit('}')), 2) else (None, 1)
    else (Some(Lit(p[0])), 1)
  }

  /** Reads a pattern into pieces; None where `format` raises. */
  function Parse(p: string): Option<seq<Piece>>
    decreases |p|
  {
    if p == [] then Some([])
    else
      var (piece, n) := Lex(p);
      match piece
      case None => None
      case Some(x) =>
        match Parse(p[n..])
        case None => None
        case Some(rest) => Some([x] + rest)
  }

  /** The text one piece renders to. */
  function Value(x: Piece, id: string, title: string): string {
    match x
    case Lit(c) => [c]
    case IdField => id
    case TitleField => title
  }

  /** The text a sequence of pieces renders to, each field replaced by its value. */
  function Render(ps: seq<Piece>, id: string, title: string): string
    decreases |ps|
  {
    if ps == [] then [] else Value(ps[0], id, title) + Render(ps[1..], id, title)
  }

  /** `pattern.format(arxiv_id=id, title=title)`; None where it raises. */
  function Format(pattern: string, id: string, title: string): Option<string> {
    match Parse(pattern)
    case None => None
    case Some(ps) => Some(Render(ps, id, title))
  }

  /** The pattern text of one piece: a brace is doubled, a field is its name in braces. */
  function Spell(x: Piece): string {
    match x
    case Lit(c) => if c == '{' then "{{" else if c == '}' then "}}" else [c]
    case IdField => "{arxiv_id}"
    case TitleField => "{title}"
  }

  /** The pattern text of a sequence of pieces. */
  function Unparse(ps: seq<Piece>): string
    decreases |ps|
  {
    if ps == [] then [] else Spell(ps[0]) + Unparse(ps[1..])
  }

  /** The text of a piece in front of others is its spelling in front of theirs. */
  lemma UnparseCons(x: Piece, rest: seq<Piece>)
    ensures Unparse([x] + rest) == Spell(x) + Unparse(rest)
  {
    assert ([x] + rest)[1..] == rest;
  }

  /** A piece in front of others renders to its value in front of theirs. */
  lemma RenderCons(x: Piece, rest: seq<Piece>, id: string, title: string)
    ensures Render([x] + rest, id, title) == Value(x, id, title) + Render(rest, id, title)
  {
    assert ([x] + rest)[1..] == rest;
  }

  /** Rendering is piecewise: every field occurrence is replaced, wherever it is. */
  lemma {:induction false} RenderAppend(a: seq<Piece>, b: seq<Piece>, id: string, title: string)
    ensures Render(a + b, id, title) == Render(a, id, title) + Render(b, id, title)
    decreases |a|
  {
    if a == [] {
      assert a + b == b;
    } else {
      assert (a + b)[0] == a[0];
      assert (a + b)[1..] == a[1..] + b;
      RenderAppend(a[1..], b, id, title);
    }
  }

  /** The spelling of one piece, followed by anything, lexes as that piece. */
  lemma LexHead(x: Piece, rest: string)
    ensures var h := Spell(x);
            h != [] && Lex(h + rest) == (Some(x), |h|)
  {
    var h := Spell(x);
    var p := h + rest;
    assert p[..|h|] == h;
    match x
    case Lit(c) =>
      if c == '{' {
        assert StartsWith(p, "{{");
      } else if c == '}' {
        assert StartsWith(p, "}}");
      }
    case IdField =>
      assert StartsWith(p, "{arxiv_id}");
      assert p[1] == 'a';
    case TitleField =>
      assert StartsWith(p, "{title}");
      assert p[1] == 't';
  }

  /** A piece the lexer reads is spelled by the characters it takes. */
  lemma LexSpelling(p: string)
    requires p != [] && Lex(p).0.Some?
    ensures Spell(Lex(p).0.value) == p[..Lex(p).1]
  {
    if p[0] != '{' && p[0] != '}' {
      assert p[..1] == [p[0]];
    }
  }

  /** Reading back the text of any pieces gives those pieces. */
  lemma {:induction false} ParseUnparse(ps: seq<Piece>)
    ensures Parse(Unparse(ps)) == Some(ps)
    decreases |ps|
  {
    if ps != [] {
      var h, rest := Spell(ps[0]), Unparse(ps[1..]);
      ParseUnparse(ps[1..]);
      LexHead(ps[0], rest);
      assert (h + rest)[|h|..] == rest;
      assert [ps[0]] + ps[1..] == ps;
    }
  }

  /** A pattern that `format` accepts is exactly the text of its pieces. */
  lemma {:induction false} UnparseParse(p: string)
    requires Parse(p).Some?
    ensures Unparse(Parse(p).value) == p
    decreases |p|
  {
    if p != [] {
      var n, x := Lex(p).1, Lex(p).0.value;
      var rest := Parse(p[n..]).value;
      UnparseParse(p[n..]);
      LexSpelling(p);
      SpellingStep(p, x, n, rest);
    }
  }

  /** A piece spelled by a prefix of the pattern, followed by pieces spelling the remainder, spell the whole pattern. */
  lemma SpellingStep(p: string, x: Piece, n: nat, rest: seq<Piece>)
    requires n <= |p| && Spell(x) == p[..n]
    requires Unparse(rest) == p[n..]
    ensures Unparse([x] + rest) == p
  {
    UnparseCons(x, rest);
    assert p == p[..n] + p[n..];
  }

  /** `format` on the text of some pieces renders those pieces. */
  lemma FormatUnparse(ps: seq<Piece>, id: string, title: string)
    ensures Format(Unparse(ps), id, title) == Some(Render(ps, id, title))
  {
    ParseUnparse(ps);
  }

  /** A pattern without braces is its own result. */
  lemma {:induction false} FormatNoBraces(p: string, id: string, title: string)
    requires '{' !in p && '}' !in p
    ensures Format(p, id, title) == Some(p)
    decreases |p|
  {
    if p != [] {
      FormatNoBraces(p[1..], id, title);
      var rest := Parse(p[1..]).value;
      assert Parse(p) == Some([Lit(p[0])] + rest);
      assert ([Lit(p[0])] + rest)[1..] == rest;
      assert p == [p[0]] + p[1..];
    }
  }

  /** The default pattern `"{arxiv_id} - {title}"` gives `<id> - <title>`. */
  lemma FormatDefault(id: string, title: string)
    ensures Format("{arxiv_id} - {title}", id, title) == Some(id + " - " + title)
  {
    var tail := [Lit(' '), Lit('-'), Lit(' '), TitleField];
    var ps := [IdField] + tail;
    DefaultTail(id, title);
    UnparseCons(IdField, tail);
    RenderCons(IdField, tail, id, title);
    assert Unparse(ps) == "{arxiv_id} - {title}";
    assert Render(ps, id, title) == id + " - " + title;
    FormatUnparse(ps, id, title);
  }

  /** The part of the default pattern after `{arxiv_id}`. */
  lemma DefaultTail(id: string, title: string)
    ensures Unparse([Lit(' '), Lit('-'), Lit(' '), TitleField]) == " - {title}"
    ensures Render([Lit(' '), Lit('-'), Lit(' '), TitleField], id, title) == " - " + title
  {
    var p3 := [TitleField];
    var p2 := [Lit(' ')] + p3;
    var p1 := [Lit('-')] + p2;
    var p0 := [Lit(' ')] + p1;
    assert p0 == [Lit(' '), Lit('-'), Lit(' '), TitleField];
    UnparseCons(TitleField, []);
    UnparseCons(Lit(' '), p3);
    UnparseCons(Lit('-'), p2);
    UnparseCons(Lit(' '), p1);
    RenderCons(TitleField, [], id, title);
    RenderCons(Lit(' '), p3, id, title);
    RenderCons(Lit('-'), p2, id, title);
    RenderCons(Lit(' '), p1, id, title);
  }

  /** Every occurrence of a field is replaced: `"{title} {title}"` gives the title twice. */
  lemma FormatEveryOccurrence(id: string, title: string)
    ensures Format("{title} {title}", id, title) == Some(title + " " + title)
  {
    var p2 := [TitleField];
    var p1 := [Lit(' ')] + p2;
    var ps := [TitleField] + p1;
    UnparseCons(TitleField, []);
    UnparseCons(Lit(' '), p2);
    UnparseCons(TitleField, p1);
    RenderCons(TitleField, [], id, title);
    RenderCons(Lit(' '), p2, id, title);
    RenderCons(TitleField, p1, id, title);
    assert Unparse(ps) == "{title} {title}";
    assert Render(ps, id, title) == title + " " + title;
    FormatUnparse(ps, id, title);
  }

  /** A field other than the two names, a lone closing brace and an unclosed field make `format` raise. */
  lemma FormatRaises(id: string, title: string)
    ensures Format("{year}", id, title).None?
    ensures Format("}", id, title).None?
    ensures Format("{title", id, title).None?
  {
    assert "{year}"[1] == 'y';
    assert !StartsWith("{title", "{title}");
    assert "{title"[1] == 't';
  }
}
