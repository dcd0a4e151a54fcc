/** Quoted SQL identifiers (api/db_pg.js `quoteIdent`). */
module Ident {
  import opened Rows

  /** A character of a name inside quotes. */
  function Inside(c: char): string { if c == '"' then ['"', '"'] else [c] }

  /** The name with every quote doubled. */
  function Doubled(name: string): string { if name == "" then "" else Inside(name[0]) + Doubled(name[1..]) }

  function QuoteIdent(name: string): string { ['"'] + Doubled(name) + ['"'] }

  datatype Lexed = Lexed(name: string, rest: string)

  /** The body of a quoted identifier: a doubled quote is a quote, a single one ends it. */
  function LexBody(text: string): Option<Lexed> {
    if text == "" then None
    else if text[0] != '"' then
      match LexBody(text[1..])
      case None => None
      case Some(l) => Some(Lexed([text[0]] + l.name, l.rest))
    else if |text| >= 2 && text[1] == '"' then
      match LexBody(text[2..])
      case None => None
      case Some(l) => Some(Lexed(['"'] + l.name, l.rest))
    else Some(Lexed("", text[1..]))
  }

  /** How PostgreSQL reads a quoted identifier at the start of a text. */
  function LexIdent(text: string): Option<Lexed> {
    if text == "" || text[0] != '"' then None else LexBody(text[1..])
  }

  lemma InsideReads(c: char, tail: string, name: string, rest: string)
    requires LexBody(tail) == Some(Lexed(name, rest))
    ensures LexBody(Inside(c) + tail) == Some(Lexed([c] + name, rest))
  {
    if c == '"' {
      assert (['"', '"'] + tail)[2..] == tail;
    } else {
      assert ([c] + tail)[1..] == tail;
    }
  }

  lemma DoubledStep(c: char, name: string)
    ensures Doubled([c] + name) == Inside(c) + Doubled(name)
  {
    assert ([c] + name)[1..] == name;
  }

  lemma BodyStep(c: char, name: string, end: string, rest: string)
    requires LexBody(Doubled(name) + end) == Some(Lexed(name, rest))
    ensures LexBody(Doubled([c] + name) + end) == Some(Lexed([c] + name, rest))
  {
    InsideReads(c, Doubled(name) + end, name, rest);
    DoubledStep(c, name);
    assert (Inside(c) + Doubled(name)) + end == Inside(c) + (Doubled(name) + end);
  }

  lemma EndReads(rest: string)
    requires rest == "" || rest[0] != '"'
    ensures LexBody("" + (['"'] + rest)) == Some(Lexed("", rest))
  {
    assert "" + (['"'] + rest) == ['"'] + rest && (['"'] + rest)[1..] == rest;
  }

  lemma {:induction false} BodyReadsBack(name: string, rest: string)
    requires rest == "" || rest[0] != '"'
    ensures LexBody(Doubled(name) + (['"'] + rest)) == Some(Lexed(name, rest))
  {
    if name == "" {
      EndReads(rest);
    } else {
      BodyReadsBack(name[1..], rest);
      BodyStep(name[0], name[1..], ['"'] + rest, rest);
      assert [name[0]] + name[1..] == name;
    }
  }

  /** Whatever the name holds, quotes included: reading the quoted name consumes exactly it, gives the
      name back, and leaves the text after it. */
  lemma QuotedReadsBack(name: string, rest: string)
    requires rest == "" || rest[0] != '"'
    ensures LexIdent(QuoteIdent(name) + rest) == Some(Lexed(name, rest))
  {
    var body := Doubled(name) + (['"'] + rest);
    BodyReadsBack(name, rest);
    assert QuoteIdent(name) + rest == ['"'] + body;
    assert (['"'] + body)[1..] == body;
  }

  /** So different names stay different in the SQL text. */
  lemma QuotingIsInjective(a: string, b: string)
    ensures QuoteIdent(a) == QuoteIdent(b) ==> a == b
  {
    QuotedReadsBack(a, "");
    QuotedReadsBack(b, "");
  }
}
