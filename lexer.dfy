/**
 * The token stream both recursive-descent front ends read. The scanner
 * `ece351.util.Lexer` is not part of this model: its input is taken as the
 * sequence of tokens it would produce, and its `inspect*`/`consume*`
 * operations act on that sequence. A `consume*` whose token is not next
 * throws in the scanner; here it reports failure and leaves the stream as
 * it was.
 */
module Lexing {
  import opened Ast

  /**
   * The keywords and punctuation the two grammars use: `or`, `and`, `not`,
   * `(`, `)`, `'`, `0`, `1`, `<=`, `;` and `:`.
   */
  datatype Symbol = KwOr | KwAnd | KwNot | LParen | RParen | Quote | Zero | One | Gets | Semi | Colon

  /** An identifier, or a keyword or punctuation token. */
  datatype Token = Id(name: string) | Sym(sym: Symbol)

  /** A value read from the front of a token sequence, and what is left after it. */
  datatype Parsed<T> = Parsed(value: T, rest: seq<Token>)

  /** `ts` begins with the keyword or punctuation `s`. */
  predicate StartsWith(ts: seq<Token>, s: Symbol) {
    ts != [] && ts[0] == Sym(s)
  }

  /** `rest` is what remains of `ts` after some tokens were read from its front. */
  predicate IsSuffix(rest: seq<Token>, ts: seq<Token>) {
    |rest| <= |ts| && rest == ts[|ts| - |rest|..]
  }

  /**
   * A method's outcome `r` and the stream `rest` it left agree with a
   * grammar function's outcome `spec`: both fail, or both produce the
   * same value and leave the same tokens.
   */
  predicate Agrees<T(==)>(r: Option<T>, spec: Option<Parsed<T>>, rest: seq<Token>) {
    match spec
    case None => r.None?
    case Some(p) => r == Some(p.value) && rest == p.rest
  }

  class Lexer {
    /** The tokens not yet consumed. */
    var rest: seq<Token>

    constructor(ts: seq<Token>)
      ensures rest == ts
    {
      rest := ts;
    }

    /** `inspect(s)`: the next token is `s`. */
    predicate Inspect(s: Symbol)
      reads this
    {
      StartsWith(rest, s)
    }

    /** `inspectID()`: the next token is an identifier. */
    predicate InspectID()
      reads this
    {
      rest != [] && rest[0].Id?
    }

    /** `inspectEOF()`: every token has been consumed. */
    predicate InspectEOF()
      reads this
    {
      rest == []
    }

    /** `consume(s)`: read the next token, which must be `s`. */
    method Consume(s: Symbol) returns (ok: bool)
      modifies this
      ensures ok == old(Inspect(s))
      ensures rest == if ok then old(rest)[1..] else old(rest)
    {
      ok := Inspect(s);
      if ok {
        rest := rest[1..];
      }
    }

    /** `consume(a, b)`: read the next token, which must be `a` or `b`, and return it. */
    method ConsumeEither(a: Symbol, b: Symbol) returns (r: Option<Symbol>)
      modifies this
      ensures r.Some? <==> old(Inspect(a) || Inspect(b))
      ensures r.Some? ==> old(rest)[0] == Sym(r.value) && rest == old(rest)[1..]
      ensures r.None? ==> rest == old(rest)
    {
      if Inspect(a) || Inspect(b) {
        r := Some(rest[0].sym);
        rest := rest[1..];
      } else {
        r := None;
      }
    }

    /** `consumeID()`: read the next token, which must be an identifier, and return its name. */
    method ConsumeID() returns (r: Option<string>)
      modifies this
      ensures r.Some? <==> old(InspectID())
      ensures r.Some? ==> old(rest)[0] == Id(r.value) && rest == old(rest)[1..]
      ensures r.None? ==> rest == old(rest)
    {
      if InspectID() {
        r := Some(rest[0].name);
        rest := rest[1..];
      } else {
        r := None;
      }
    }

    /** `consumeEOF()`: succeed only at the end of the input. */
    method ConsumeEOF() returns (ok: bool)
      ensures ok == InspectEOF()
    {
      ok := InspectEOF();
    }
  }
}
