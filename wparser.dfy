/**
 * `WRecursiveDescentParser` and `WRecursiveDescentRecognizer`: the two
 * front ends of the waveform language
 *
 *   program  := waveform+ EOF
 *   waveform := id ":" ("0" | "1")* ";"
 *
 * The parser builds the waveforms; the recognizer only consumes tokens and
 * rejects by throwing, which here is a `false` or `None` result.
 */
module WParser {
  import opened Ast
  import opened Lexing

  /** A named signal and its values in order, `1` as true. */
  datatype Waveform = Waveform(name: string, bits: seq<bool>)

  /** The `while (!inspect(";"))` loop of `waveform` and the `;` that ends it. */
  function BitsOf(ts: seq<Token>): (r: Option<Parsed<seq<bool>>>)
    ensures r.Some? ==> |r.value.rest| < |ts|
  {
    if StartsWith(ts, Semi) then Some(Parsed([], ts[1..]))
    else if StartsWith(ts, Zero) || StartsWith(ts, One) then
      match BitsOf(ts[1..])
      case None => None
      case Some(b) => Some(Parsed([ts[0] == Sym(One)] + b.value, b.rest))
    else None
  }

  /** `waveform`: an identifier, `:`, bits, `;`; at least three tokens are read. */
  function WaveformOf(ts: seq<Token>): (r: Option<Parsed<Waveform>>)
    ensures r.Some? ==> |r.value.rest| + 3 <= |ts|
  {
    if !(ts != [] && ts[0].Id?) then None
    else if !StartsWith(ts[1..], Colon) then None
    else match BitsOf(ts[2..])
      case None => None
      case Some(b) => Some(Parsed(Waveform(ts[0].name, b.value), b.rest))
  }

  /** `parse`: one or more waveforms, read until the input is used up. */
  function ProgramOf(ts: seq<Token>): (r: Option<seq<Waveform>>)
    ensures r.Some? ==> |r.value| >= 1
    decreases |ts|
  {
    match WaveformOf(ts)
    case None => None
    case Some(w) =>
      if w.rest == [] then Some([w.value])
      else match ProgramOf(w.rest)
        case None => None
        case Some(ws) => Some([w.value] + ws)
  }

  /** What the recognizer's `waveform` leaves of `ts`, if it accepts. */
  function WaveformRest(ts: seq<Token>): (r: Option<seq<Token>>)
    ensures r.Some? ==> |r.value| + 3 <= |ts|
  {
    if ts != [] && ts[0].Id? && StartsWith(ts[1..], Colon) then BitsRest(ts[2..]) else None
  }

  /** What the recognizer's bit loop and the final `;` leave of `ts`. */
  function BitsRest(ts: seq<Token>): (r: Option<seq<Token>>)
    ensures r.Some? ==> |r.value| < |ts|
  {
    if StartsWith(ts, Semi) then Some(ts[1..])
    else if StartsWith(ts, Zero) || StartsWith(ts, One) then BitsRest(ts[1..])
    else None
  }

  /** The recognizer's `program` accepts `ts`. */
  predicate Recognized(ts: seq<Token>)
    decreases |ts|
  {
    match WaveformRest(ts)
    case None => false
    case Some(rest) => rest == [] || Recognized(rest)
  }

  /** `bits` followed by what `more` read, or failure if `more` failed. */
  function Prefixed(bits: seq<bool>, more: Option<Parsed<seq<bool>>>): Option<Parsed<seq<bool>>> {
    match more
    case None => None
    case Some(p) => Some(Parsed(bits + p.value, p.rest))
  }

  /** One more `0` or `1` read by the loop of `waveform`. */
  lemma BitStep(bits: seq<bool>, ts: seq<Token>)
    requires StartsWith(ts, Zero) || StartsWith(ts, One)
    ensures Prefixed(bits, BitsOf(ts)) == Prefixed(bits + [ts[0] == Sym(One)], BitsOf(ts[1..]))
  {
    if BitsOf(ts[1..]).Some? {
      var more := BitsOf(ts[1..]).value.value;
      assert bits + [ts[0] == Sym(One)] + more == bits + ([ts[0] == Sym(One)] + more);
    }
  }

  /** The `;` that ends the loop of `waveform`. */
  lemma BitsEnd(bits: seq<bool>, ts: seq<Token>)
    requires StartsWith(ts, Semi)
    ensures Prefixed(bits, BitsOf(ts)) == Some(Parsed(bits, ts[1..]))
  {
    assert bits + [] == bits;
  }

  function Then(ws: seq<Waveform>, more: Option<seq<Waveform>>): Option<seq<Waveform>> {
    match more
    case None => None
    case Some(vs) => Some(ws + vs)
  }

  /** One more element read after `fs`: the rest of the reading follows it. */
  lemma ProgramStep(ts: seq<Token>, fs: seq<Waveform>, before: seq<Token>, x: Waveform, after: seq<Token>)
    requires before != [] && ProgramOf(ts) == Then(fs, ProgramOf(before))
    requires WaveformOf(before) == Some(Parsed(x, after))
    ensures after == [] ==> ProgramOf(ts) == Some(fs + [x])
    ensures after != [] ==> ProgramOf(ts) == Then(fs + [x], ProgramOf(after))
  {
    if after != [] {
      match ProgramOf(after)
      case None =>
      case Some(gs) => assert fs + [x] + gs == fs + ([x] + gs);
    }
  }

  /** A failure to read the next element fails the whole reading. */
  lemma ProgramStops(ts: seq<Token>, fs: seq<Waveform>, before: seq<Token>)
    requires before != [] && ProgramOf(ts) == Then(fs, ProgramOf(before))
    requires WaveformOf(before).None?
    ensures ProgramOf(ts).None?
  {
  }

  class WRecursiveDescentParser {
    const lexer: Lexer

    constructor(lexer: Lexer)
      ensures this.lexer == lexer
    {
      this.lexer := lexer;
    }

    /** `parse`: a waveform, then more until the end of the input. */
    method Parse() returns (r: Option<seq<Waveform>>)
      modifies lexer
      ensures r == ProgramOf(old(lexer.rest))
      ensures r.Some? ==> lexer.rest == []
    {
      ghost var ts := lexer.rest;
      var w := ParseWaveform();
      if w.None? {
        return None;
      }
      var parsedProgram := [w.value];
      ghost var x, after := w.value, lexer.rest;
      assert WaveformOf(ts) == Some(Parsed(x, after));
      assert ProgramOf(ts) == if after == [] then Some([x]) else Then([x], ProgramOf(after));
      while !lexer.InspectEOF()
        invariant lexer.rest == [] ==> ProgramOf(ts) == Some(parsedProgram)
        invariant lexer.rest != [] ==> ProgramOf(ts) == Then(parsedProgram, ProgramOf(lexer.rest))
        decreases |lexer.rest|
      {
        ghost var before := lexer.rest;
        w := ParseWaveform();
        if w.None? {
          ProgramStops(ts, parsedProgram, before);
          return None;
        }
        ProgramStep(ts, parsedProgram, before, w.value, lexer.rest);
        parsedProgram := parsedProgram + [w.value];
      }
      var ok := lexer.ConsumeEOF();
      return Some(parsedProgram);
    }

    method ParseWaveform() returns (r: Option<Waveform>)
      modifies lexer
      ensures Agrees(r, WaveformOf(old(lexer.rest)), lexer.rest)
    {
      ghost var ts := lexer.rest;
      if !lexer.InspectID() {
        return None;
      }
      var id := lexer.ConsumeID();
      if !lexer.Inspect(Colon) {
        return None;
      }
      var ok := lexer.Consume(Colon);
      ghost var start := lexer.rest;
      assert start == ts[2..];
      var bits: seq<bool> := [];
      if BitsOf(start).Some? {
        assert [] + BitsOf(start).value.value == BitsOf(start).value.value;
      }
      while !lexer.Inspect(Semi)
        invariant BitsOf(start) == Prefixed(bits, BitsOf(lexer.rest))
        decreases |lexer.rest|
      {
        if lexer.Inspect(Zero) || lexer.Inspect(One) {
          BitStep(bits, lexer.rest);
          var b := lexer.ConsumeEither(Zero, One);
          bits := bits + [b.value == One];
        } else {
          return None;
        }
      }
      BitsEnd(bits, lexer.rest);
      ok := lexer.Consume(Semi);
      return Some(Waveform(id.value, bits));
    }
  }

  class WRecursiveDescentRecognizer {
    const lexer: Lexer

    constructor(lexer: Lexer)
      ensures this.lexer == lexer
    {
      this.lexer := lexer;
    }

    /**
     * `program`: a waveform, then more until the end of the input. The loop
     * ends because every accepted waveform reads at least three tokens.
     */
    method RecognizeProgram() returns (ok: bool)
      modifies lexer
      ensures ok == Recognized(old(lexer.rest))
      ensures ok ==> lexer.rest == []
    {
      ghost var ts := lexer.rest;
      ok := RecognizeWaveform();
      if !ok {
        return false;
      }
      while !lexer.InspectEOF()
        invariant Recognized(ts) == (lexer.rest == [] || Recognized(lexer.rest))
        decreases |lexer.rest|
      {
        ok := RecognizeWaveform();
        if !ok {
          return false;
        }
      }
      ok := lexer.ConsumeEOF();
    }

    /** `waveform`: consume `id : bits ;` or reject. */
    method RecognizeWaveform() returns (ok: bool)
      modifies lexer
      ensures ok == WaveformRest(old(lexer.rest)).Some?
      ensures ok ==> lexer.rest == WaveformRest(old(lexer.rest)).value
      ensures ok ==> |lexer.rest| + 3 <= |old(lexer.rest)|
    {
      ghost var ts := lexer.rest;
      if !lexer.InspectID() {
        return false;
      }
      var id := lexer.ConsumeID();
      if !lexer.Inspect(Colon) {
        return false;
      }
      ok := lexer.Consume(Colon);
      assert lexer.rest == ts[2..];
      while !lexer.Inspect(Semi)
        invariant BitsRest(ts[2..]) == BitsRest(lexer.rest)
        decreases |lexer.rest|
      {
        if lexer.Inspect(Zero) || lexer.Inspect(One) {
          var b := lexer.ConsumeEither(Zero, One);
        } else {
          return false;
        }
      }
      ok := lexer.Consume(Semi);
    }
  }

  // ---------------------------------------------------------------------
  // The accepted language: exactly the printed programs.
  // ---------------------------------------------------------------------

  function ShowBits(bits: seq<bool>): seq<Token> {
    if bits == [] then [] else [Sym(if bits[0] then One else Zero)] + ShowBits(bits[1..])
  }

  function ShowWaveform(w: Waveform): seq<Token> {
    [Id(w.name), Sym(Colon)] + ShowBits(w.bits) + [Sym(Semi)]
  }

  function ShowProgram(ws: seq<Waveform>): seq<Token> {
    if ws == [] then [] else ShowWaveform(ws[0]) + ShowProgram(ws[1..])
  }

  /** The bit loop reads back exactly the bits written before the `;`. */
  lemma {:induction false} BitsShown(bits: seq<bool>, rest: seq<Token>)
    ensures BitsOf(ShowBits(bits) + [Sym(Semi)] + rest) == Some(Parsed(bits, rest))
    decreases |bits|
  {
    var ts := ShowBits(bits) + [Sym(Semi)] + rest;
    if bits == [] {
      assert ts == [Sym(Semi)] + rest;
    } else {
      BitsShown(bits[1..], rest);
      assert ts == [Sym(if bits[0] then One else Zero)] + (ShowBits(bits[1..]) + [Sym(Semi)] + rest);
      assert [bits[0]] + bits[1..] == bits;
    }
  }

  /** What the bit loop read was written as those bits and a `;`. */
  lemma {:induction false} BitsRead(ts: seq<Token>)
    requires BitsOf(ts).Some?
    ensures ts == ShowBits(BitsOf(ts).value.value) + [Sym(Semi)] + BitsOf(ts).value.rest
    decreases |ts|
  {
    if !StartsWith(ts, Semi) {
      BitsRead(ts[1..]);
      var p := BitsOf(ts[1..]).value;
      var bits := [ts[0] == Sym(One)] + p.value;
      assert bits[1..] == p.value;
      assert ts == [ts[0]] + ts[1..];
    }
  }

  lemma WaveformShown(w: Waveform, rest: seq<Token>)
    ensures WaveformOf(ShowWaveform(w) + rest) == Some(Parsed(w, rest))
  {
    var ts := ShowWaveform(w) + rest;
    BitsShown(w.bits, rest);
    assert ts[2..] == ShowBits(w.bits) + [Sym(Semi)] + rest;
  }

  lemma WaveformRead(ts: seq<Token>)
    requires WaveformOf(ts).Some?
    ensures ts == ShowWaveform(WaveformOf(ts).value.value) + WaveformOf(ts).value.rest
  {
    BitsRead(ts[2..]);
    assert ts == ts[..2] + ts[2..];
  }

  /** Every printed program is parsed back into its waveforms, in order. */
  lemma {:induction false} ProgramShown(ws: seq<Waveform>)
    requires ws != []
    ensures ProgramOf(ShowProgram(ws)) == Some(ws)
    decreases |ws|
  {
    var rest := ShowProgram(ws[1..]);
    WaveformShown(ws[0], rest);
    assert ShowProgram(ws) == ShowWaveform(ws[0]) + rest;
    if |ws| > 1 {
      ProgramShown(ws[1..]);
      assert rest == ShowWaveform(ws[1]) + ShowProgram(ws[2..]);
      assert ws == [ws[0]] + ws[1..];
    } else {
      assert rest == [];
      assert ws == [ws[0]];
    }
  }

  /** Everything the parser accepts is the printed form of what it built. */
  lemma {:induction false} ProgramRead(ts: seq<Token>)
    requires ProgramOf(ts).Some?
    ensures ts == ShowProgram(ProgramOf(ts).value)
    decreases |ts|
  {
    var w := WaveformOf(ts).value;
    WaveformRead(ts);
    if w.rest != [] {
      ProgramRead(w.rest);
      var ws := [w.value] + ProgramOf(w.rest).value;
      assert ws[1..] == ProgramOf(w.rest).value;
    } else {
      assert ShowProgram([w.value]) == ShowWaveform(w.value) + ShowProgram([]);
    }
  }

  /**
   * The language of the parser: it accepts `ts` and builds `ws` exactly
   * when `ws` is non-empty and `ts` is `ws` written out.
   */
  lemma ParsesExactlyShown(ts: seq<Token>, ws: seq<Waveform>)
    ensures ProgramOf(ts) == Some(ws) <==> ws != [] && ts == ShowProgram(ws)
  {
    if ProgramOf(ts) == Some(ws) {
      ProgramRead(ts);
    }
    if ws != [] && ts == ShowProgram(ws) {
      ProgramShown(ws);
    }
  }

  /** `name : ;` is accepted, with no bits. */
  lemma EmptyWaveformAccepted(name: string)
    ensures ProgramOf([Id(name), Sym(Colon), Sym(Semi)]) == Some([Waveform(name, [])])
  {
    ParsesExactlyShown([Id(name), Sym(Colon), Sym(Semi)], [Waveform(name, [])]);
    assert ShowProgram([Waveform(name, [])]) == ShowWaveform(Waveform(name, [])) + ShowProgram([]);
  }

  /** The recognizer's bit loop stops where the parser's does. */
  lemma {:induction false} BitsRestAgrees(ts: seq<Token>)
    ensures BitsRest(ts) == if BitsOf(ts).Some? then Some(BitsOf(ts).value.rest) else None
    decreases |ts|
  {
    if !StartsWith(ts, Semi) && (StartsWith(ts, Zero) || StartsWith(ts, One)) {
      BitsRestAgrees(ts[1..]);
    }
  }

  /** The recognizer accepts exactly the token sequences the parser accepts. */
  lemma {:induction false} RecognizerAgrees(ts: seq<Token>)
    ensures Recognized(ts) <==> ProgramOf(ts).Some?
    decreases |ts|
  {
    if ts != [] && ts[0].Id? && StartsWith(ts[1..], Colon) {
      BitsRestAgrees(ts[2..]);
      var rest := WaveformRest(ts);
      if rest.Some? && rest.value != [] {
        RecognizerAgrees(rest.value);
      }
    }
  }
}
