/**
 * The parts of markdown-it's parser state that the plugins read and write: the token
 * stream, the block parser's line table and the inline parser's position.
 */
module MarkdownState {
  import opened Wrappers

  /** A markdown-it token, with the fields the plugins set. `lineMap` is `token.map`. */
  datatype Token = Token(kind: string, tag: string, nesting: int, content: string, markup: string,
                         lineMap: Option<(nat, nat)>, block: bool)

  /** The block parser's state: line `l` starts at `bMarks[l]`, its text after indentation
    * at `bMarks[l] + tShift[l]`, and it ends at `eMarks[l]`. */
  class BlockState {
    const src: string
    const bMarks: seq<nat>
    const eMarks: seq<nat>
    const tShift: seq<nat>
    var line: nat
    var tokens: seq<Token>

    /** The line table describes lines of `src`. */
    predicate Valid() {
      |bMarks| == |eMarks| == |tShift|
      && forall l :: 0 <= l < |bMarks| ==> bMarks[l] + tShift[l] <= eMarks[l] <= |src|
    }

    function LineCount(): nat {
      |bMarks|
    }

    /** `src.slice(bMarks[l] + tShift[l], eMarks[l])`: the line without its indentation. */
    function LineText(l: nat): (t: string)
      requires Valid() && l < LineCount()
      ensures |t| == eMarks[l] - (bMarks[l] + tShift[l])
    {
      src[bMarks[l] + tShift[l]..eMarks[l]]
    }

    constructor (src: string, bMarks: seq<nat>, eMarks: seq<nat>, tShift: seq<nat>)
      ensures this.src == src && this.bMarks == bMarks && this.eMarks == eMarks && this.tShift == tShift
      ensures line == 0 && tokens == []
    {
      this.src := src;
      this.bMarks := bMarks;
      this.eMarks := eMarks;
      this.tShift := tShift;
      line := 0;
      tokens := [];
    }

    /** `state.push`: appends a token and leaves the line where it is. */
    method Push(t: Token)
      modifies this
      ensures tokens == old(tokens) + [t] && line == old(line)
    {
      tokens := tokens + [t];
    }
  }

  /** The inline parser's state: the rule looks at `src` from `pos` up to `posMax`. */
  class InlineState {
    const src: string
    const posMax: nat
    var pos: nat
    var tokens: seq<Token>

    predicate Valid() {
      posMax <= |src|
    }

    constructor (src: string, posMax: nat, pos: nat)
      ensures this.src == src && this.posMax == posMax && this.pos == pos && tokens == []
    {
      this.src := src;
      this.posMax := posMax;
      this.pos := pos;
      tokens := [];
    }

    method Push(t: Token)
      modifies this
      ensures tokens == old(tokens) + [t] && pos == old(pos)
    {
      tokens := tokens + [t];
    }
  }

  /** The core rules' state: the whole token stream of one render. */
  class CoreState {
    var tokens: seq<Token>

    constructor (tokens: seq<Token>)
      ensures this.tokens == tokens
    {
      this.tokens := tokens;
    }
  }
}
