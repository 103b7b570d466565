/** What the words of a configuration file read as, byte by byte: bare words, quotes, variables and escapes. */
module ConfWords {
  import opened ConfScan
  import opened ConfQuote
  import opened ConfLayout
  import opened ConfGrammar

  // ---------- lines of words ----------

  /** The words, with single spaces between them. */
  function Joined(pieces: seq<Piece>): string
    requires pieces != []
  {
    if |pieces| == 1 then Shown(pieces[0]) else Shown(pieces[0]) + ([' '] + Joined(pieces[1..]))
  }

  /** A line of words ends with a semicolon, or with a space and a brace. */
  function Closing(block: bool): string {
    if block then " {" else ";"
  }

  function Line(pieces: seq<Piece>, block: bool): string
    requires pieces != []
  {
    Joined(pieces) + Closing(block)
  }

  function Meanings(pieces: seq<Piece>): (r: seq<string>)
    ensures |r| == |pieces| && forall i :: 0 <= i < |r| ==> r[i] == Unescaped(pieces[i].text)
  {
    if pieces == [] then [] else [Unescaped(pieces[0].text)] + Meanings(pieces[1..])
  }

  ghost function LayoutOf(pieces: seq<Piece>, gap: string, block: bool): Layout
    requires pieces != []
  {
    More(gap, pieces[0],
      if |pieces| > 1 then LayoutOf(pieces[1..], [' '], block) else if block then Last([' '], '{') else Last([], ';'))
  }

  lemma {:induction false} LayoutIs(pieces: seq<Piece>, gap: string, block: bool)
    requires pieces != [] && forall i :: 0 <= i < |pieces| ==> PieceOk(pieces[i])
    ensures
      var l := LayoutOf(pieces, gap, block);
      Good(l) && Words(l) == Meanings(pieces) && End(l) == if block then '{' else ';'
    decreases |pieces|
  {
    if |pieces| > 1 {
      LayoutIs(pieces[1..], [' '], block);
    } else {
      assert pieces[1..] == [];
    }
  }

  lemma {:induction false} LayoutText(pieces: seq<Piece>, gap: string, block: bool)
    requires pieces != []
    ensures Text(LayoutOf(pieces, gap, block)) == gap + Line(pieces, block)
    decreases |pieces|
  {
    if |pieces| > 1 {
      LayoutText(pieces[1..], [' '], block);
      Rejoin(Shown(pieces[0]), Joined(pieces[1..]), Closing(block));
    }
  }

  lemma Rejoin(a: string, b: string, c: string)
    ensures a + ([' '] + (b + c)) == (a + ([' '] + b)) + c
  {
  }

  /** Any line of words is read as these words, wherever it stands. */
  lemma LineReads(file: string, pos: nat, pieces: seq<Piece>, block: bool, line: nat)
    requires pieces != [] && forall i :: 0 <= i < |pieces| ==> PieceOk(pieces[i])
    requires Stands(file, pos, Line(pieces, block))
    ensures
      var text := Line(pieces, block);
      ReadToken(file, pos, line, Unlimited)
      == Token(if block then BlockStart else Ok, Meanings(pieces), pos + |text|, line + Newlines(text))
  {
    var l := LayoutOf(pieces, [], block);
    LayoutIs(pieces, [], block);
    LayoutText(pieces, [], block);
    assert [] + Line(pieces, block) == Line(pieces, block);
    DirectiveReads(file, pos, line, l);
  }

  // ---------- plain bytes ----------

  /** A byte without any meaning of its own. */
  predicate PlainByte(c: char) {
    c !in {' ', '\t', '\r', '\n', ';', '{', '}', '#', '"', '\'', '\\', '$'}
  }

  predicate Plain(w: string) {
    forall i :: 0 <= i < |w| ==> PlainByte(w[i])
  }

  lemma {:induction false} PlainReads(w: string)
    requires Plain(w)
    ensures Body(Bare, false, w) && !OpenDollar(false, w) && Unescaped(w) == w && Newlines(w) == 0
    decreases |w|
  {
    if w != [] {
      PlainReads(w[1..]);
    }
  }

  function BarePieces(words: seq<string>): (r: seq<Piece>)
    ensures |r| == |words| && forall i :: 0 <= i < |r| ==> r[i] == Piece(Bare, words[i])
  {
    if words == [] then [] else [Piece(Bare, words[0])] + BarePieces(words[1..])
  }

  /** Bare words, with single spaces between them. */
  function BareLine(words: seq<string>, block: bool): string
    requires words != []
  {
    if |words| == 1 then words[0] + Closing(block) else words[0] + ([' '] + BareLine(words[1..], block))
  }

  lemma {:induction false} BareLineIs(words: seq<string>, block: bool)
    requires words != [] && forall i :: 0 <= i < |words| ==> Plain(words[i])
    ensures Line(BarePieces(words), block) == BareLine(words, block) && Newlines(BareLine(words, block)) == 0
    decreases |words|
  {
    var pieces := BarePieces(words);
    assert Shown(pieces[0]) == words[0];
    PlainReads(words[0]);
    if |words| == 1 {
      NewlinesAppend(words[0], Closing(block));
      NoNewlines(block);
    } else {
      assert pieces[1..] == BarePieces(words[1..]);
      BareLineIs(words[1..], block);
      var rest := BareLine(words[1..], block);
      assert Shown(pieces[0]) + ([' '] + Joined(pieces[1..])) + Closing(block)
        == words[0] + ([' '] + (Joined(pieces[1..]) + Closing(block)));
      NewlinesAppend(words[0], [' '] + rest);
      assert ([' '] + rest)[1..] == rest;
    }
  }

  lemma NoNewlines(block: bool)
    ensures Newlines(Closing(block)) == 0
  {
    assert Closing(false)[1..] == [] && Closing(true)[1..] == ['{'] && ['{'][1..] == [];
  }

  /** Round trip without quotes: any non-empty list of non-empty plain words, separated by spaces and ended by a
      semicolon or by a space and a brace, is read back as that list, on the same line. */
  lemma BareRoundTrip(file: string, pos: nat, words: seq<string>, block: bool, line: nat)
    requires words != [] && forall i :: 0 <= i < |words| ==> words[i] != [] && Plain(words[i])
    requires Stands(file, pos, BareLine(words, block))
    ensures ReadToken(file, pos, line, Unlimited)
      == Token(if block then BlockStart else Ok, words, pos + |BareLine(words, block)|, line)
  {
    var pieces := BarePieces(words);
    forall i | 0 <= i < |pieces|
      ensures PieceOk(pieces[i]) && Unescaped(pieces[i].text) == words[i]
    {
      PlainReads(words[i]);
      assert PlainByte(words[i][0]);
    }
    BareLineIs(words, block);
    assert Meanings(pieces) == words;
    LineReads(file, pos, pieces, block, line);
  }

  // ---------- quotes ----------

  /** The quote sign and the backslash get a backslash. */
  function EscapeFor(mark: char, w: string): string {
    if w == [] then []
    else (if w[0] == '\\' || w[0] == mark then ['\\', w[0]] else [w[0]]) + EscapeFor(mark, w[1..])
  }

  lemma {:induction false} EscapedReads(q: Quote, w: string)
    requires q != Bare
    ensures Body(q, false, EscapeFor(Mark(q)[0], w)) && Body(q, true, EscapeFor(Mark(q)[0], w))
    ensures Unescaped(EscapeFor(Mark(q)[0], w)) == w
    decreases |w|
  {
    if w != [] {
      var m := Mark(q)[0];
      EscapedReads(q, w[1..]);
      var e := EscapeFor(m, w);
      if w[0] == '\\' || w[0] == m {
        assert e[2..] == EscapeFor(m, w[1..]);
      } else {
        assert e[1..] == EscapeFor(m, w[1..]);
      }
    }
  }

  function QuotedPieces(q: Quote, words: seq<string>): (r: seq<Piece>)
    requires q != Bare
    ensures |r| == |words| && forall i :: 0 <= i < |r| ==> r[i] == Piece(q, EscapeFor(Mark(q)[0], words[i]))
  {
    if words == [] then [] else [Piece(q, EscapeFor(Mark(q)[0], words[0]))] + QuotedPieces(q, words[1..])
  }

  /** Round trip with quotes of either kind: any non-empty list of words, whatever their bytes, is read back. */
  lemma QuotesRoundTrip(file: string, pos: nat, q: Quote, words: seq<string>, block: bool, line: nat)
    requires q != Bare && words != [] && Stands(file, pos, Line(QuotedPieces(q, words), block))
    ensures
      var text := Line(QuotedPieces(q, words), block);
      ReadToken(file, pos, line, Unlimited)
      == Token(if block then BlockStart else Ok, words, pos + |text|, line + Newlines(text))
  {
    var pieces := QuotedPieces(q, words);
    forall i | 0 <= i < |pieces|
      ensures PieceOk(pieces[i]) && Unescaped(pieces[i].text) == words[i]
    {
      EscapedReads(q, words[i]);
    }
    assert Meanings(pieces) == words;
    LineReads(file, pos, pieces, block, line);
  }

  // ---------- variables and escapes ----------

  lemma BodyByte(q: Quote, dollar: bool, c: char, t: string)
    requires c != '\\'
    ensures
      var open := c == '$' || (c == '{' && dollar);
      && (Body(q, dollar, [c] + t) <==> (open || !Ends(q, c)) && Body(q, open, t))
      && (OpenDollar(dollar, [c] + t) <==> OpenDollar(open, t))
  {
    assert ([c] + t)[1..] == t;
  }

  lemma BodyPair(q: Quote, dollar: bool, c: char, t: string)
    ensures Body(q, dollar, ['\\', c] + t) <==> Body(q, false, t)
    ensures OpenDollar(dollar, ['\\', c] + t) <==> OpenDollar(false, t)
  {
    assert (['\\', c] + t)[2..] == t;
  }

  lemma SplitByte(a: string, b: string)
    requires a != []
    ensures a == [a[0]] + a[1..] && a + b == [a[0]] + (a[1..] + b)
  {
  }

  lemma SplitPair(a: string, b: string)
    requires |a| >= 2
    ensures a == [a[0], a[1]] + a[2..] && a + b == [a[0], a[1]] + (a[2..] + b)
  {
  }

  lemma {:induction false} BodyAppend(q: Quote, dollar: bool, a: string, b: string)
    requires Body(q, dollar, a) && Body(q, OpenDollar(dollar, a), b)
    ensures Body(q, dollar, a + b) && OpenDollar(dollar, a + b) == OpenDollar(OpenDollar(dollar, a), b)
    decreases |a|
  {
    if a == [] {
      assert a + b == b;
    } else if a[0] == '\\' {
      SplitPair(a, b);
      BodyPair(q, dollar, a[1], a[2..]);
      BodyPair(q, dollar, a[1], a[2..] + b);
      BodyAppend(q, false, a[2..], b);
    } else {
      var open := a[0] == '$' || (a[0] == '{' && dollar);
      SplitByte(a, b);
      BodyByte(q, dollar, a[0], a[1..]);
      BodyByte(q, dollar, a[0], a[1..] + b);
      BodyAppend(q, open, a[1..], b);
    }
  }

  lemma UnescapedByte(c: char, t: string)
    requires c != '\\'
    ensures Unescaped([c] + t) == [c] + Unescaped(t)
  {
    assert ([c] + t)[1..] == t;
  }

  lemma {:induction false} UnescapedAppend(a: string, b: string)
    requires '\\' !in a
    ensures Unescaped(a + b) == a + Unescaped(b)
  {
    if a == [] {
      assert a + b == b;
    } else {
      SplitByte(a, b);
      SplitByte(a, Unescaped(b));
      UnescapedAppend(a[1..], b);
      UnescapedByte(a[0], a[1..] + b);
    }
  }

  /** One bare word, ended by a semicolon. */
  lemma WordReads(file: string, pos: nat, t: string, line: nat)
    requires PieceOk(Piece(Bare, t)) && Stands(file, pos, t + ";")
    ensures ReadToken(file, pos, line, Unlimited) == Token(Ok, [Unescaped(t)], pos + |t| + 1, line + Newlines(t))
  {
    OneWordLine(t);
    LineReads(file, pos, [Piece(Bare, t)], false, line);
  }

  lemma OneWordLine(t: string)
    ensures Line([Piece(Bare, t)], false) == t + ";" && Newlines(t + ";") == Newlines(t)
    ensures Meanings([Piece(Bare, t)]) == [Unescaped(t)]
  {
    assert Shown(Piece(Bare, t)) == t;
    NewlinesAppend(t, ";");
    NoNewlines(false);
  }

  lemma {:induction false} NoLines(w: string)
    requires LF !in w
    ensures Newlines(w) == 0
  {
    if w != [] {
      NoLines(w[1..]);
    }
  }

  lemma NoEscapes(w: string)
    requires '\\' !in w
    ensures Unescaped(w) == w
  {
    UnescapedAppend(w, []);
    assert w + [] == w;
  }

  function Variable(a: string, name: string, b: string): string {
    a + ("${" + (name + ("}" + b)))
  }

  /** A variable in a word: neither the brace behind the dollar sign nor the closing one ends the word. */
  lemma VariableReads(file: string, pos: nat, a: string, name: string, b: string, line: nat)
    requires Plain(a) && Plain(name) && Plain(b) && Stands(file, pos, Variable(a, name, b) + ";")
    ensures
      var word := Variable(a, name, b);
      ReadToken(file, pos, line, Unlimited) == Token(Ok, [word], pos + |word| + 1, line)
  {
    var word := Variable(a, name, b);
    VariableBytes(a, name, b);
    VariablePiece(a, name, b);
    NoEscapes(word);
    NoLines(word);
    WordReads(file, pos, word, line);
  }

  lemma VariableBytes(a: string, name: string, b: string)
    requires Plain(a) && Plain(name) && Plain(b)
    ensures '\\' !in Variable(a, name, b) && LF !in Variable(a, name, b)
  {
    forall i | 0 <= i < |Variable(a, name, b)|
      ensures Variable(a, name, b)[i] !in {'\\', LF}
    {
    }
  }

  lemma VariablePiece(a: string, name: string, b: string)
    requires Plain(a) && Plain(name) && Plain(b)
    ensures PieceOk(Piece(Bare, Variable(a, name, b)))
  {
    var tail := "}" + b;
    PlainReads(a);
    ClosedTail(b);
    VariableBody(name, tail);
    BodyAppend(Bare, false, a, "${" + (name + tail));
    assert a != [] ==> PlainByte(a[0]);
  }

  lemma ClosedTail(b: string)
    requires Plain(b)
    ensures Body(Bare, false, "}" + b) && Body(Bare, true, "}" + b)
  {
    PlainReads(b);
    assert ("}" + b)[1..] == b;
  }

  lemma VariableBody(name: string, tail: string)
    requires Plain(name) && Body(Bare, false, tail) && (name == [] ==> Body(Bare, true, tail))
    ensures Body(Bare, false, "${" + (name + tail))
  {
    var rest := name + tail;
    PlainReads(name);
    PlainAnyway(name, tail);
    assert ("${" + rest)[1..] == "{" + rest;
    assert ("{" + rest)[1..] == rest;
  }

  /** Behind a dollar sign too, plain bytes are plain. */
  lemma PlainAnyway(name: string, tail: string)
    requires Plain(name) && Body(Bare, false, tail) && (name == [] ==> Body(Bare, true, tail))
    ensures Body(Bare, true, name + tail)
  {
    if name == [] {
      assert name + tail == tail;
    } else {
      assert PlainByte(name[0]) && Plain(name[1..]);
      PlainReads(name[1..]);
      BodyAppend(Bare, false, name[1..], tail);
      assert (name + tail)[1..] == name[1..] + tail;
    }
  }

  /** What a backslash and a byte read as: six pairs stand for one byte, all others for themselves. */
  predicate Reads(c: char, meaning: string) {
    if c == 't' then meaning == [9 as char]
    else if c == 'n' then meaning == [10 as char]
    else if c == 'r' then meaning == [13 as char]
    else if c == '"' || c == '\'' || c == '\\' then meaning == [c]
    else meaning == ['\\', c]
  }

  lemma PairReads(c: char, b: string) returns (meaning: string)
    requires '\\' !in b
    ensures Reads(c, meaning) && Unescaped(['\\', c] + b) == meaning + b
  {
    NoEscapes(b);
    var s := ['\\', c] + b;
    assert s[2..] == b && s[1..] == [c] + b;
    if c == 't' {
      meaning := ['\t'];
    } else if c == 'n' {
      meaning := ['\n'];
    } else if c == 'r' {
      meaning := ['\r'];
    } else if c == '"' || c == '\'' || c == '\\' {
      meaning := [c];
    } else {
      meaning := ['\\', c];
      assert ([c] + b)[1..] == b;
      assert Unescaped([c] + b) == [c] + b;
    }
  }

  /** A backslash in a bare word: it keeps any byte behind it from ending the word, blanks and terminators included,
      and the pair is read as `Reads` says. */
  lemma EscapeReads(file: string, pos: nat, a: string, c: char, b: string, line: nat) returns (meaning: string)
    requires Plain(a) && Plain(b) && Stands(file, pos, a + (['\\', c] + b) + ";")
    ensures Reads(c, meaning)
    ensures
      var word := a + (['\\', c] + b);
      ReadToken(file, pos, line, Unlimited)
      == Token(Ok, [a + (meaning + b)], pos + |word| + 1, line + if c == LF then 1 else 0)
  {
    var pair := ['\\', c] + b;
    PlainReads(a);
    PlainReads(b);
    assert pair[2..] == b;
    BodyAppend(Bare, false, a, pair);
    assert a != [] ==> PlainByte(a[0]);
    meaning := PairReads(c, b);
    UnescapedAppend(a, pair);
    NewlinesAppend(a, pair);
    Unfold(pair);
    Unfold(pair[1..]);
    assert pair[1..][1..] == b;
    WordReads(file, pos, a + pair, line);
  }
}
