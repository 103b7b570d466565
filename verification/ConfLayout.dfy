/**
 * The configuration language without a scanner: how a token may be laid out in a file, and that the plain scan reads
 * exactly these layouts, each as the words that it shows.
 */
module ConfLayout {
  import opened ConfScan
  import opened ConfQuote

  // ---------- gaps ----------

  /** Blanks and comments; a comment goes from a `#` up to and including the end of its line. */
  predicate GapText(g: string) {
    g == [] || if g[0] == '#' then CommentText(g[1..]) else Blank(g[0]) && GapText(g[1..])
  }

  predicate CommentText(g: string) {
    g != [] && if g[0] == LF then GapText(g[1..]) else CommentText(g[1..])
  }

  // ---------- words ----------

  /** The inside of a word: no byte ends it, except behind a backslash, or as a brace behind a dollar sign and
      braces. */
  predicate Body(q: Quote, dollar: bool, t: string)
    decreases |t|
  {
    t == [] ||
    if t[0] == '\\' then |t| >= 2 && Body(q, false, t[2..])
    else if t[0] == '$' || (t[0] == '{' && dollar) then Body(q, true, t[1..])
    else !Ends(q, t[0]) && Body(q, false, t[1..])
  }

  /** The text ends with a dollar sign, and braces behind it. */
  predicate OpenDollar(dollar: bool, t: string)
    decreases |t|
  {
    if t == [] then dollar
    else if t[0] == '\\' then |t| >= 2 && OpenDollar(false, t[2..])
    else OpenDollar(t[0] == '$' || (t[0] == '{' && dollar), t[1..])
  }

  /** A word as it stands in the file: bare, or between its quotes. */
  datatype Piece = Piece(quote: Quote, text: string)

  function Mark(q: Quote): string {
    match q
    case Bare => []
    case Double => ['"']
    case Single => ['\'']
  }

  predicate Starts(c: char) {
    !Blank(c) && c !in {';', '{', '}', '#', '"', '\''}
  }

  predicate PieceOk(p: Piece) {
    Body(p.quote, false, p.text) && (p.quote == Bare ==> p.text != [] && Starts(p.text[0]))
  }

  function Shown(p: Piece): string {
    Mark(p.quote) + (p.text + Mark(p.quote))
  }

  // ---------- tokens ----------

  /** The words with the gap before each, the gap before the terminator, and the terminator. */
  datatype Layout = Last(gap: string, end: char) | More(gap: string, piece: Piece, rest: Layout)

  function Text(l: Layout): string {
    match l
    case Last(gap, end) => gap + [end]
    case More(gap, piece, rest) => gap + (Shown(piece) + Text(rest))
  }

  /** The words of a layout, with their escapes read. */
  function Words(l: Layout): seq<string> {
    if l.Last? then [] else [Unescaped(l.piece.text)] + Words(l.rest)
  }

  function Count(l: Layout): nat {
    if l.Last? then 0 else 1 + Count(l.rest)
  }

  function End(l: Layout): char {
    if l.Last? then l.end else End(l.rest)
  }

  function CodeOf(end: char): Code {
    if end == ';' then Ok else BlockStart
  }

  /** What stands behind a word: the terminator, or a blank and a gap; a brace directly behind a bare word must not be
      taken for that of a variable. */
  predicate Follows(p: Piece, l: Layout) {
    if l.gap == [] then l.Last? && !(p.quote == Bare && l.end == '{' && OpenDollar(false, p.text))
    else Blank(l.gap[0]) && GapText(l.gap[1..])
  }

  /** All but the first gap. */
  predicate Good(l: Layout) {
    match l
    case Last(_, end) => end == ';' || end == '{'
    case More(_, piece, rest) => PieceOk(piece) && Follows(piece, rest) && Good(rest)
  }

  /** A directive: at least one word, and a terminator. */
  predicate Directive(l: Layout) {
    l.More? && GapText(l.gap) && Good(l)
  }

  // ---------- gaps are passed over ----------

  lemma {:induction false} NewlinesAppend(a: string, b: string)
    ensures Newlines(a + b) == Newlines(a) + Newlines(b)
  {
    if a == [] {
      assert a + b == b;
    } else {
      NewlinesAppend(a[1..], b);
      assert (a + b)[1..] == a[1..] + b;
    }
  }

  lemma Unfold(s: string)
    requires s != []
    ensures s == [s[0]] + s[1..] && Newlines(s) == (if s[0] == LF then 1 else 0) + Newlines(s[1..])
  {
  }

  lemma StandsFirst(file: string, i: nat, s: string)
    requires s != [] && Stands(file, i, s)
    ensures i < |file| && file[i] == s[0] && Stands(file, i + 1, s[1..])
  {
    Unfold(s);
    StandsHead(file, i, s[0], s[1..]);
  }

  lemma {:induction false} ScanGap(file: string, i: nat, st: Scan, g: string) returns (st': Scan)
    requires st.mode == Gap && Stands(file, i, g) && GapText(g)
    ensures st'.mode == Gap && st'.words == st.words && st'.line == st.line + Newlines(g)
    ensures ScanFrom(file, i, st, Unlimited) == ScanFrom(file, i + |g|, st', Unlimited)
    decreases |g|
  {
    st' := st;
    if g != [] {
      StandsFirst(file, i, g);
      var line := if file[i] == LF then st.line + 1 else st.line;
      if g[0] == '#' {
        var next := Scan(Comment, i, line, line, st.words);
        assert Step(file, i, st) == Go(next);
        st' := ScanComment(file, i + 1, next, g[1..]);
      } else {
        var next := Scan(Gap, i, line, line, st.words);
        assert Step(file, i, st) == Go(next);
        st' := ScanGap(file, i + 1, next, g[1..]);
      }
    }
  }

  lemma {:induction false} ScanComment(file: string, i: nat, st: Scan, g: string) returns (st': Scan)
    requires st.mode == Comment && Stands(file, i, g) && CommentText(g)
    ensures st'.mode == Gap && st'.words == st.words && st'.line == st.line + Newlines(g)
    ensures ScanFrom(file, i, st, Unlimited) == ScanFrom(file, i + |g|, st', Unlimited)
    decreases |g|
  {
    StandsFirst(file, i, g);
    if g[0] == LF {
      var next := Scan(Gap, i, st.line + 1, st.line + 1, st.words);
      assert Step(file, i, st) == Go(next);
      st' := ScanGap(file, i + 1, next, g[1..]);
    } else {
      assert Step(file, i, st) == Go(st);
      st' := ScanComment(file, i + 1, st, g[1..]);
    }
  }

  // ---------- words are passed over ----------

  ghost function InsideWord(st: Scan, q: Quote, dollar: bool, line: nat): Scan {
    st.(mode := InWord(q, false, dollar), line := line)
  }

  lemma PassByte(file: string, i: nat, st: Scan, q: Quote, dollar: bool)
    requires i < |file| && file[i] != '\\'
    requires file[i] == '$' || (file[i] == '{' && dollar) || !Ends(q, file[i])
    ensures
      var open := file[i] == '$' || (file[i] == '{' && dollar);
      ScanFrom(file, i, InsideWord(st, q, dollar, st.line), Unlimited)
      == ScanFrom(file, i + 1, InsideWord(st, q, open, st.line + if file[i] == LF then 1 else 0), Unlimited)
  {
    var open := file[i] == '$' || (file[i] == '{' && dollar);
    assert Step(file, i, InsideWord(st, q, dollar, st.line))
      == Go(InsideWord(st, q, open, st.line + if file[i] == LF then 1 else 0));
  }

  lemma PassEscape(file: string, i: nat, st: Scan, q: Quote, dollar: bool)
    requires i + 1 < |file| && file[i] == '\\'
    ensures ScanFrom(file, i, InsideWord(st, q, dollar, st.line), Unlimited)
      == ScanFrom(file, i + 2, InsideWord(st, q, false, st.line + if file[i + 1] == LF then 1 else 0), Unlimited)
  {
    var pending := st.(mode := InWord(q, true, false));
    assert Step(file, i, InsideWord(st, q, dollar, st.line)) == Go(pending);
    assert Step(file, i + 1, pending)
      == Go(InsideWord(st, q, false, st.line + if file[i + 1] == LF then 1 else 0));
  }

  lemma {:induction false} ScanBody(file: string, i: nat, st: Scan, q: Quote, dollar: bool, t: string)
    requires Stands(file, i, t) && Body(q, dollar, t)
    ensures ScanFrom(file, i, InsideWord(st, q, dollar, st.line), Unlimited)
      == ScanFrom(file, i + |t|, InsideWord(st, q, OpenDollar(dollar, t), st.line + Newlines(t)), Unlimited)
    decreases |t|, 1
  {
    if t != [] {
      if t[0] == '\\' {
        ScanEscape(file, i, st, q, dollar, t);
      } else {
        ScanByte(file, i, st, q, dollar, t);
      }
    }
  }

  lemma {:induction false} ScanEscape(file: string, i: nat, st: Scan, q: Quote, dollar: bool, t: string)
    requires Stands(file, i, t) && Body(q, dollar, t) && t != [] && t[0] == '\\'
    ensures ScanFrom(file, i, InsideWord(st, q, dollar, st.line), Unlimited)
      == ScanFrom(file, i + |t|, InsideWord(st, q, OpenDollar(dollar, t), st.line + Newlines(t)), Unlimited)
    decreases |t|, 0
  {
    StandsFirst(file, i, t);
    StandsFirst(file, i + 1, t[1..]);
    Unfold(t);
    Unfold(t[1..]);
    assert t[1..][1..] == t[2..];
    PassEscape(file, i, st, q, dollar);
    var next := st.(line := st.line + if t[1] == LF then 1 else 0);
    ScanBody(file, i + 2, next, q, false, t[2..]);
    SameInside(st, next, q, false, next.line);
    SameInside(st, next, q, OpenDollar(dollar, t), st.line + Newlines(t));
  }

  lemma {:induction false} ScanByte(file: string, i: nat, st: Scan, q: Quote, dollar: bool, t: string)
    requires Stands(file, i, t) && Body(q, dollar, t) && t != [] && t[0] != '\\'
    ensures ScanFrom(file, i, InsideWord(st, q, dollar, st.line), Unlimited)
      == ScanFrom(file, i + |t|, InsideWord(st, q, OpenDollar(dollar, t), st.line + Newlines(t)), Unlimited)
    decreases |t|, 0
  {
    StandsFirst(file, i, t);
    Unfold(t);
    var open := t[0] == '$' || (t[0] == '{' && dollar);
    PassByte(file, i, st, q, dollar);
    var next := st.(line := st.line + if t[0] == LF then 1 else 0);
    ScanBody(file, i + 1, next, q, open, t[1..]);
    SameInside(st, next, q, open, next.line);
    SameInside(st, next, q, OpenDollar(dollar, t), st.line + Newlines(t));
  }

  lemma SameInside(st: Scan, next: Scan, q: Quote, dollar: bool, line: nat)
    requires next == st.(line := next.line)
    ensures InsideWord(st, q, dollar, line) == InsideWord(next, q, dollar, line)
  {
  }

  lemma ScanBare(file: string, i: nat, st: Scan, t: string) returns (st': Scan)
    requires st.mode == Gap && Stands(file, i, t) && t != [] && Starts(t[0]) && Body(Bare, false, t)
    ensures ScanFrom(file, i, st, Unlimited) == ScanFrom(file, i + |t|, st', Unlimited)
    ensures st' == Scan(InWord(Bare, false, OpenDollar(false, t)), i, st.line, st.line + Newlines(t), st.words)
  {
    StandsFirst(file, i, t);
    var entered := Scan(InWord(Bare, false, false), i, st.line, st.line, st.words);
    assert Step(file, i, st) == Step(file, i, entered);
    assert ScanFrom(file, i, st, Unlimited) == ScanFrom(file, i, entered, Unlimited);
    assert entered == InsideWord(entered, Bare, false, entered.line);
    ScanBody(file, i, entered, Bare, false, t);
    st' := InsideWord(entered, Bare, OpenDollar(false, t), st.line + Newlines(t));
  }

  lemma OpenQuote(file: string, i: nat, st: Scan, q: Quote)
    requires st.mode == Gap && q != Bare && i < |file| && [file[i]] == Mark(q)
    ensures ScanFrom(file, i, st, Unlimited)
      == ScanFrom(file, i + 1, Scan(InWord(q, false, false), i + 1, st.line, st.line, st.words), Unlimited)
  {
    assert file[i] == Mark(q)[0];
    assert Step(file, i, st) == Go(Scan(InWord(q, false, false), i + 1, st.line, st.line, st.words));
  }

  lemma CloseQuote(file: string, i: nat, st: Scan, q: Quote, dollar: bool, t: string)
    requires st.mode == InWord(q, false, dollar) && q != Bare && i < |file| && [file[i]] == Mark(q)
    requires st.start <= i && file[st.start..i] == t
    ensures ScanFrom(file, i, st, Unlimited)
      == ScanFrom(file, i + 1, st.(mode := AfterQuote, words := st.words + [Unescaped(t)]), Unlimited)
  {
    assert file[i] == Mark(q)[0];
    assert Step(file, i, st) == Go(st.(mode := AfterQuote, words := st.words + [Unescaped(t)]));
  }

  lemma MarksStand(file: string, i: nat, m: string, t: string)
    requires |m| == 1 && Stands(file, i, m + (t + m))
    ensures
      var j := i + 1 + |t|;
      i < j < |file| && [file[i]] == m && Stands(file, i + 1, t) && file[i + 1..j] == t && [file[j]] == m
  {
    assert m == [m[0]];
    StandsHead(file, i, m[0], t + m);
    StandsTail(file, i + 1, t, m);
    assert file[i + 1 + |t| + 0] == m[0];
  }

  /** From an opening quote to the closing one. */
  lemma ScanQuotes(file: string, i: nat, st: Scan, q: Quote, t: string) returns (inside: Scan)
    requires st.mode == Gap && q != Bare && Body(q, false, t) && i < |file| && [file[i]] == Mark(q)
    requires Stands(file, i + 1, t)
    ensures ScanFrom(file, i, st, Unlimited) == ScanFrom(file, i + 1 + |t|, inside, Unlimited)
    ensures inside == Scan(InWord(q, false, OpenDollar(false, t)), i + 1, st.line, st.line + Newlines(t), st.words)
  {
    var entered := Scan(InWord(q, false, false), i + 1, st.line, st.line, st.words);
    OpenQuote(file, i, st, q);
    assert entered == InsideWord(entered, q, false, entered.line);
    ScanBody(file, i + 1, entered, q, false, t);
    inside := InsideWord(entered, q, OpenDollar(false, t), st.line + Newlines(t));
  }

  lemma ScanMarked(file: string, i: nat, st: Scan, q: Quote, t: string) returns (st': Scan)
    requires st.mode == Gap && q != Bare && Body(q, false, t) && Stands(file, i, Mark(q) + (t + Mark(q)))
    ensures ScanFrom(file, i, st, Unlimited) == ScanFrom(file, i + |t| + 2, st', Unlimited)
    ensures st' == Scan(AfterQuote, i + 1, st.line, st.line + Newlines(t), st.words + [Unescaped(t)])
  {
    MarksStand(file, i, Mark(q), t);
    var inside := ScanQuotes(file, i, st, q, t);
    CloseQuote(file, i + 1 + |t|, inside, q, OpenDollar(false, t), t);
    st' := inside.(mode := AfterQuote, words := inside.words + [Unescaped(t)]);
  }

  /** The scan stands behind the word p: at the byte behind a bare word, which is still open, or behind the closing
      quote. */
  ghost predicate Behind(file: string, i: nat, st: Scan, p: Piece, words: seq<string>, line: nat) {
    && st.line == line && i <= |file|
    && if p.quote == Bare then
         && st.mode == InWord(Bare, false, OpenDollar(false, p.text)) && st.words == words
         && st.start <= i && file[st.start..i] == p.text
       else st.mode == AfterQuote && st.words == words + [Unescaped(p.text)]
  }

  /** From the gap in front of a word to the byte behind it. */
  lemma ScanPiece(file: string, i: nat, st: Scan, p: Piece) returns (st': Scan)
    requires st.mode == Gap && PieceOk(p) && Stands(file, i, Shown(p))
    ensures ScanFrom(file, i, st, Unlimited) == ScanFrom(file, i + |Shown(p)|, st', Unlimited)
    ensures Behind(file, i + |Shown(p)|, st', p, st.words, st.line + Newlines(p.text))
  {
    if p.quote == Bare {
      assert Shown(p) == p.text;
      st' := ScanBare(file, i, st, p.text);
    } else {
      st' := ScanMarked(file, i, st, p.quote, p.text);
    }
  }

  // ---------- directives are read ----------

  /** The terminator directly behind a word. */
  lemma ScanEnd(file: string, i: nat, st: Scan, p: Piece, words: seq<string>, end: char)
    requires Behind(file, i, st, p, words, st.line) && Follows(p, Last([], end))
    requires i < |file| && file[i] == end && (end == ';' || end == '{')
    ensures ScanFrom(file, i, st, Unlimited) == Token(CodeOf(end), words + [Unescaped(p.text)], i + 1, st.line)
  {
    assert Step(file, i, st) == Halt(CodeOf(end), words + [Unescaped(p.text)], st.line);
  }

  /** A blank behind a word. */
  lemma ScanBlank(file: string, i: nat, st: Scan, p: Piece, words: seq<string>) returns (st': Scan)
    requires Behind(file, i, st, p, words, st.line) && i < |file| && Blank(file[i])
    ensures ScanFrom(file, i, st, Unlimited) == ScanFrom(file, i + 1, st', Unlimited)
    ensures st'.mode == Gap && st'.words == words + [Unescaped(p.text)]
      && st'.line == st.line + if file[i] == LF then 1 else 0
  {
    st' := st.(mode := Gap, line := st.line + if file[i] == LF then 1 else 0, words := words + [Unescaped(p.text)]);
    assert Step(file, i, st) == Go(st');
  }

  lemma TextSplit(l: Layout)
    requires l.More?
    ensures Text(l) == l.gap + (Shown(l.piece) + Text(l.rest))
    ensures Newlines(Text(l)) == Newlines(l.gap) + Newlines(l.piece.text) + Newlines(Text(l.rest))
  {
    var m := Mark(l.piece.quote);
    NewlinesAppend(l.gap, Shown(l.piece) + Text(l.rest));
    NewlinesAppend(Shown(l.piece), Text(l.rest));
    NewlinesAppend(m, l.piece.text + m);
    NewlinesAppend(l.piece.text, m);
    assert Newlines(m) == 0 by {
      assert m != [] ==> m[1..] == [];
    }
  }

  function Chop(l: Layout): Layout
    requires l.gap != []
  {
    if l.Last? then Last(l.gap[1..], l.end) else More(l.gap[1..], l.piece, l.rest)
  }

  lemma TextChop(l: Layout)
    requires l.gap != []
    ensures Text(l) == [l.gap[0]] + Text(Chop(l))
    ensures Words(Chop(l)) == Words(l) && Count(Chop(l)) == Count(l) && End(Chop(l)) == End(l)
    ensures Good(Chop(l)) == Good(l) && Chop(l).gap == l.gap[1..]
    ensures Newlines(Text(l)) == (if l.gap[0] == LF then 1 else 0) + Newlines(Text(Chop(l)))
  {
    assert l.gap == [l.gap[0]] + l.gap[1..];
    Unfold(Text(l));
    assert Text(l)[1..] == Text(Chop(l));
  }

  /** A gap and the word behind it. */
  lemma ScanFirst(file: string, i: nat, st: Scan, l: Layout) returns (j: nat, st': Scan)
    requires st.mode == Gap && l.More? && GapText(l.gap) && PieceOk(l.piece) && Stands(file, i, Text(l))
    ensures j == i + |l.gap| + |Shown(l.piece)| && Stands(file, j, Text(l.rest))
    ensures ScanFrom(file, i, st, Unlimited) == ScanFrom(file, j, st', Unlimited)
    ensures Behind(file, j, st', l.piece, st.words, st.line + Newlines(l.gap) + Newlines(l.piece.text))
  {
    StandsTail(file, i, l.gap, Shown(l.piece) + Text(l.rest));
    j := i + |l.gap|;
    StandsTail(file, j, Shown(l.piece), Text(l.rest));
    var st1 := ScanGap(file, i, st, l.gap);
    st' := ScanPiece(file, j, st1, l.piece);
    j := j + |Shown(l.piece)|;
  }

  /** From a gap on, the rest of a directive is read as its words. */
  lemma {:induction false} ReadsFrom(file: string, i: nat, st: Scan, l: Layout)
    requires st.mode == Gap && GapText(l.gap) && Good(l) && (l.Last? ==> st.words != []) && Stands(file, i, Text(l))
    ensures ScanFrom(file, i, st, Unlimited)
      == Token(CodeOf(End(l)), st.words + Words(l), i + |Text(l)|, st.line + Newlines(Text(l)))
    decreases Count(l), 1
  {
    if l.Last? {
      ReadsLast(file, i, st, l);
      NoWords(st.words);
    } else {
      ReadsMore(file, i, st, l);
    }
  }

  lemma NoWords(words: seq<string>)
    ensures words + [] == words
  {
  }

  lemma Regroup(a: seq<string>, w: string, b: seq<string>)
    ensures a + ([w] + b) == (a + [w]) + b
  {
  }

  lemma {:induction false} ReadsMore(file: string, i: nat, st: Scan, l: Layout)
    requires st.mode == Gap && l.More? && GapText(l.gap) && Good(l) && Stands(file, i, Text(l))
    ensures ScanFrom(file, i, st, Unlimited)
      == Token(CodeOf(End(l)), st.words + Words(l), i + |Text(l)|, st.line + Newlines(Text(l)))
    decreases Count(l), 0
  {
    var p, rest := l.piece, l.rest;
    TextSplit(l);
    var j, st' := ScanFirst(file, i, st, l);
    ReadsBehind(file, j, st', p, st.words, rest);
    Regroup(st.words, Unescaped(p.text), Words(rest));
  }

  lemma ReadsLast(file: string, i: nat, st: Scan, l: Layout)
    requires st.mode == Gap && l.Last? && GapText(l.gap) && Good(l) && st.words != [] && Stands(file, i, Text(l))
    ensures ScanFrom(file, i, st, Unlimited)
      == Token(CodeOf(l.end), st.words, i + |Text(l)|, st.line + Newlines(Text(l)))
  {
    StandsTail(file, i, l.gap, [l.end]);
    var j := i + |l.gap|;
    assert file[j + 0] == [l.end][0];
    var st1 := ScanGap(file, i, st, l.gap);
    assert Step(file, j, st1) == Halt(CodeOf(l.end), st1.words, st1.line);
    NewlinesAppend(l.gap, [l.end]);
    assert [l.end][1..] == [];
  }

  /** The same from behind a word. */
  lemma {:induction false} ReadsBehind(file: string, i: nat, st: Scan, p: Piece, words: seq<string>, l: Layout)
    requires Behind(file, i, st, p, words, st.line) && Follows(p, l) && Good(l) && Stands(file, i, Text(l))
    ensures ScanFrom(file, i, st, Unlimited)
      == Token(CodeOf(End(l)), (words + [Unescaped(p.text)]) + Words(l), i + |Text(l)|, st.line + Newlines(Text(l)))
    decreases Count(l), 2
  {
    StandsFirst(file, i, Text(l));
    if l.gap == [] {
      assert Text(l) == [l.end] && [l.end][1..] == [];
      ScanEnd(file, i, st, p, words, l.end);
    } else {
      TextChop(l);
      assert Text(l)[1..] == Text(Chop(l));
      var st1 := ScanBlank(file, i, st, p, words);
      ReadsFrom(file, i + 1, st1, Chop(l));
    }
  }
}
