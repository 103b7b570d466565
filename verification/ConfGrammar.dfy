/** The converse of `ConfLayout`: whatever the scan reads as a directive, a block end or the end of the file is laid out
    as one. */
module ConfGrammar {
  import opened ConfScan
  import opened ConfQuote
  import opened ConfLayout

  predicate IsDirective(t: Token) {
    t.code == Ok || t.code == BlockStart
  }

  /** What may stand behind a word, bare or not, that ends with an open dollar sign or not. */
  predicate Behaves(bare: bool, open: bool, l: Layout) {
    if l.gap == [] then l.Last? && !(bare && l.end == '{' && open)
    else Blank(l.gap[0]) && GapText(l.gap[1..])
  }

  function Prepend(c: char, l: Layout): Layout {
    if l.Last? then Last([c] + l.gap, l.end) else More([c] + l.gap, l.piece, l.rest)
  }

  lemma TextPrepend(c: char, l: Layout)
    ensures Text(Prepend(c, l)) == [c] + Text(l) && Good(Prepend(c, l)) == Good(l)
    ensures Prepend(c, l).gap == [c] + l.gap && ([c] + l.gap)[1..] == l.gap
  {
    TextChop(Prepend(c, l));
    assert Chop(Prepend(c, l)) == l;
  }

  lemma StandsPrepend(file: string, i: nat, s: string)
    requires i < |file| && Stands(file, i + 1, s)
    ensures Stands(file, i, [file[i]] + s)
  {
    forall k | 0 <= k < |[file[i]] + s|
      ensures file[i + k] == ([file[i]] + s)[k]
    {
      assert k > 0 ==> file[i + 1 + (k - 1)] == s[k - 1];
    }
  }

  lemma Longer(file: string, i: nat, l: Layout)
    requires i < |file| && Stands(file, i + 1, Text(l))
    ensures Stands(file, i, Text(Prepend(file[i], l)))
  {
    TextPrepend(file[i], l);
    StandsPrepend(file, i, Text(l));
  }

  lemma LastStands(file: string, i: nat)
    requires i < |file|
    ensures Stands(file, i, Text(Last([], file[i])))
  {
    assert Text(Last([], file[i])) == [file[i]];
  }

  // ---------- directives ----------

  lemma {:induction false} FromGap(file: string, i: nat, st: Scan) returns (l: Layout)
    requires i <= |file| && st.mode == Gap && IsDirective(ScanFrom(file, i, st, Unlimited))
    ensures GapText(l.gap) && Good(l) && (l.Last? ==> st.words != []) && Stands(file, i, Text(l))
    decreases |file| - i, 3
  {
    var c := file[i];
    var line := if c == LF then st.line + 1 else st.line;
    if Blank(c) || c == '#' {
      var next := Scan(if c == '#' then Comment else Gap, i, line, line, st.words);
      assert Step(file, i, st) == Go(next);
      if c == '#' {
        l := FromComment(file, i + 1, next);
      } else {
        l := FromGap(file, i + 1, next);
      }
      Longer(file, i, l);
      TextPrepend(c, l);
      l := Prepend(c, l);
    } else if c == ';' || c == '{' {
      l := Last([], c);
      LastStands(file, i);
    } else {
      l := FromFirst(file, i, st);
    }
  }

  lemma {:induction false} FromComment(file: string, i: nat, st: Scan) returns (l: Layout)
    requires i <= |file| && st.mode == Comment && IsDirective(ScanFrom(file, i, st, Unlimited))
    ensures CommentText(l.gap) && Good(l) && (l.Last? ==> st.words != []) && Stands(file, i, Text(l))
    decreases |file| - i, 3
  {
    var c := file[i];
    if c == LF {
      var next := Scan(Gap, i, st.line + 1, st.line + 1, st.words);
      assert Step(file, i, st) == Go(next);
      l := FromGap(file, i + 1, next);
    } else {
      assert Step(file, i, st) == Go(st);
      l := FromComment(file, i + 1, st);
    }
    Longer(file, i, l);
    TextPrepend(c, l);
    l := Prepend(c, l);
  }

  /** The first byte of a word, or its opening quote. */
  lemma {:induction false} FromFirst(file: string, i: nat, st: Scan) returns (l: Layout)
    requires i < |file| && st.mode == Gap && IsDirective(ScanFrom(file, i, st, Unlimited))
    requires !Blank(file[i]) && file[i] !in {';', '{', '#'}
    ensures l.More? && l.gap == [] && Good(l) && Stands(file, i, Text(l))
    decreases |file| - i, 2
  {
    var t, rest;
    if file[i] == '"' {
      t, rest := FromMark(file, i, st, Double);
      l := More([], Piece(Double, t), rest);
      MarkedText(Double, t, rest);
    } else if file[i] == '\'' {
      t, rest := FromMark(file, i, st, Single);
      l := More([], Piece(Single, t), rest);
      MarkedText(Single, t, rest);
    } else {
      assert file[i] != '}';
      var entered := Scan(InWord(Bare, false, false), i, st.line, st.line, st.words);
      assert Step(file, i, st) == Step(file, i, entered);
      t, rest := FromWord(file, i, entered, Bare, false);
      BareStarts(file, i, t, rest);
      l := More([], Piece(Bare, t), rest);
      MarkedText(Bare, t, rest);
    }
  }

  lemma MarkedText(q: Quote, t: string, rest: Layout)
    ensures Text(More([], Piece(q, t), rest)) == Mark(q) + (t + (Mark(q) + Text(rest)))
    ensures q == Bare ==> Text(More([], Piece(q, t), rest)) == t + (Mark(q) + Text(rest))
  {
  }

  lemma {:induction false} FromMark(file: string, i: nat, st: Scan, q: Quote) returns (t: string, rest: Layout)
    requires i < |file| && st.mode == Gap && IsDirective(ScanFrom(file, i, st, Unlimited))
    requires q != Bare && Mark(q) == [file[i]]
    ensures PieceOk(Piece(q, t)) && Follows(Piece(q, t), rest) && Good(rest)
    ensures Stands(file, i, Mark(q) + (t + (Mark(q) + Text(rest))))
    decreases |file| - i, 1
  {
    assert file[i] == Mark(q)[0];
    var entered := Scan(InWord(q, false, false), i + 1, st.line, st.line, st.words);
    assert Step(file, i, st) == Go(entered);
    t, rest := FromWord(file, i + 1, entered, q, false);
    StandsPrepend(file, i, t + (Mark(q) + Text(rest)));
  }

  lemma BareStarts(file: string, i: nat, t: string, rest: Layout)
    requires Stands(file, i, t + ([] + Text(rest))) && i < |file| && Starts(file[i])
    requires Good(rest) && Behaves(true, OpenDollar(false, t), rest)
    ensures t != [] && t[0] == file[i]
  {
    assert file[i + 0] == (t + ([] + Text(rest)))[0];
  }

  /** Inside a word: the rest of its text, and what comes behind it. */
  lemma {:induction false} FromWord(file: string, i: nat, st: Scan, q: Quote, dollar: bool)
      returns (t: string, rest: Layout)
    requires i <= |file| && st.mode == InWord(q, false, dollar) && IsDirective(ScanFrom(file, i, st, Unlimited))
    ensures Body(q, dollar, t) && Good(rest) && Behaves(q == Bare, OpenDollar(dollar, t), rest)
    ensures Stands(file, i, t + (Mark(q) + Text(rest)))
    decreases |file| - i, 1
  {
    var c := file[i];
    var line := if c == LF then st.line + 1 else st.line;
    if c == '\\' {
      t, rest := FromEscape(file, i, st, q, dollar);
    } else if c == '$' || (c == '{' && dollar) || !Ends(q, c) {
      var open := c == '$' || (c == '{' && dollar);
      var next := st.(mode := InWord(q, false, open), line := line);
      assert Step(file, i, st) == Go(next);
      t, rest := FromWord(file, i + 1, next, q, open);
      StandsPrepend(file, i, t + (Mark(q) + Text(rest)));
      PrependBody(c, t, Mark(q) + Text(rest));
      t := [c] + t;
    } else {
      t := [];
      rest := FromEnd(file, i, st, q, dollar);
      assert [] + (Mark(q) + Text(rest)) == Mark(q) + Text(rest);
    }
  }

  lemma PrependBody(c: char, t: string, tail: string)
    ensures ([c] + t)[1..] == t && [c] + (t + tail) == ([c] + t) + tail
  {
  }

  lemma {:induction false} FromEscape(file: string, i: nat, st: Scan, q: Quote, dollar: bool)
      returns (t: string, rest: Layout)
    requires i < |file| && st.mode == InWord(q, false, dollar) && IsDirective(ScanFrom(file, i, st, Unlimited))
    requires file[i] == '\\'
    ensures Body(q, dollar, t) && Good(rest) && Behaves(q == Bare, OpenDollar(dollar, t), rest)
    ensures Stands(file, i, t + (Mark(q) + Text(rest)))
    decreases |file| - i, 0
  {
    var pending := st.(mode := InWord(q, true, false));
    assert Step(file, i, st) == Go(pending);
    assert ScanFrom(file, i, st, Unlimited) == ScanFrom(file, i + 1, pending, Unlimited);
    assert i + 1 < |file|;
    var d := file[i + 1];
    var next := pending.(mode := InWord(q, false, false), line := if d == LF then st.line + 1 else st.line);
    assert Step(file, i + 1, pending) == Go(next);
    assert ScanFrom(file, i + 1, pending, Unlimited) == ScanFrom(file, i + 2, next, Unlimited);
    t, rest := FromWord(file, i + 2, next, q, false);
    var tail := Mark(q) + Text(rest);
    StandsPrepend(file, i + 1, t + tail);
    PrependBody(d, t, tail);
    StandsPrepend(file, i, ([d] + t) + tail);
    PrependBody('\\', [d] + t, tail);
    var s := ['\\'] + ([d] + t);
    assert s[2..] == t;
    t := s;
  }

  /** The byte that ends a word. */
  lemma {:induction false} FromEnd(file: string, i: nat, st: Scan, q: Quote, dollar: bool) returns (rest: Layout)
    requires i < |file| && st.mode == InWord(q, false, dollar) && IsDirective(ScanFrom(file, i, st, Unlimited))
    requires Ends(q, file[i]) && !(file[i] == '{' && dollar)
    ensures Good(rest) && Behaves(q == Bare, dollar, rest) && Stands(file, i, Mark(q) + Text(rest))
    decreases |file| - i, 0
  {
    var c := file[i];
    var line := if c == LF then st.line + 1 else st.line;
    var words := st.words + [WordAt(file, st.start, i)];
    if q != Bare {
      var next := st.(mode := AfterQuote, words := words, line := line);
      assert Step(file, i, st) == Go(next);
      rest := FromQuote(file, i + 1, next);
      StandsPrepend(file, i, Text(rest));
      assert Mark(q) == [c];
    } else if Blank(c) {
      var next := st.(mode := Gap, words := words, line := line);
      assert Step(file, i, st) == Go(next);
      var l := FromGap(file, i + 1, next);
      Longer(file, i, l);
      TextPrepend(c, l);
      rest := Prepend(c, l);
      assert Mark(q) + Text(rest) == Text(rest);
    } else {
      rest := Last([], c);
      LastStands(file, i);
      assert Mark(q) + Text(rest) == Text(rest);
    }
  }

  /** Behind a closing quote. */
  lemma {:induction false} FromQuote(file: string, i: nat, st: Scan) returns (rest: Layout)
    requires i <= |file| && st.mode == AfterQuote && IsDirective(ScanFrom(file, i, st, Unlimited))
    ensures Good(rest) && Behaves(false, false, rest) && Stands(file, i, Text(rest))
    decreases |file| - i, 3
  {
    var c := file[i];
    if Blank(c) {
      var next := st.(mode := Gap, line := if c == LF then st.line + 1 else st.line);
      assert Step(file, i, st) == Go(next);
      var l := FromGap(file, i + 1, next);
      Longer(file, i, l);
      TextPrepend(c, l);
      rest := Prepend(c, l);
    } else {
      rest := Last([], c);
      LastStands(file, i);
    }
  }

  /** A directive is read as its words. */
  lemma DirectiveReads(file: string, pos: nat, line: nat, l: Layout)
    requires Directive(l) && Stands(file, pos, Text(l))
    ensures ReadToken(file, pos, line, Unlimited)
      == Token(CodeOf(End(l)), Words(l), pos + |Text(l)|, line + Newlines(Text(l)))
  {
    ReadsFrom(file, pos, Fresh(pos, line), l);
    assert [] + Words(l) == Words(l);
  }

  /** A token is read as a directive exactly if a directive is laid out there, and every layout of it says which words,
      position and line are read. */
  lemma DirectiveExactly(file: string, pos: nat, line: nat)
    requires pos <= |file|
    ensures
      var t := ReadToken(file, pos, line, Unlimited);
      && (IsDirective(t) <==> exists l :: Directive(l) && Stands(file, pos, Text(l)))
      && forall l :: Directive(l) && Stands(file, pos, Text(l)) ==>
        t == Token(CodeOf(End(l)), Words(l), pos + |Text(l)|, line + Newlines(Text(l)))
  {
    var t, st := ReadToken(file, pos, line, Unlimited), Fresh(pos, line);
    forall l | Directive(l) && Stands(file, pos, Text(l))
      ensures t == Token(CodeOf(End(l)), Words(l), pos + |Text(l)|, line + Newlines(Text(l)))
    {
      DirectiveReads(file, pos, line, l);
    }
    if IsDirective(t) {
      var l := FromGap(file, pos, st);
      assert Directive(l);
    }
  }

  // ---------- the end of a block ----------

  /** A token that has begun with a word is a directive or an error. */
  lemma {:induction false} NoEnd(file: string, i: nat, st: Scan)
    requires i <= |file| && (st.words != [] || st.mode.InWord?)
    ensures ScanFrom(file, i, st, Unlimited).code !in {BlockDone, FileDone}
    decreases |file| - i
  {
    if i < |file| {
      var o := Step(file, i, st);
      if o.Go? {
        NoEnd(file, i + 1, o.st);
      }
    }
  }

  lemma {:induction false} FromBlockEnd(file: string, i: nat, st: Scan) returns (g: string)
    requires i <= |file| && st.mode in {Gap, Comment} && ScanFrom(file, i, st, Unlimited).code == BlockDone
    ensures if st.mode == Gap then GapText(g) else CommentText(g)
    ensures Stands(file, i, g + ['}'])
    decreases |file| - i
  {
    var c := file[i];
    if st.mode == Gap && c == '}' {
      g := [];
      assert g + ['}'] == ['}'];
    } else {
      var o := Step(file, i, st);
      assert o.Go?;
      if o.st.mode.InWord? {
        NoEnd(file, i + 1, o.st);
        assert false;
      } else {
        g := FromBlockEnd(file, i + 1, o.st);
        StandsPrepend(file, i, g + ['}']);
        PrependBody(c, g, ['}']);
        g := [c] + g;
      }
    }
  }

  /** A token is read as the end of a block exactly if a gap and a closing brace stand there. */
  lemma BlockEndExactly(file: string, pos: nat, line: nat)
    requires pos <= |file|
    ensures
      var t := ReadToken(file, pos, line, Unlimited);
      && (t.code == BlockDone <==> exists g :: GapText(g) && Stands(file, pos, g + ['}']))
      && forall g :: GapText(g) && Stands(file, pos, g + ['}']) ==>
        t == Token(BlockDone, [], pos + |g| + 1, line + Newlines(g))
  {
    var t, st := ReadToken(file, pos, line, Unlimited), Fresh(pos, line);
    forall g | GapText(g) && Stands(file, pos, g + ['}'])
      ensures t == Token(BlockDone, [], pos + |g| + 1, line + Newlines(g))
    {
      StandsTail(file, pos, g, ['}']);
      assert file[pos + |g| + 0] == ['}'][0];
      var st' := ScanGap(file, pos, st, g);
      assert Step(file, pos + |g|, st') == Halt(BlockDone, [], st'.line);
    }
    if t.code == BlockDone {
      var g := FromBlockEnd(file, pos, st);
    }
  }

  // ---------- the end of the file ----------

  /** Blanks and comments up to the end of the file; the last comment needs no end of line. */
  predicate Trailing(s: string) {
    s == [] || if s[0] == '#' then TrailingComment(s[1..]) else Blank(s[0]) && Trailing(s[1..])
  }

  predicate TrailingComment(s: string) {
    s == [] || if s[0] == LF then Trailing(s[1..]) else TrailingComment(s[1..])
  }

  lemma {:induction false} ScanTrailing(file: string, i: nat, st: Scan)
    requires i <= |file| && st.mode in {Gap, Comment} && st.words == []
    ensures
      var t := ScanFrom(file, i, st, Unlimited);
      && (t.code == FileDone <==> if st.mode == Gap then Trailing(file[i..]) else TrailingComment(file[i..]))
      && (t.code == FileDone ==> t == Token(FileDone, [], |file|, st.line + Newlines(file[i..])))
    decreases |file| - i
  {
    if i < |file| {
      assert file[i..][0] == file[i] && file[i..][1..] == file[i + 1..];
      Unfold(file[i..]);
      var o := Step(file, i, st);
      if o.Go? {
        if o.st.mode.InWord? {
          NoEnd(file, i + 1, o.st);
        } else {
          ScanTrailing(file, i + 1, o.st);
        }
      }
    }
  }

  /** The end of the file is read exactly if only blanks and comments are left. */
  lemma FileEndExactly(file: string, pos: nat, line: nat)
    requires pos <= |file|
    ensures
      var t := ReadToken(file, pos, line, Unlimited);
      && (t.code == FileDone <==> Trailing(file[pos..]))
      && (t.code == FileDone ==> t == Token(FileDone, [], |file|, line + Newlines(file[pos..])))
  {
    ScanTrailing(file, pos, Fresh(pos, line));
  }

  /** Everything else is an error. */
  lemma ErrorExactly(file: string, pos: nat, line: nat)
    requires pos <= |file|
    ensures ReadToken(file, pos, line, Unlimited).code == Error <==>
      && (forall l :: !(Directive(l) && Stands(file, pos, Text(l))))
      && (forall g :: !(GapText(g) && Stands(file, pos, g + ['}'])))
      && !Trailing(file[pos..])
  {
    DirectiveExactly(file, pos, line);
    BlockEndExactly(file, pos, line);
    FileEndExactly(file, pos, line);
    NotTooLong(file, pos, Fresh(pos, line));
  }

  lemma {:induction false} NotTooLong(file: string, i: nat, st: Scan)
    requires i <= |file|
    ensures ScanFrom(file, i, st, Unlimited).code != TooLong
    decreases |file| - i
  {
    if i < |file| {
      var o := Step(file, i, st);
      if o.Go? {
        NotTooLong(file, i + 1, o.st);
      }
    }
  }

  /** A gap in front of a token changes only where it is read from: a comment is passed over to the end of its line. */
  lemma GapSkipped(file: string, pos: nat, line: nat, g: string)
    requires GapText(g) && Stands(file, pos, g)
    ensures ReadToken(file, pos, line, Unlimited) == ReadToken(file, pos + |g|, line + Newlines(g), Unlimited)
  {
    GapSkips(file, pos, Fresh(pos, line), g, Fresh(pos + |g|, line + Newlines(g)));
  }

  lemma GapSkips(file: string, i: nat, a: Scan, g: string, b: Scan)
    requires GapText(g) && Stands(file, i, g) && a.mode == Gap == b.mode && a.words == b.words
    requires b.line == a.line + Newlines(g)
    ensures ScanFrom(file, i, a, Unlimited) == ScanFrom(file, i + |g|, b, Unlimited)
  {
    var st := ScanGap(file, i, a, g);
    GapStart(file, i + |g|, st, b);
  }

  /** Where a gap began is forgotten with the next byte. */
  lemma GapStart(file: string, i: nat, a: Scan, b: Scan)
    requires i <= |file| && a.mode == Gap == b.mode && a.words == b.words && a.line == b.line
    ensures ScanFrom(file, i, a, Unlimited) == ScanFrom(file, i, b, Unlimited)
  {
    assert i < |file| ==> Step(file, i, a) == Step(file, i, b);
  }

  lemma {:induction false} CommentIsGap(text: string)
    requires LF !in text
    ensures CommentText(text + [LF])
  {
    if text == [] {
      assert (text + [LF])[1..] == [];
    } else {
      CommentIsGap(text[1..]);
      assert (text + [LF])[1..] == text[1..] + [LF];
    }
  }

  lemma {:induction false} LineHasOneEnd(text: string)
    requires LF !in text
    ensures Newlines(text + [LF]) == 1
  {
    if text == [] {
      assert (text + [LF])[1..] == [];
    } else {
      LineHasOneEnd(text[1..]);
      assert (text + [LF])[1..] == text[1..] + [LF];
    }
  }

  /** A comment line in front of a token: the token behind it is read, one line further. */
  lemma CommentSkipped(file: string, pos: nat, text: string, line: nat)
    requires LF !in text && Stands(file, pos, ['#'] + (text + [LF]))
    ensures ReadToken(file, pos, line, Unlimited) == ReadToken(file, pos + |text| + 2, line + 1, Unlimited)
  {
    var comment := ['#'] + (text + [LF]);
    CommentIsGap(text);
    LineHasOneEnd(text);
    assert comment[1..] == text + [LF];
    Unfold(comment);
    GapSkipped(file, pos, line, comment);
  }
}
