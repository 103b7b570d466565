/** Words written in double quotes are read back unchanged. */
module ConfQuote {
  import opened ConfScan

  function Escape(w: string): string {
    if w == [] then []
    else (if w[0] == '\\' || w[0] == '"' then ['\\', w[0]] else [w[0]]) + Escape(w[1..])
  }

  /** The words in double quotes, separated by single spaces and ended by a semicolon. */
  function Render(words: seq<string>): string
    requires words != []
    decreases |words|, 1
  {
    ['"'] + (Escape(words[0]) + (['"'] + AfterWord(words)))
  }

  function AfterWord(words: seq<string>): string
    requires words != []
    decreases |words|, 0
  {
    if |words| == 1 then [';'] else [' '] + Render(words[1..])
  }

  function Newlines(s: string): nat {
    if s == [] then 0 else (if s[0] == LF then 1 else 0) + Newlines(s[1..])
  }

  /** s stands at index i of the file. */
  predicate Stands(file: string, i: nat, s: string) {
    i + |s| <= |file| && forall k {:trigger s[k]} :: 0 <= k < |s| ==> file[i + k] == s[k]
  }

  lemma StandsTail(file: string, i: nat, s: string, t: string)
    requires Stands(file, i, s + t)
    ensures Stands(file, i, s) && Stands(file, i + |s|, t)
  {
    forall k | 0 <= k < |s|
      ensures file[i + k] == s[k]
    {
      assert (s + t)[k] == s[k];
    }
    forall k | 0 <= k < |t|
      ensures file[i + |s| + k] == t[k]
    {
      assert (s + t)[|s| + k] == t[k];
    }
  }

  lemma {:induction false} UnescapeEscape(w: string)
    ensures Unescaped(Escape(w)) == w
  {
    if w != [] {
      UnescapeEscape(w[1..]);
      var e := Escape(w);
      if w[0] == '\\' || w[0] == '"' {
        assert e[2..] == Escape(w[1..]);
      } else {
        assert e[1..] == Escape(w[1..]);
      }
    }
  }

  predicate Allows(limit: Limit, span: nat) {
    limit.Page? ==> span < limit.size
  }

  ghost function Inside(st: Scan, dollar: bool, line: nat): Scan {
    st.(mode := InWord(Double, false, dollar), line := line)
  }

  lemma PassPlain(file: string, i: nat, st: Scan, dollar: bool, limit: Limit) returns (dollar': bool)
    requires st.start <= i < |file| && file[i] !in {'\\', '"'} && Allows(limit, i - st.start)
    ensures ScanFrom(file, i, Inside(st, dollar, st.line), limit)
         == ScanFrom(file, i + 1, Inside(st, dollar', st.line + if file[i] == LF then 1 else 0), limit)
  {
    dollar' := (file[i] == '{' && dollar) || file[i] == '$';
    assert Step(file, i, Inside(st, dollar, st.line))
      == Go(Inside(st, dollar', st.line + if file[i] == LF then 1 else 0));
  }

  lemma PassPair(file: string, i: nat, st: Scan, dollar: bool, limit: Limit)
    requires st.start <= i && i + 1 < |file| && file[i] == '\\' && file[i + 1] != LF && Allows(limit, i + 1 - st.start)
    ensures ScanFrom(file, i, Inside(st, dollar, st.line), limit) == ScanFrom(file, i + 2, Inside(st, false, st.line),
      limit)
  {
    var pending := st.(mode := InWord(Double, true, false));
    assert Step(file, i, Inside(st, dollar, st.line)) == Go(pending);
    assert Step(file, i + 1, pending) == Go(Inside(st, false, st.line));
  }

  /** The escaped text of a word is passed over inside its quotes. */
  lemma {:induction false} ScanEscaped(file: string, i: nat, st: Scan, dollar: bool, w: string, limit: Limit)
      returns (dollar': bool)
    requires st.start <= i && Stands(file, i, Escape(w)) && Allows(limit, i + |Escape(w)| - st.start)
    ensures ScanFrom(file, i, Inside(st, dollar, st.line), limit)
         == ScanFrom(file, i + |Escape(w)|, Inside(st, dollar', st.line + Newlines(w)), limit)
    decreases |w|, 1
  {
    if w == [] {
      dollar' := dollar;
    } else {
      EscapedHead(file, i, w);
      if w[0] == '\\' || w[0] == '"' {
        PassPair(file, i, st, dollar, limit);
        dollar' := ScanEscaped(file, i + 2, st, false, w[1..], limit);
      } else {
        dollar' := ScanPlain(file, i, st, dollar, w, limit);
      }
    }
  }

  lemma {:induction false} ScanPlain(file: string, i: nat, st: Scan, dollar: bool, w: string, limit: Limit)
      returns (dollar': bool)
    requires st.start <= i && Stands(file, i, Escape(w)) && Allows(limit, i + |Escape(w)| - st.start) && w != []
      && w[0] != '\\' && w[0] != '"'
    ensures ScanFrom(file, i, Inside(st, dollar, st.line), limit)
         == ScanFrom(file, i + |Escape(w)|, Inside(st, dollar', st.line + Newlines(w)), limit)
    decreases |w|, 0
  {
    EscapedHead(file, i, w);
    var d := PassPlain(file, i, st, dollar, limit);
    var st1 := st.(line := st.line + if w[0] == LF then 1 else 0);
    dollar' := ScanEscaped(file, i + 1, st1, d, w[1..], limit);
    assert Inside(st1, dollar', st1.line + Newlines(w[1..])) == Inside(st, dollar', st.line + Newlines(w));
    assert Inside(st1, d, st1.line) == Inside(st, d, st1.line);
  }

  lemma EscapedHead(file: string, i: nat, w: string)
    requires w != [] && Stands(file, i, Escape(w))
    ensures w[0] == '\\' || w[0] == '"' ==>
              && |Escape(w)| == 2 + |Escape(w[1..])| && file[i] == '\\' && file[i + 1] == w[0]
                && Stands(file, i + 2, Escape(w[1..]))
    ensures w[0] != '\\' && w[0] != '"' ==>
              |Escape(w)| == 1 + |Escape(w[1..])| && file[i] == w[0] && Stands(file, i + 1, Escape(w[1..]))
  {
    var rest, c := Escape(w[1..]), w[0];
    var head := if c == '\\' || c == '"' then ['\\', c] else [c];
    assert Escape(w) == head + rest;
    StandsTail(file, i, head, rest);
    assert file[i + 0] == head[0];
    assert |head| == 2 ==> file[i + 1] == head[1];
  }

  /** One quoted word, from the gap before it to the byte after its closing quote. */
  lemma ScanQuoted(file: string, i: nat, st: Scan, w: string, limit: Limit) returns (st': Scan)
    requires st.mode == Gap && st.start <= i && i + |Escape(w)| + 2 <= |file|
      && file[i] == '"' == file[i + 1 + |Escape(w)|]
    requires Stands(file, i + 1, Escape(w)) && Allows(limit, i - st.start) && Allows(limit, |Escape(w)|)
    ensures ScanFrom(file, i, st, limit) == ScanFrom(file, i + |Escape(w)| + 2, st', limit)
    ensures st' == Scan(AfterQuote, i + 1, st.line, st.line + Newlines(w), st.words + [w])
  {
    var entered := ScanOpening(file, i, st, limit);
    var dollar := ScanEscaped(file, i + 1, entered, false, w, limit);
    st' := ScanClosing(file, i + 1 + |Escape(w)|, Inside(entered, dollar, st.line + Newlines(w)), w, limit);
  }

  lemma ScanOpening(file: string, i: nat, st: Scan, limit: Limit) returns (st': Scan)
    requires st.mode == Gap && st.start <= i < |file| && file[i] == '"' && Allows(limit, i - st.start)
    ensures ScanFrom(file, i, st, limit) == ScanFrom(file, i + 1, st', limit)
    ensures st' == Scan(InWord(Double, false, false), i + 1, st.line, st.line, st.words) == Inside(st', false, st.line)
  {
    st' := Scan(InWord(Double, false, false), i + 1, st.line, st.line, st.words);
    assert Step(file, i, st) == Go(st');
  }

  lemma ScanClosing(file: string, i: nat, st: Scan, w: string, limit: Limit) returns (st': Scan)
    requires st.mode.InWord? && st.mode.quote == Double && !st.mode.escaped && st.start + |Escape(w)| == i < |file|
      && file[i] == '"'
    requires Stands(file, st.start, Escape(w)) && Allows(limit, |Escape(w)|)
    ensures ScanFrom(file, i, st, limit) == ScanFrom(file, i + 1, st', limit)
    ensures st' == st.(mode := AfterQuote, words := st.words + [w])
  {
    UnescapeEscape(w);
    assert file[st.start..i] == Escape(w);
    st' := st.(mode := AfterQuote, words := st.words + [w]);
    assert Step(file, i, st) == Go(st');
  }

  /** The bytes behind the opening quote of word k that the reader must hold at once: the last word is followed by
      the semicolon only. */
  function Span(words: seq<string>, k: nat): nat
    requires k < |words|
  {
    |Escape(words[k])| + if k + 1 < |words| then 2 else 1
  }

  /** Every word fits a page. */
  ghost predicate AllAllowed(words: seq<string>, limit: Limit) {
    forall k {:trigger Allowed(words, limit, k)} :: 0 <= k < |words| ==> Allowed(words, limit, k)
  }

  predicate Allowed(words: seq<string>, limit: Limit, k: nat)
    requires k < |words|
  {
    Allows(limit, Span(words, k))
  }

  lemma UnlimitedAllows(words: seq<string>)
    ensures AllAllowed(words, Unlimited)
  {
  }

  lemma RestAllowed(words: seq<string>, limit: Limit)
    requires |words| > 1
    ensures AllAllowed(words, limit) <==> Allowed(words, limit, 0) && AllAllowed(words[1..], limit)
  {
    var rest := words[1..];
    if Allowed(words, limit, 0) && AllAllowed(rest, limit) {
      forall k | 0 <= k < |words|
        ensures Allowed(words, limit, k)
      {
        assert k > 0 ==> Allowed(rest, limit, k - 1) && rest[k - 1] == words[k];
      }
    }
    if AllAllowed(words, limit) {
      forall k | 0 <= k < |rest|
        ensures Allowed(rest, limit, k)
      {
        assert Allowed(words, limit, k + 1) && rest[k] == words[k + 1];
      }
    }
  }

  ghost function AllNewlines(words: seq<string>): nat {
    if words == [] then 0 else Newlines(words[0]) + AllNewlines(words[1..])
  }

  /** The first rendered word. */
  lemma ScanFirst(file: string, i: nat, st: Scan, words: seq<string>, limit: Limit) returns (st': Scan)
    requires words != [] && Stands(file, i, Render(words)) && st.mode == Gap && st.start <= i
    requires Allows(limit, i - st.start) && AllAllowed(words, limit)
    ensures
      var w := words[0];
      && Stands(file, i + |Escape(w)| + 2, AfterWord(words)) && Allows(limit, Span(words, 0))
      && ScanFrom(file, i, st, limit) == ScanFrom(file, i + |Escape(w)| + 2, st', limit)
      && st' == Scan(AfterQuote, i + 1, st.line, st.line + Newlines(w), st.words + [w])
  {
    var w := words[0];
    QuotedHead(file, i, Escape(w), AfterWord(words));
    assert Allowed(words, limit, 0);
    st' := ScanQuoted(file, i, st, w, limit);
  }

  lemma RenderLength(words: seq<string>)
    requires words != []
    ensures |Render(words)| == |Escape(words[0])| + 2 + |AfterWord(words)|
    ensures |words| > 1 ==> |AfterWord(words)| == 1 + |Render(words[1..])|
  {
  }

  lemma {:induction false} ScanRendered(file: string, i: nat, st: Scan, words: seq<string>, limit: Limit)
    requires words != [] && Stands(file, i, Render(words)) && st.mode == Gap && st.start <= i
    requires Allows(limit, i - st.start) && AllAllowed(words, limit)
    ensures ScanFrom(file, i, st, limit) == Token(Ok, st.words + words, i + |Render(words)|,
      st.line + AllNewlines(words))
    decreases |words|, 1
  {
    RenderLength(words);
    if |words| == 1 {
      var w := words[0];
      var j := i + |Escape(w)| + 2;
      var st' := ScanFirst(file, i, st, words, limit);
      AfterLast(file, j, words);
      ScanSemicolon(file, j, st', limit);
      assert words == [w];
    } else {
      ScanMore(file, i, st, words, limit);
    }
  }

  /** More than one word: a space follows the first. */
  lemma {:induction false} ScanMore(file: string, i: nat, st: Scan, words: seq<string>, limit: Limit)
    requires |words| > 1 && Stands(file, i, Render(words)) && st.mode == Gap && st.start <= i
    requires Allows(limit, i - st.start) && AllAllowed(words, limit)
    ensures ScanFrom(file, i, st, limit) == Token(Ok, st.words + words, i + |Render(words)|,
      st.line + AllNewlines(words))
    decreases |words|, 0
  {
    var j, gap := ScanToGap(file, i, st, words, limit);
    RestAllowed(words, limit);
    RenderLength(words);
    ScanRendered(file, j, gap, words[1..], limit);
    assert gap.words + words[1..] == st.words + words;
  }

  /** The first word and the space behind it. */
  lemma ScanToGap(file: string, i: nat, st: Scan, words: seq<string>, limit: Limit) returns (j: nat, gap: Scan)
    requires |words| > 1 && Stands(file, i, Render(words)) && st.mode == Gap && st.start <= i
    requires Allows(limit, i - st.start) && AllAllowed(words, limit)
    ensures j == i + |Escape(words[0])| + 3 && Stands(file, j, Render(words[1..]))
    ensures gap == Scan(Gap, i + 1, st.line, st.line + Newlines(words[0]), st.words + [words[0]])
    ensures ScanFrom(file, i, st, limit) == ScanFrom(file, j, gap, limit)
    ensures gap.start <= j && Allows(limit, j - gap.start)
  {
    var k := i + |Escape(words[0])| + 2;
    var st' := ScanFirst(file, i, st, words, limit);
    StandsHead(file, k, ' ', Render(words[1..]));
    ScanSpace(file, k, st', limit);
    j, gap := k + 1, st'.(mode := Gap);
  }

  lemma ScanSemicolon(file: string, i: nat, st: Scan, limit: Limit)
    requires st.mode == AfterQuote && st.start <= i < |file| && file[i] == ';' && Allows(limit, i - st.start)
    ensures ScanFrom(file, i, st, limit) == Token(Ok, st.words, i + 1, st.line)
  {
    assert Step(file, i, st) == Halt(Ok, st.words, st.line);
  }

  lemma ScanSpace(file: string, i: nat, st: Scan, limit: Limit)
    requires st.mode == AfterQuote && st.start <= i < |file| && file[i] == ' ' && Allows(limit, i - st.start)
    ensures ScanFrom(file, i, st, limit) == ScanFrom(file, i + 1, st.(mode := Gap), limit)
  {
    assert Step(file, i, st) == Go(st.(mode := Gap));
  }

  lemma AfterLast(file: string, i: nat, words: seq<string>)
    requires |words| == 1 && Stands(file, i, AfterWord(words))
    ensures i < |file| && file[i] == ';' && |AfterWord(words)| == 1
  {
    assert file[i + 0] == AfterWord(words)[0];
  }

  lemma QuotedHead(file: string, i: nat, e: string, tail: string)
    requires Stands(file, i, ['"'] + (e + (['"'] + tail)))
    ensures i + |e| + 2 <= |file| && file[i] == '"' == file[i + 1 + |e|] && Stands(file, i + 1, e)
      && Stands(file, i + |e| + 2, tail)
  {
    StandsHead(file, i, '"', e + (['"'] + tail));
    StandsTail(file, i + 1, e, ['"'] + tail);
    StandsHead(file, i + 1 + |e|, '"', tail);
  }

  lemma StandsHead(file: string, i: nat, c: char, t: string)
    requires Stands(file, i, [c] + t)
    ensures i < |file| && file[i] == c && Stands(file, i + 1, t)
  {
    StandsTail(file, i, [c], t);
    assert file[i + 0] == [c][0];
  }

  // ---------- words that do not fit ----------

  /** The run at i is not too long yet, and will not be. */
  ghost predicate Short(file: string, i: nat, st: Scan, size: nat) {
    i <= |file| && st.start <= i && i - st.start <= size && !Overlong(file, i, st, size)
  }

  lemma ShortStep(file: string, i: nat, st: Scan, next: Scan, size: nat)
    requires Short(file, i, st, size) && i < |file| && Step(file, i, st) == Go(next)
    requires next.start in {st.start, i, i + 1}
    ensures i - st.start < size && Short(file, i + 1, next, size)
  {
  }

  /** Inside its quotes a word that is not too long fits, byte by byte. */
  lemma {:induction false} ShortEscaped(file: string, i: nat, st: Scan, dollar: bool, w: string, size: nat)
      returns (dollar': bool, line': nat)
    requires Stands(file, i, Escape(w)) && Short(file, i, Inside(st, dollar, st.line), size)
    ensures Short(file, i + |Escape(w)|, Inside(st, dollar', line'), size)
    decreases |w|
  {
    if w == [] {
      dollar', line' := dollar, st.line;
    } else {
      EscapedHead(file, i, w);
      if w[0] == '\\' || w[0] == '"' {
        ShortPair(file, i, st, dollar, size);
        dollar', line' := ShortEscaped(file, i + 2, st, false, w[1..], size);
      } else {
        var d, l := ShortPlain(file, i, st, dollar, size);
        dollar', line' := ShortEscaped(file, i + 1, st.(line := l), d, w[1..], size);
        assert Inside(st.(line := l), dollar', line') == Inside(st, dollar', line');
      }
    }
  }

  lemma ShortPlain(file: string, i: nat, st: Scan, dollar: bool, size: nat) returns (dollar': bool, line': nat)
    requires i < |file| && file[i] !in {'\\', '"'} && Short(file, i, Inside(st, dollar, st.line), size)
    ensures Short(file, i + 1, Inside(st.(line := line'), dollar', line'), size)
  {
    dollar' := (file[i] == '{' && dollar) || file[i] == '$';
    line' := st.line + if file[i] == LF then 1 else 0;
    ShortStep(file, i, Inside(st, dollar, st.line), Inside(st, dollar', line'), size);
  }

  lemma ShortPair(file: string, i: nat, st: Scan, dollar: bool, size: nat)
    requires i + 1 < |file| && file[i] == '\\' && file[i + 1] != LF && Short(file, i, Inside(st, dollar, st.line), size)
    ensures Short(file, i + 2, Inside(st, false, st.line), size)
  {
    var pending := st.(mode := InWord(Double, true, false));
    ShortStep(file, i, Inside(st, dollar, st.line), pending, size);
    ShortStep(file, i + 1, pending, Inside(st, false, st.line), size);
  }

  /** One quoted word that is not too long: its span behind the opening quote fits, up to the byte after the closing
      quote. */
  lemma ShortQuoted(file: string, i: nat, st: Scan, w: string, size: nat) returns (st': Scan)
    requires st.mode == Gap && i + |Escape(w)| + 2 < |file| && file[i] == '"' == file[i + 1 + |Escape(w)|]
    requires Stands(file, i + 1, Escape(w)) && Short(file, i, st, size)
    ensures st'.mode == AfterQuote && st'.start == i + 1 && Short(file, i + |Escape(w)| + 2, st', size)
    ensures |Escape(w)| + 1 < size
  {
    var entered := Scan(InWord(Double, false, false), i + 1, st.line, st.line, st.words);
    ShortStep(file, i, st, entered, size);
    assert entered == Inside(entered, false, entered.line);
    var j := i + 1 + |Escape(w)|;
    var dollar, line := ShortEscaped(file, i + 1, entered, false, w, size);
    var inside := Inside(entered, dollar, line);
    st' := inside.(mode := AfterQuote, words := inside.words + [WordAt(file, i + 1, j)]);
    ShortStep(file, j, inside, st', size);
  }

  /** If the rendered words are not too long for the page, they all fit. */
  lemma {:induction false} ShortRendered(file: string, i: nat, st: Scan, words: seq<string>, size: nat)
    requires words != [] && Stands(file, i, Render(words)) && st.mode == Gap && Short(file, i, st, size)
    ensures AllAllowed(words, Page(size))
    decreases |words|
  {
    var w := words[0];
    var j := i + |Escape(w)| + 2;
    RenderLength(words);
    QuotedHead(file, i, Escape(w), AfterWord(words));
    var st' := ShortQuoted(file, i, st, w, size);
    if |words| > 1 {
      StandsHead(file, j, ' ', Render(words[1..]));
      var gap := st'.(mode := Gap);
      ShortStep(file, j, st', gap, size);
      RenderLength(words[1..]);
      ShortRendered(file, j + 1, gap, words[1..], size);
      RestAllowed(words, Page(size));
    }
  }

  /**
   * Round trip: any non-empty list of words, written in quotes anywhere in a file, is read back as that list, with
   * the reader resting just behind the semicolon, exactly when every word fits the page; otherwise it is too long.
   */
  lemma QuotingRoundTrip(before: string, words: seq<string>, after: string, line: nat, limit: Limit)
    requires words != []
    ensures
      var file := before + Render(words) + after;
      var token := ReadToken(file, |before|, line, limit);
      if AllAllowed(words, limit) then token == Token(Ok, words, |before| + |Render(words)|, line + AllNewlines(words))
      else token.code == TooLong
  {
    var file := before + Render(words) + after;
    var st := Fresh(|before|, line);
    UnlimitedAllows(words);
    assert limit.Unlimited? ==> limit == Unlimited;
    if AllAllowed(words, limit) {
      assert Allowed(words, limit, 0);
      ScanRendered(file, |before|, st, words, limit);
    } else {
      LimitedScan(file, |before|, st, limit.size);
      if !Overlong(file, |before|, st, limit.size) {
        ShortRendered(file, |before|, st, words, limit.size);
      }
    }
  }
}
