/**
 * The configuration language of `night_conf.c` as a plain scan over the whole file: what one token read
 * should return, without any buffer.
 */
module ConfScan {

  const LF: char := '\n'
  const CR: char := '\r'

  /** The "too long" error is NIGHT_ERROR in the code; it is told apart here. */
  datatype Code = Ok | BlockStart | BlockDone | FileDone | Error | TooLong

  datatype Token = Token(code: Code, words: seq<string>, pos: nat, line: nat)

  datatype Quote = Bare | Double | Single

  datatype Mode =
    | Gap
    | Comment
    | InWord(quote: Quote, escaped: bool, dollar: bool)
    | AfterQuote

  /** `start` is where the current word, comment or blank began, `startLine` its line. */
  datatype Scan = Scan(mode: Mode, start: nat, startLine: nat, line: nat, words: seq<string>)

  datatype Outcome = Go(st: Scan) | Halt(code: Code, words: seq<string>, line: nat)

  predicate Blank(c: char) {
    c == ' ' || c == '\t' || c == CR || c == LF
  }

  // ---------- unescaping ----------

  function Unescaped(s: string): (r: string)
    ensures |r| <= |s|
  {
    if s == [] then []
    else if s[0] == '\\' && |s| >= 2 && s[1] in {'"', '\'', '\\'} then [s[1]] + Unescaped(s[2..])
    else if s[0] == '\\' && |s| >= 2 && s[1] == 't' then ['\t'] + Unescaped(s[2..])
    else if s[0] == '\\' && |s| >= 2 && s[1] == 'r' then ['\r'] + Unescaped(s[2..])
    else if s[0] == '\\' && |s| >= 2 && s[1] == 'n' then ['\n'] + Unescaped(s[2..])
    else [s[0]] + Unescaped(s[1..])
  }

  /** How many bytes of s make up its first character, and which one it is. */
  function UnitLength(s: string): (k: nat)
    requires s != []
    ensures 1 <= k <= |s|
  {
    if s[0] == '\\' && |s| >= 2 && s[1] in {'"', '\'', '\\', 't', 'r', 'n'} then 2 else 1
  }

  function UnitChar(s: string): char
    requires s != []
  {
    if UnitLength(s) == 1 then s[0]
    else if s[1] == 't' then '\t'
    else if s[1] == 'r' then '\r'
    else if s[1] == 'n' then '\n'
    else s[1]
  }

  lemma UnescapedUnit(s: string)
    requires s != [] && Paired(s)
    ensures Unescaped(s) == [UnitChar(s)] + Unescaped(s[UnitLength(s)..])
    ensures Paired(s[UnitLength(s)..])
  {
    if s[0] == '\\' && UnitLength(s) == 1 {
      assert s[1..][1..] == s[2..];
    }
  }

  /** Every backslash in s has its partner in s. */
  predicate Paired(s: string) {
    s == [] || if s[0] == '\\' then |s| >= 2 && Paired(s[2..]) else Paired(s[1..])
  }

  lemma {:induction false} PairedAppend(s: string, t: string)
    requires Paired(s) && Paired(t)
    ensures Paired(s + t)
  {
    if s == [] {
      assert s + t == t;
    } else if s[0] == '\\' {
      PairedAppend(s[2..], t);
      assert (s + t)[2..] == s[2..] + t;
    } else {
      PairedAppend(s[1..], t);
      assert (s + t)[1..] == s[1..] + t;
    }
  }

  // ---------- one byte ----------

  /** What a byte does: go on, begin a new run `skip` bytes further, end a word, or end the token. */
  datatype Move =
    | Stay(mode: Mode)
    | Begin(mode: Mode, skip: nat)
    | Finish(mode: Mode)
    | FinishStop(code: Code)
    | Stop(code: Code)

  /** Does c end a word of this kind? */
  predicate Ends(q: Quote, c: char) {
    match q
    case Bare => Blank(c) || c == ';' || c == '{'
    case Double => c == '"'
    case Single => c == '\''
  }

  function GapMove(c: char, anyWords: bool): Move {
    if Blank(c) then Begin(Gap, 0)
    else if c == ';' then Stop(if anyWords then Ok else Error)
    else if c == '{' then Stop(if anyWords then BlockStart else Error)
    else if c == '}' then Stop(if anyWords then Error else BlockDone)
    else if c == '#' then Begin(Comment, 0)
    else if c == '"' then Begin(InWord(Double, false, false), 1)
    else if c == '\'' then Begin(InWord(Single, false, false), 1)
    else Begin(InWord(Bare, c == '\\', c == '$'), 0)
  }

  function WordMove(q: Quote, escaped: bool, dollar: bool, c: char): Move {
    if escaped then Stay(InWord(q, false, false))
    else if c == '{' && dollar then Stay(InWord(q, false, true))
    else if c == '\\' then Stay(InWord(q, true, false))
    else if c == '$' then Stay(InWord(q, false, true))
    else if !Ends(q, c) then Stay(InWord(q, false, false))
    else if q != Bare then Finish(AfterQuote)
    else if c == ';' then FinishStop(Ok)
    else if c == '{' then FinishStop(BlockStart)
    else Finish(Gap)
  }

  function Next(mode: Mode, c: char, anyWords: bool): Move {
    match mode
    case Gap => GapMove(c, anyWords)
    case Comment => if c == LF then Begin(Gap, 0) else Stay(Comment)
    case InWord(q, escaped, dollar) => WordMove(q, escaped, dollar, c)
    case AfterQuote =>
      if Blank(c) then Stay(Gap)
      else if c == ';' then Stop(Ok)
      else if c == '{' then Stop(BlockStart)
      else Stop(Error)
  }

  lemma WordEnds(mode: Mode, c: char, anyWords: bool)
    requires Next(mode, c, anyWords).Finish? || Next(mode, c, anyWords).FinishStop?
    ensures mode.InWord? && !mode.escaped
    ensures c == ';' ==> Next(mode, c, anyWords) == FinishStop(Ok)
    ensures c == '{' ==> Next(mode, c, anyWords) == FinishStop(BlockStart)
    ensures c != ';' && c != '{' ==> Next(mode, c, anyWords).Finish?
  {
  }

  /** The word that ends at index i. */
  function WordAt(file: string, start: nat, i: nat): string
    requires i <= |file|
  {
    Unescaped(if start <= i then file[start..i] else [])
  }

  /** The byte at index i of the file, read in state st. */
  function Step(file: string, i: nat, st: Scan): Outcome
    requires i < |file|
  {
    var line := if file[i] == LF then st.line + 1 else st.line;
    match Next(st.mode, file[i], st.words != [])
    case Stay(mode) => Go(st.(mode := mode, line := line))
    case Begin(mode, skip) => Go(st.(mode := mode, start := i + skip, startLine := line, line := line))
    case Finish(mode) => Go(st.(mode := mode, line := line, words := st.words + [WordAt(file, st.start, i)]))
    case FinishStop(code) => Halt(code, st.words + [WordAt(file, st.start, i)], line)
    case Stop(code) => Halt(code, st.words, line)
  }

  // ---------- one token ----------

  datatype Limit = Unlimited | Page(size: nat)

  function AtEnd(i: nat, st: Scan): Token {
    Token(if st.words != [] || st.mode.InWord? || st.mode.AfterQuote? then Error else FileDone, st.words, i, st.line)
  }

  /** The scan from index i in state st.  With a page limit, a run of that many bytes since `start` is refused. */
  function ScanFrom(file: string, i: nat, st: Scan, limit: Limit): Token
    requires i <= |file|
    decreases |file| - i
  {
    if i == |file| then AtEnd(i, st)
    else if limit.Page? && i - st.start == limit.size then Token(TooLong, st.words, i, st.startLine)
    else
      match Step(file, i, st)
      case Halt(code, words, line) => Token(code, words, i + 1, line)
      case Go(next) => ScanFrom(file, i + 1, next, limit)
  }

  function Fresh(pos: nat, line: nat): Scan {
    Scan(Gap, pos, line, line, [])
  }

  function ReadToken(file: string, pos: nat, line: nat, limit: Limit): Token
    requires pos <= |file|
  {
    ScanFrom(file, pos, Fresh(pos, line), limit)
  }

  // ---------- the page limit ----------

  /** Somewhere before the end of the token, and before the end of the file, `size` bytes lie behind `start`. */
  predicate Overlong(file: string, i: nat, st: Scan, size: nat)
    requires i <= |file|
    decreases |file| - i
  {
    && i < |file|
    && (i - st.start == size || var o := Step(file, i, st); o.Go? && Overlong(file, i + 1, o.st, size))
  }

  /** For every page size, the limited scan is refused exactly for overlong runs, and otherwise is the plain scan. */
  lemma {:induction false} LimitedScan(file: string, i: nat, st: Scan, size: nat)
    requires i <= |file|
    ensures ScanFrom(file, i, st, Page(size)).code == TooLong <==> Overlong(file, i, st, size)
    ensures !Overlong(file, i, st, size) ==> ScanFrom(file, i, st, Page(size)) == ScanFrom(file, i, st, Unlimited)
    decreases |file| - i
  {
    if i < |file| && i - st.start != size {
      var o := Step(file, i, st);
      if o.Go? {
        LimitedScan(file, i + 1, o.st, size);
      }
    }
  }

  /** No page as long as the rest of the file is ever exceeded. */
  lemma {:induction false} SpanBound(file: string, i: nat, st: Scan, size: nat)
    requires i <= |file| && st.start <= i && |file| - st.start <= size
    ensures !Overlong(file, i, st, size)
    decreases |file| - i
  {
    if i < |file| {
      var o := Step(file, i, st);
      if o.Go? {
        SpanBound(file, i + 1, o.st, size);
      }
    }
  }

  // ---------- facts the reader relies on ----------

  /** Inside a word, the text since `start` is paired, up to a final backslash if one is pending. */
  predicate WordText(file: string, i: nat, st: Scan) {
    && st.start <= i <= |file|
    && match st.mode
       case InWord(_, esc, _) =>
         if esc then st.start < i && file[i - 1] == '\\' && Paired(file[st.start..i - 1]) else Paired(file[st.start..i])
       case _ => true
  }

  lemma WordTextKept(file: string, i: nat, st: Scan)
    requires i < |file| && WordText(file, i, st) && Step(file, i, st).Go?
    ensures WordText(file, i + 1, Step(file, i, st).st)
  {
    if st.mode.InWord? {
      var c := file[i];
      if st.mode.escaped {
        PairedAppend(file[st.start..i - 1], file[i - 1..i + 1]);
        assert Paired(file[i - 1..i + 1]) by {
          assert file[i - 1..i + 1][2..] == [];
        }
        assert file[st.start..i - 1] + file[i - 1..i + 1] == file[st.start..i + 1];
      } else if c != '\\' {
        assert Paired([c]) by {
          assert [c][1..] == [];
        }
        PairedAppend(file[st.start..i], [c]);
        assert file[st.start..i] + [c] == file[st.start..i + 1];
      }
    } else if st.mode.Gap? && Step(file, i, st).st.mode.InWord? && file[i] !in {'"', '\'', '\\'} {
      assert file[i..i + 1] == [file[i]];
      assert file[i..i + 1][1..] == [];
    }
  }

  /** A token read never moves backwards; a directive or brace consumes at least one byte; directives have words. */
  lemma {:induction false} ScanConsumes(file: string, i: nat, st: Scan, limit: Limit)
    requires i <= |file| && (st.mode.AfterQuote? ==> st.words != [])
    ensures
      var t := ScanFrom(file, i, st, limit);
      && i <= t.pos <= |file|
      && (t.code in {Ok, BlockStart, BlockDone} ==> i < t.pos)
      && (t.code == FileDone ==> t.pos == |file| && t.words == [])
      && (t.code in {Ok, BlockStart} ==> t.words != [])
      && (t.code == BlockDone ==> t.words == [])
    decreases |file| - i
  {
    if i < |file| && !(limit.Page? && i - st.start == limit.size) {
      var o := Step(file, i, st);
      if o.Go? {
        ScanConsumes(file, i + 1, o.st, limit);
      }
    }
  }

  lemma ReadConsumes(file: string, pos: nat, line: nat, limit: Limit)
    requires pos <= |file|
    ensures
      var t := ReadToken(file, pos, line, limit);
      && pos <= t.pos <= |file|
      && (t.code in {Ok, BlockStart, BlockDone} ==> pos < t.pos)
      && (t.code in {Ok, BlockStart} ==> t.words != [])
  {
    ScanConsumes(file, pos, Fresh(pos, line), limit);
  }
}
