/** `night_conf_read_token` as it is: flags, a sliding page buffer, and words unescaped into fresh memory. */
module ConfRead {
  import opened ConfScan

  /** The local flags of the byte loop. */
  datatype Flags = Flags(lastSpace: bool, needSpace: bool, sharpComment: bool, quoted: bool, sQuoted: bool,
    dQuoted: bool, variable: bool)

  /** What is left to do after the flags are set for one byte. */
  datatype Todo = Nothing | NewStart(skip: nat) | Found | Return(code: Code)

  predicate Coherent(f: Flags) {
    && (f.sharpComment ==> f.lastSpace)
    && (f.needSpace ==> !f.lastSpace)
    && (f.lastSpace || f.needSpace ==> !f.quoted && !f.sQuoted && !f.dQuoted && !f.variable)
    && !(f.sQuoted && f.dQuoted) && !(f.quoted && f.variable)
  }

  function ModeOf(f: Flags): Mode {
    if f.sharpComment then Comment
    else if f.needSpace then AfterQuote
    else if f.lastSpace then Gap
    else InWord(if f.dQuoted then Double else if f.sQuoted then Single else Bare, f.quoted, f.variable)
  }

  /** The flag updates of one byte agree with one move of the plain scan. */
  ghost predicate Does(f: Flags, todo: Todo, move: Move) {
    && (move.Stay? ==> todo == Nothing && ModeOf(f) == move.mode)
    && (move.Begin? ==> todo == NewStart(move.skip) && ModeOf(f) == move.mode)
    && (move.Finish? ==> todo == Found && ModeOf(f) == move.mode)
    && (move.FinishStop? ==> todo == Found)
    && (move.Stop? ==> todo == Return(move.code))
  }

  /** The switch of the loop for a byte between words. */
  method DigestGap(flags: Flags, ch: char, nelts: nat) returns (f: Flags, todo: Todo)
    requires Coherent(flags) && ModeOf(flags) == Gap
    ensures Coherent(f) && Does(f, todo, GapMove(ch, nelts > 0))
  {
    f := flags;
    if ch == ' ' || ch == '\t' || ch == CR || ch == LF {
      return f, NewStart(0);
    }
    if ch == ';' || ch == '{' {
      if nelts == 0 {
        return f, Return(Error);
      }
      if ch == '{' {
        return f, Return(BlockStart);
      }
      return f, Return(Ok);
    }
    if ch == '}' {
      if nelts != 0 {
        return f, Return(Error);
      }
      return f, Return(BlockDone);
    }
    if ch == '#' {
      return f.(sharpComment := true), NewStart(0);
    }
    f := f.(lastSpace := false);
    if ch == '\\' {
      return f.(quoted := true), NewStart(0);
    } else if ch == '"' {
      return f.(dQuoted := true), NewStart(1);
    } else if ch == '\'' {
      return f.(sQuoted := true), NewStart(1);
    } else if ch == '$' {
      return f.(variable := true), NewStart(0);
    }
    return f, NewStart(0);
  }

  /** The branch of the loop for a byte inside a word. */
  method DigestWord(flags: Flags, ch: char) returns (f: Flags, todo: Todo)
    requires Coherent(flags) && !flags.lastSpace && !flags.needSpace && !flags.quoted
    ensures Coherent(f)
    ensures Does(f, todo, WordMove(ModeOf(flags).quote, false, flags.variable, ch))
  {
    f := flags;
    if ch == '{' && f.variable {
      return f, Nothing;
    }
    f := f.(variable := false);
    if ch == '\\' {
      return f.(quoted := true), Nothing;
    }
    if ch == '$' {
      return f.(variable := true), Nothing;
    }
    if f.dQuoted {
      if ch == '"' {
        return f.(dQuoted := false, needSpace := true), Found;
      }
    } else if f.sQuoted {
      if ch == '\'' {
        return f.(sQuoted := false, needSpace := true), Found;
      }
    } else if ch == ' ' || ch == '\t' || ch == CR || ch == LF || ch == ';' || ch == '{' {
      return f.(lastSpace := true), Found;
    }
    return f, Nothing;
  }

  method Digest(flags: Flags, ch: char, nelts: nat) returns (f: Flags, todo: Todo)
    requires Coherent(flags)
    ensures Coherent(f) && Does(f, todo, Next(ModeOf(flags), ch, nelts > 0))
  {
    f := flags;
    if ch == LF && f.sharpComment {
      f := f.(sharpComment := false);
    }
    if f.sharpComment {
      return f, Nothing;
    }
    if f.quoted {
      return f.(quoted := false), Nothing;
    }
    if f.needSpace {
      if ch == ' ' || ch == '\t' || ch == CR || ch == LF {
        return f.(lastSpace := true, needSpace := false), Nothing;
      }
      if ch == ';' {
        return f, Return(Ok);
      }
      if ch == '{' {
        return f, Return(BlockStart);
      }
      return f, Return(Error);
    }
    if f.lastSpace {
      f, todo := DigestGap(f, ch, nelts);
    } else {
      f, todo := DigestWord(f, ch);
    }
  }

  /** One round of the unescape loop: the character it writes and how far it moves on. */
  method Decode(buf: array<char>, src: nat, end: nat) returns (c: char, k: nat)
    requires src < end < buf.Length && Paired(buf[src..end])
    ensures c == UnitChar(buf[src..end]) && k == UnitLength(buf[src..end])
  {
    if buf[src] == '\\' {
      var next := buf[src + 1];
      if next == '"' || next == '\'' || next == '\\' {
        return next, 2;
      } else if next == 't' {
        return '\t', 2;
      } else if next == 'r' {
        return '\r', 2;
      } else if next == 'n' {
        return '\n', 2;
      }
    }
    return buf[src], 1;
  }

  lemma UnescapeStep(done: string, rest: string, c: char, k: nat)
    requires Paired(rest) && rest != [] && c == UnitChar(rest) && k == UnitLength(rest)
    ensures k <= |rest| && Paired(rest[k..]) && done + Unescaped(rest) == (done + [c]) + Unescaped(rest[k..])
  {
    UnescapedUnit(rest);
    Regroup(done, c, Unescaped(rest[k..]));
  }

  /** The unescape loop: it stops exactly at the terminator, and the word and its NUL fit the allocation. */
  method Unescape(buf: array<char>, start: nat, end: nat) returns (word: string)
    requires start <= end < buf.Length && Paired(buf[start..end])
    ensures word == Unescaped(buf[start..end])
  {
    ghost var done, rest := "", buf[start..end];
    var data := new char[end - start + 1];
    var src, len := start, 0;
    while src < end
      invariant start <= src <= end && len <= src - start
      invariant rest == buf[src..end] && Paired(rest)
      invariant data[..len] == done && done + Unescaped(rest) == Unescaped(buf[start..end])
    {
      var c, k := Decode(buf, src, end);
      data[len] := c;
      UnescapeStep(done, rest, c, k);
      assert buf[src..end][k..] == buf[src + k..end];
      src, len := src + k, len + 1;
      done, rest := done + [c], rest[k..];
    }
    data[len] := '\0';
    word := data[..len];
  }

  lemma Regroup(a: string, c: char, b: string)
    ensures a + ([c] + b) == (a + [c]) + b
  {
  }

  lemma TailOfWindow(w: string, file: string, offset: nat, start: nat)
    requires start <= |w| <= offset <= |file| && w == file[offset - |w|..offset]
    ensures w[start..] == file[offset - |w| + start..offset]
  {
    assert w[start..] == file[offset - |w|..offset][start..];
  }

  lemma JoinSlices(file: string, a: nat, b: nat, c: nat)
    requires a <= b <= c <= |file|
    ensures file[a..b] + file[b..c] == file[a..c]
  {
  }

  lemma SliceOfWindow(w: string, file: string, offset: nat, a: nat, b: nat)
    requires a <= b <= |w| <= offset <= |file| && w == file[offset - |w|..offset]
    ensures w[a..b] == file[offset - |w| + a..offset - |w| + b]
    ensures b < |w| ==> w[b] == file[offset - |w| + b]
  {
    var from := offset - |w|;
    assert forall k :: 0 <= k < |w| ==> w[k] == file[from + k];
    forall k | 0 <= k < b - a
      ensures w[a..b][k] == file[from + a..from + b][k]
    {
      assert w[a + k] == file[from + (a + k)];
    }
  }

  /** memmove to the front of the buffer. */
  method Slide(buf: array<char>, start: nat, len: nat)
    requires start + len <= buf.Length
    modifies buf
    ensures buf[..len] == old(buf[start..start + len])
  {
    forall k | 0 <= k < len {
      buf[k] := buf[start + k];
    }
  }

  /** A successful read of `size` bytes of the file behind the first `len` bytes of the buffer. */
  method Load(buf: array<char>, len: nat, file: string, offset: nat, size: nat)
    requires len + size <= buf.Length && offset + size <= |file|
    modifies buf
    ensures buf[..len + size] == old(buf[..len]) + file[offset..offset + size]
  {
    forall k | 0 <= k < size {
      buf[len + k] := file[offset + k];
    }
  }

  /** Both together: a window of the file just before the offset becomes the one just before the new offset. */
  method SlideAndLoad(buf: array<char>, start: nat, len: nat, file: string, offset: nat, size: nat)
    requires start + len <= buf.Length && len + size <= buf.Length && start + len <= offset && offset + size <= |file|
    requires buf[..start + len] == file[offset - (start + len)..offset]
    modifies buf
    ensures buf[..len + size] == file[offset - len..offset + size]
  {
    TailOfBuffer(buf, start, start + len);
    TailOfWindow(buf[..start + len], file, offset, start);
    JoinSlices(file, offset - len, offset, offset + size);
    Slide(buf, start, len);
    Load(buf, len, file, offset, size);
  }

  /** The plain scan does with the byte at i what todo says. */
  ghost predicate Says(file: string, i: nat, st: Scan, f: Flags, todo: Todo, line: nat)
    requires i < |file|
  {
    match todo
    case Nothing => Step(file, i, st) == Go(st.(mode := ModeOf(f), line := line))
    case NewStart(skip) => Step(file, i, st)
      == Go(st.(mode := ModeOf(f), start := i + skip, startLine := line, line := line))
    case Return(code) => Step(file, i, st) == Halt(code, st.words, line)
    case Found =>
      && st.mode.InWord? && !st.mode.escaped
      && var words := st.words + [WordAt(file, st.start, i)];
         Step(file, i, st) ==
           if file[i] == ';' then Halt(Ok, words, line)
           else if file[i] == '{' then Halt(BlockStart, words, line)
           else Go(st.(mode := ModeOf(f), line := line, words := words))
  }

  lemma StepDoes(file: string, i: nat, st: Scan, f: Flags, todo: Todo, line: nat)
    requires i < |file| && Does(f, todo, Next(st.mode, file[i], st.words != []))
    requires line == (if file[i] == LF then st.line + 1 else st.line)
    ensures Says(file, i, st, f, todo, line)
  {
    if todo.Found? {
      WordEnds(st.mode, file[i], st.words != []);
    }
  }

  /** The page-limited scan goes on by one step while the run is shorter than the page. */
  lemma ScanStep(file: string, i: nat, st: Scan, size: nat)
    requires i < |file| && i - st.start != size
    ensures ScanFrom(file, i, st, Page(size)) ==
      match Step(file, i, st)
      case Halt(code, words, line) => Token(code, words, i + 1, line)
      case Go(next) => ScanFrom(file, i + 1, next, Page(size))
  {
  }

  /** One step keeps the word's text, and is one step of the scan. */
  lemma Stepped(file: string, i: nat, st: Scan, size: nat)
    requires i < |file| && i - st.start != size && WordText(file, i, st)
    ensures
      match Step(file, i, st)
      case Halt(code, words, line) => ScanFrom(file, i, st, Page(size)) == Token(code, words, i + 1, line)
      case Go(next) =>
        ScanFrom(file, i, st, Page(size)) == ScanFrom(file, i + 1, next, Page(size)) && WordText(file, i + 1, next)
  {
    ScanStep(file, i, st, size);
    if Step(file, i, st).Go? {
      WordTextKept(file, i, st);
    }
  }

  lemma TailOfBuffer(buf: array<char>, start: nat, last: nat)
    requires start <= last <= buf.Length
    ensures buf[start..last] == buf[..last][start..]
  {
  }

  class ConfFile {
    const file: string
    const buf: array<char>
    var pos: nat
    var last: nat
    var offset: nat
    var line: nat

    /** The buffer holds the bytes of the file just before `offset`. */
    ghost predicate Valid()
      reads this, buf
    {
      pos <= last <= buf.Length && last <= offset <= |file| && buf[..last] == file[offset - last..offset]
    }

    /** Where in the file the next byte to read is. */
    ghost function At(): int
      reads this
    {
      offset - last + pos
    }

    constructor (file: string, pageSize: nat)
      ensures Valid() && fresh(buf) && this.file == file && buf.Length == pageSize && At() == 0 && line == 1
    {
      this.file := file;
      buf := new char[pageSize];
      pos, last, offset, line := 0, 0, 0, 1;
    }

    /** The unfinished token moves to the front of the buffer, and the rest of the page is read from the file. */
    method Refill(start: nat)
      requires Valid() && start <= pos == last && pos - start < buf.Length && offset < |file|
      modifies this`pos, this`last, this`offset, buf
      ensures Valid() && At() == old(At()) && pos == old(pos) - start && pos < last
    {
      var len := pos - start;
      var size := |file| - offset;
      if size > buf.Length - len {
        size := buf.Length - len;
      }
      SlideAndLoad(buf, start, len, file, offset, size);
      offset := offset + size;
      pos := len;
      last := len + size;
    }

    /** The bytes between two buffer positions are those of the file. */
    lemma Held(a: nat, b: nat)
      requires Valid() && a <= b <= last
      ensures buf[a..b] == file[offset - last + a..offset - last + b]
      ensures b < last ==> buf[b] == file[offset - last + b]
    {
      SliceOfWindow(buf[..last], file, offset, a, b);
      forall k | 0 <= k < b - a
        ensures buf[a..b][k] == buf[..last][a..b][k]
      {
      }
    }

    /** The word that ends just before the byte last read. */
    method TakeWord(start: nat) returns (word: string)
      requires Valid() && start < pos
      requires Paired(file[offset - last + start..At() - 1])
      ensures word == Unescaped(file[offset - last + start..At() - 1])
    {
      ghost var text := file[offset - last + start..At() - 1];
      assert buf[start..pos - 1] == text by {
        Held(start, pos - 1);
      }
      word := Unescape(buf, start, pos - 1);
    }

    /** The local variables of the loop stand for the state st of the plain scan. */
    ghost predicate Tracks(st: Scan, f: Flags, start: nat, startLine: nat, args: seq<string>)
      reads this, buf
    {
      && Valid() && start <= pos && Coherent(f)
      && st == Scan(ModeOf(f), offset - last + start, startLine, line, args)
    }

    /** The next byte, counting lines. */
    method Fetch() returns (ch: char)
      requires Valid() && pos < last
      modifies this`pos, this`line
      ensures Valid() && pos == old(pos) + 1 && old(At()) < |file| && ch == file[old(At())]
      ensures line == old(line) + if ch == LF then 1 else 0
    {
      Held(pos, pos);
      ch := buf[pos];
      pos := pos + 1;
      if ch == LF {
        line := line + 1;
      }
    }

    /** A word is complete with the byte ch: it is unescaped and appended, and ch may end the token. */
    method TakeFound(start: nat, ch: char, words: seq<string>) returns (args: seq<string>, done: bool, code: Code)
      requires Valid() && start < pos && Paired(file[offset - last + start..At() - 1])
      ensures args == words + [WordAt(file, offset - last + start, At() - 1)]
      ensures done <==> ch in {';', '{'}
      ensures done ==> code == if ch == ';' then Ok else BlockStart
    {
      var word := TakeWord(start);
      args := words + [word];
      done, code := false, Error;
      if ch == ';' {
        return args, true, Ok;
      }
      if ch == '{' {
        return args, true, BlockStart;
      }
    }

    /** The next byte, and what its flags ask for. */
    method Classify(flags: Flags, nelts: nat, ghost st: Scan) returns (f: Flags, ch: char, todo: Todo)
      requires Valid() && pos < last && Coherent(flags) && st.mode == ModeOf(flags) && st.line == line
      requires nelts == |st.words|
      modifies this`pos, this`line
      ensures Valid() && pos == old(pos) + 1 && old(At()) < |file| && ch == file[old(At())]
      ensures Coherent(f) && Says(file, old(At()), st, f, todo, line)
    {
      ch := Fetch();
      f, todo := Digest(flags, ch, nelts);
      StepDoes(file, old(At()), st, f, todo, line);
    }

    /** One byte of the loop is one step of the plain scan. */
    method TakeByte(flags: Flags, from: nat, fromLine: nat, words: seq<string>, ghost st: Scan)
      returns (f: Flags, start: nat, startLine: nat, args: seq<string>, done: bool, code: Code)
      requires Tracks(st, flags, from, fromLine, words) && WordText(file, At(), st) && pos < last
      modifies this`pos, this`line
      ensures Valid() && pos == old(pos) + 1
      ensures done ==> Step(file, old(At()), st) == Halt(code, args, line)
      ensures !done ==> Step(file, old(At()), st).Go? && Tracks(Step(file, old(At()), st).st, f, start, startLine, args)
    {
      start, startLine, args, done, code := from, fromLine, words, false, Error;
      var ch, todo;
      f, ch, todo := Classify(flags, |args|, st);
      match todo {
        case Nothing =>
        case NewStart(skip) =>
          start, startLine := pos - 1 + skip, line;
        case Return(c) =>
          done, code := true, c;
        case Found =>
          args, done, code := TakeFound(start, ch, words);
      }
    }

    /** The top of the loop: when the buffer is used up, the token ends, is too long, or more of the file is read. */
    method FillUp(from: nat, startLine: nat, f: Flags, args: seq<string>, ghost st: Scan)
        returns (start: nat, stop: bool, code: Code)
      requires Tracks(st, f, from, startLine, args)
      modifies this`pos, this`last, this`offset, this`line, buf
      ensures Valid() && At() == old(At())
      ensures stop ==> Token(code, args, At(), line) == ScanFrom(file, At(), st, Page(buf.Length))
      ensures !stop ==> Tracks(st, f, start, startLine, args) && pos < last
    {
      start, stop, code := from, false, Error;
      if pos >= last {
        if offset >= |file| {
          if |args| > 0 || !f.lastSpace {
            return start, true, Error;
          }
          return start, true, FileDone;
        }
        if pos - start == buf.Length {
          line := startLine;
          return start, true, TooLong;
        }
        Refill(start);
        start := 0;
      }
    }

    /** The rest of the loop's body. */
    method TakeStep(flags: Flags, from: nat, fromLine: nat, words: seq<string>, ghost st: Scan, ghost o: Outcome)
      returns (f: Flags, start: nat, startLine: nat, args: seq<string>, done: bool, code: Code)
      requires Tracks(st, flags, from, fromLine, words) && WordText(file, At(), st) && pos < last
      requires At() < |file| && o == Step(file, At(), st)
      modifies this`pos, this`line
      ensures Valid() && At() == old(At()) + 1
      ensures done ==> o == Halt(code, args, line)
      ensures !done ==> o.Go? && Tracks(o.st, f, start, startLine, args)
    {
      f, start, startLine, args, done, code := TakeByte(flags, from, fromLine, words, st);
    }

    /** A byte is left to read, and the run is shorter than the page: the scan takes a step. */
    lemma NextStep(st: Scan, f: Flags, start: nat, startLine: nat, args: seq<string>, target: Token)
        returns (o: Outcome)
      requires Tracks(st, f, start, startLine, args) && WordText(file, At(), st) && pos < last
      requires ScanFrom(file, At(), st, Page(buf.Length)) == target
      ensures 0 <= At() < |file| && o == Step(file, At(), st)
      ensures o.Halt? ==> target == Token(o.code, o.words, At() + 1, o.line)
      ensures o.Go? ==> ScanFrom(file, At() + 1, o.st, Page(buf.Length)) == target && WordText(file, At() + 1, o.st)
    {
      Stepped(file, At(), st, buf.Length);
      o := Step(file, At(), st);
    }

    /** `night_conf_read_token`: for every file and every page size, exactly the page-limited scan of the file, which is
        the plain scan unless it is refused as too long. */
    method ReadToken() returns (code: Code, args: seq<string>)
      requires Valid()
      modifies this`pos, this`last, this`offset, this`line, buf
      ensures Valid()
      ensures Token(code, args, At(), line) == ConfScan.ReadToken(file, old(At()), old(line), Page(buf.Length))
      ensures code == TooLong <==> Overlong(file, old(At()), Fresh(old(At()), old(line)), buf.Length)
      ensures code != TooLong ==>
        Token(code, args, At(), line) == ConfScan.ReadToken(file, old(At()), old(line), Unlimited)
    {
      LimitedScan(file, At(), Fresh(At(), line), buf.Length);
      code, args := ReadOn();
    }

    /** Its loop. */
    method ReadOn() returns (code: Code, args: seq<string>)
      requires Valid()
      modifies this`pos, this`last, this`offset, this`line, buf
      ensures Valid()
      ensures Token(code, args, At(), line) == ConfScan.ReadToken(file, old(At()), old(line), Page(buf.Length))
    {
      ghost var st := Fresh(At(), line);
      ghost var target := ConfScan.ReadToken(file, At(), line, Page(buf.Length));
      var f := Flags(true, false, false, false, false, false, false);
      var start: nat, startLine: nat := pos, line;
      args := [];
      while true
        invariant Tracks(st, f, start, startLine, args) && WordText(file, At(), st)
        invariant ScanFrom(file, At(), st, Page(buf.Length)) == target
        decreases |file| - At()
      {
        var done;
        start, done, code := FillUp(start, startLine, f, args, st);
        if done {
          return;
        }
        ghost var o := NextStep(st, f, start, startLine, args, target);
        f, start, startLine, args, done, code := TakeStep(f, start, startLine, args, st, o);
        if done {
          return;
        }
        st := o.st;
      }
    }
  }
}
