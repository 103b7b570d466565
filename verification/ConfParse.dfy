/** The recursive parser and the directive handler of `night_conf.c`. */
module ConfParse {
  import opened ConfScan
  import opened ConfRead

  // ---------- the command table ----------

  const CONF_BLOCK: bv64 := 0x00000100
  const CONF_FLAG: bv64 := 0x00000200
  const CONF_ANY: bv64 := 0x00000400
  const CONF_1MORE: bv64 := 0x00000800
  const CONF_2MORE: bv64 := 0x00001000
  const CONF_MAX_ARGS := 8
  const CONF_MODULE := 0x464E4F43

  /** NOARGS, TAKE1, ..., TAKE7. */
  const argumentNumber: seq<bv64> := [0x01, 0x02, 0x04, 0x08, 0x10, 0x20, 0x40, 0x80]

  predicate Has(bits: bv64, mask: bv64) {
    bits & mask != 0
  }

  /** The part of `night_conf_t` that a block directive overwrites and restores. */
  datatype Context = Context(moduleType: int, cmdType: bv64)

  /** A block command parses its body under the context `inner`. */
  datatype Command = Command(name: string, bits: bv64, inner: Context)

  datatype Module = Module(kind: int, commands: seq<Command>)

  /** The verdict on a directive before its set function is called. */
  datatype Decision = Reject | Simple | Block(inner: Context)

  predicate ArgsFit(bits: bv64, nelts: nat)
    requires nelts > 0
  {
    if Has(bits, CONF_ANY) then true
    else if Has(bits, CONF_FLAG) then nelts == 2
    else if Has(bits, CONF_1MORE) then nelts >= 2
    else if Has(bits, CONF_2MORE) then nelts >= 3
    else nelts <= CONF_MAX_ARGS && Has(bits, argumentNumber[nelts - 1])
  }

  /** Is this the command for a directive of that name in this context? */
  predicate Applies(m: Module, c: Command, ctx: Context, name: string) {
    c.name == name && (m.kind == CONF_MODULE || m.kind == ctx.moduleType) && Has(c.bits, ctx.cmdType)
  }

  function Judge(c: Command, last: Code, nelts: nat): Decision
    requires nelts > 0
  {
    if Has(c.bits, CONF_BLOCK) != (last == BlockStart) || !ArgsFit(c.bits, nelts) then Reject
    else if Has(c.bits, CONF_BLOCK) then Block(c.inner)
    else Simple
  }

  /** The first command that applies decides. */
  function DecideIn(m: Module, commands: seq<Command>, ctx: Context, words: seq<string>, last: Code): (Decision, bool)
    requires words != []
  {
    if commands == [] then (Reject, false)
    else if Applies(m, commands[0], ctx, words[0]) then (Judge(commands[0], last, |words|), true)
    else DecideIn(m, commands[1..], ctx, words, last)
  }

  function Decide(modules: seq<Module>, ctx: Context, words: seq<string>, last: Code): Decision
    requires words != []
  {
    if modules == [] then Reject
    else
      var (d, found) := DecideIn(modules[0], modules[0].commands, ctx, words, last);
      if found then d else Decide(modules[1..], ctx, words, last)
  }

  // ---------- what the verdict means ----------

  /** Bit n of a command's type. */
  predicate Bit(bits: bv64, n: bv64)
    requires n < 64
  {
    (bits >> n) & 1 == 1
  }

  /** The two have a bit in common. */
  ghost predicate Shares(a: bv64, b: bv64) {
    exists n: bv64 :: n < 64 && Bit(a, n) && Bit(b, n)
  }

  lemma LowestBit(x: bv64) returns (n: bv64)
    requires x != 0
    ensures n < 64 && Bit(x, n)
  {
    n := if x & 0xffff_ffff == 0 then 32 else 0;
    n := if (x >> n) & 0xffff == 0 then n + 16 else n;
    n := if (x >> n) & 0xff == 0 then n + 8 else n;
    n := if (x >> n) & 0xf == 0 then n + 4 else n;
    n := if (x >> n) & 0x3 == 0 then n + 2 else n;
    n := if (x >> n) & 0x1 == 0 then n + 1 else n;
  }

  lemma CommonBit(a: bv64, b: bv64, n: bv64)
    requires n < 64
    ensures Bit(a & b, n) <==> Bit(a, n) && Bit(b, n)
    ensures Bit(a & b, n) ==> a & b != 0
  {
  }

  lemma HasShares(a: bv64, b: bv64)
    ensures Has(a, b) <==> Shares(a, b)
  {
    if Has(a, b) {
      var n := LowestBit(a & b);
      CommonBit(a, b, n);
    }
    if Shares(a, b) {
      var n: bv64 :| n < 64 && Bit(a, n) && Bit(b, n);
      CommonBit(a, b, n);
    }
  }

  /** The bits 0 to 7. */
  function LowBits(bits: bv64): (r: seq<bool>)
    ensures |r| == 8
  {
    [Bit(bits, 0), Bit(bits, 1), Bit(bits, 2), Bit(bits, 3), Bit(bits, 4), Bit(bits, 5), Bit(bits, 6), Bit(bits, 7)]
  }

  /** The numbers of arguments that a type allows, by its bits: 10 is any number, 9 is one (a flag), 11 is one or more,
      12 is two or more, and without these the bit n from 0 to 7 stands for n arguments. */
  predicate Takes(bits: bv64, arguments: nat) {
    if Bit(bits, 10) then true
    else if Bit(bits, 9) then arguments == 1
    else if Bit(bits, 11) then arguments >= 1
    else if Bit(bits, 12) then arguments >= 2
    else arguments <= 7 && LowBits(bits)[arguments]
  }

  lemma NamedBits(bits: bv64)
    ensures Has(bits, CONF_BLOCK) <==> Bit(bits, 8)
    ensures Has(bits, CONF_FLAG) <==> Bit(bits, 9)
    ensures Has(bits, CONF_ANY) <==> Bit(bits, 10)
    ensures Has(bits, CONF_1MORE) <==> Bit(bits, 11)
    ensures Has(bits, CONF_2MORE) <==> Bit(bits, 12)
  {
  }

  lemma NumberBits(bits: bv64, n: nat)
    requires n <= 7
    ensures Has(bits, argumentNumber[n]) <==> LowBits(bits)[n]
  {
    if n == 0 {
      MaskBit(bits, 0);
    } else if n == 1 {
      MaskBit(bits, 1);
    } else if n == 2 {
      MaskBit(bits, 2);
    } else if n == 3 {
      MaskBit(bits, 3);
    } else if n == 4 {
      MaskBit(bits, 4);
    } else if n == 5 {
      MaskBit(bits, 5);
    } else if n == 6 {
      MaskBit(bits, 6);
    } else {
      MaskBit(bits, 7);
    }
  }

  lemma MaskBit(bits: bv64, n: bv64)
    requires n < 64
    ensures Has(bits, 1 << n) <==> Bit(bits, n)
  {
  }

  lemma FitsIsTakes(bits: bv64, nelts: nat)
    requires nelts > 0
    ensures ArgsFit(bits, nelts) <==> Takes(bits, nelts - 1)
  {
    NamedBits(bits);
    if nelts <= 8 {
      NumberBits(bits, nelts - 1);
    }
  }

  /** A type whose only bit of 0 to 7 is n, and that has none of 9 to 12, takes exactly n arguments. */
  lemma TakesExactly(bits: bv64, n: nat, arguments: nat)
    requires n <= 7 && (forall k :: 0 <= k < 8 ==> (LowBits(bits)[k] <==> k == n))
    requires !Bit(bits, 9) && !Bit(bits, 10) && !Bit(bits, 11) && !Bit(bits, 12)
    ensures Takes(bits, arguments) <==> arguments == n
  {
  }

  /** The types that the command tables use: no arguments, exactly one to seven; and below, a flag, one or more, two or
      more, any number. */
  lemma TakesByType(arguments: nat)
    ensures Takes(0x01, arguments) <==> arguments == 0
    ensures Takes(0x02, arguments) <==> arguments == 1
    ensures Takes(0x04, arguments) <==> arguments == 2
    ensures Takes(0x08, arguments) <==> arguments == 3
  {
  }

  lemma TakesMany(arguments: nat)
    ensures Takes(0x10, arguments) <==> arguments == 4
    ensures Takes(0x20, arguments) <==> arguments == 5
    ensures Takes(0x40, arguments) <==> arguments == 6
    ensures Takes(0x80, arguments) <==> arguments == 7
  {
  }

  lemma TakesByKind(arguments: nat)
    ensures Takes(0x200, arguments) <==> arguments == 1
    ensures Takes(0x800, arguments) <==> arguments >= 1
    ensures Takes(0x1000, arguments) <==> arguments >= 2
    ensures Takes(0x400, arguments)
  {
  }

  /** Command j of module i has the name, belongs to the modules of the context, and is allowed in it. */
  ghost predicate AppliesAt(modules: seq<Module>, ctx: Context, name: string, i: nat, j: nat)
    requires i < |modules| && j < |modules[i].commands|
  {
    var m, c := modules[i], modules[i].commands[j];
    c.name == name && (m.kind == CONF_MODULE || m.kind == ctx.moduleType) && Shares(c.bits, ctx.cmdType)
  }

  ghost predicate NoneApplies(modules: seq<Module>, ctx: Context, name: string, i: nat, k: nat)
    requires i < |modules| && k <= |modules[i].commands|
  {
    forall j :: 0 <= j < k ==> !AppliesAt(modules, ctx, name, i, j)
  }

  /** Command j of module i is the first such. */
  ghost predicate FirstAt(modules: seq<Module>, ctx: Context, name: string, i: nat, j: nat) {
    && i < |modules| && j < |modules[i].commands| && AppliesAt(modules, ctx, name, i, j)
    && NoneApplies(modules, ctx, name, i, j)
    && forall i' :: 0 <= i' < i ==> NoneApplies(modules, ctx, name, i', |modules[i'].commands|)
  }

  /** The directive ends as its command wants it, with `{` for a block and with `;` otherwise, and has a number of
      arguments that the command takes. */
  predicate Accepted(c: Command, words: seq<string>, last: Code)
    requires words != []
  {
    (Bit(c.bits, 8) <==> last == BlockStart) && Takes(c.bits, |words| - 1)
  }

  /** The verdict of the command c. */
  predicate Verdict(d: Decision, c: Command, words: seq<string>, last: Code)
    requires words != []
  {
    && (d != Reject <==> Accepted(c, words, last))
    && (d.Block? ==> Bit(c.bits, 8) && d.inner == c.inner)
    && (d.Simple? ==> !Bit(c.bits, 8))
  }

  lemma JudgeMeans(c: Command, words: seq<string>, last: Code)
    requires words != [] && last in {Ok, BlockStart}
    ensures Verdict(Judge(c, last, |words|), c, words, last)
  {
    NamedBits(c.bits);
    FitsIsTakes(c.bits, |words|);
  }

  lemma {:induction false} FoundIn(m: Module, commands: seq<Command>, ctx: Context, words: seq<string>, last: Code)
      returns (j: nat)
    requires words != []
    ensures j <= |commands| && forall k :: 0 <= k < j ==> !Applies(m, commands[k], ctx, words[0])
    ensures DecideIn(m, commands, ctx, words, last) ==
      if j == |commands| then (Reject, false) else (Judge(commands[j], last, |words|), true)
    ensures j < |commands| ==> Applies(m, commands[j], ctx, words[0])
  {
    if commands == [] || Applies(m, commands[0], ctx, words[0]) {
      j := 0;
    } else {
      var k := FoundIn(m, commands[1..], ctx, words, last);
      j := k + 1;
      forall i | 0 <= i < j
        ensures !Applies(m, commands[i], ctx, words[0])
      {
        assert i > 0 ==> commands[i] == commands[1..][i - 1];
      }
    }
  }

  lemma DecideStep(modules: seq<Module>, k: nat, ctx: Context, words: seq<string>, last: Code)
    requires words != [] && k < |modules|
    ensures
      var (d, found) := DecideIn(modules[k], modules[k].commands, ctx, words, last);
      Decide(modules[k..], ctx, words, last) == if found then d else Decide(modules[k + 1..], ctx, words, last)
  {
    assert modules[k..][0] == modules[k] && modules[k..][1..] == modules[k + 1..];
  }

  lemma AppliesThere(modules: seq<Module>, ctx: Context, name: string, i: nat, j: nat)
    requires i < |modules| && j < |modules[i].commands|
    ensures AppliesAt(modules, ctx, name, i, j) <==> Applies(modules[i], modules[i].commands[j], ctx, name)
  {
    HasShares(modules[i].commands[j].bits, ctx.cmdType);
  }

  /** The first command of module k that applies. */
  lemma FoundHere(modules: seq<Module>, k: nat, ctx: Context, words: seq<string>, last: Code) returns (j: nat)
    requires words != [] && k < |modules|
    ensures j <= |modules[k].commands| && NoneApplies(modules, ctx, words[0], k, j)
    ensures j < |modules[k].commands| ==> AppliesAt(modules, ctx, words[0], k, j)
    ensures DecideIn(modules[k], modules[k].commands, ctx, words, last) ==
      if j == |modules[k].commands| then (Reject, false) else (Judge(modules[k].commands[j], last, |words|), true)
  {
    j := FoundIn(modules[k], modules[k].commands, ctx, words, last);
    if j < |modules[k].commands| {
      AppliesThere(modules, ctx, words[0], k, j);
    }
    forall x | 0 <= x < j
      ensures !AppliesAt(modules, ctx, words[0], k, x)
    {
      AppliesThere(modules, ctx, words[0], k, x);
    }
  }

  /** The first command from module k on that applies. */
  lemma {:induction false} FoundFrom(modules: seq<Module>, k: nat, ctx: Context, words: seq<string>, last: Code)
      returns (i: nat, j: nat)
    requires words != [] && k <= |modules|
    ensures k <= i <= |modules|
    ensures forall x :: k <= x < i ==> NoneApplies(modules, ctx, words[0], x, |modules[x].commands|)
    ensures i == |modules| ==> Decide(modules[k..], ctx, words, last) == Reject
    ensures i < |modules| ==>
      && j < |modules[i].commands| && AppliesAt(modules, ctx, words[0], i, j)
      && NoneApplies(modules, ctx, words[0], i, j)
      && Decide(modules[k..], ctx, words, last) == Judge(modules[i].commands[j], last, |words|)
    decreases |modules| - k
  {
    i, j := k, 0;
    if k < |modules| {
      j := FoundHere(modules, k, ctx, words, last);
      DecideStep(modules, k, ctx, words, last);
      if j == |modules[k].commands| {
        i, j := FoundFrom(modules, k + 1, ctx, words, last);
      }
    } else {
      assert modules[k..] == [];
    }
  }

  lemma OneFirst(modules: seq<Module>, ctx: Context, name: string, i: nat, j: nat, i': nat, j': nat)
    requires FirstAt(modules, ctx, name, i, j) && FirstAt(modules, ctx, name, i', j')
    ensures i == i' && j == j'
  {
  }

  /** The first command that applies decides: it is accepted exactly if its terminator and its number of arguments
      fit, and a block is entered with that command's own context; without such a command there is none. */
  lemma DecideMeans(modules: seq<Module>, ctx: Context, words: seq<string>, last: Code)
    requires words != [] && last in {Ok, BlockStart}
    ensures
      var d := Decide(modules, ctx, words, last);
      && (forall i: nat, j: nat :: FirstAt(modules, ctx, words[0], i, j) ==>
            Verdict(d, modules[i].commands[j], words, last))
      && (d != Reject <==>
            exists i: nat, j: nat ::
              FirstAt(modules, ctx, words[0], i, j) && Accepted(modules[i].commands[j], words, last))
  {
    var d := Decide(modules, ctx, words, last);
    var i, j := FoundFrom(modules, 0, ctx, words, last);
    assert modules[0..] == modules;
    if i == |modules| {
      forall i': nat, j': nat
        ensures !FirstAt(modules, ctx, words[0], i', j')
      {
        assert i' < |modules| ==> NoneApplies(modules, ctx, words[0], i', |modules[i'].commands|);
      }
    } else {
      JudgeMeans(modules[i].commands[j], words, last);
      forall i': nat, j': nat | FirstAt(modules, ctx, words[0], i', j')
        ensures i' == i && j' == j
      {
        OneFirst(modules, ctx, words[0], i, j, i', j');
      }
    }
  }

  /** The handler's search over modules and their commands, up to the call of the set function. */
  method Lookup(modules: seq<Module>, ctx: Context, words: seq<string>, last: Code) returns (d: Decision)
    requires words != [] && last in {Ok, BlockStart}
    ensures d == Decide(modules, ctx, words, last)
    ensures forall i: nat, j: nat :: FirstAt(modules, ctx, words[0], i, j) ==>
      Verdict(d, modules[i].commands[j], words, last)
    ensures d != Reject <==>
      exists i: nat, j: nat :: FirstAt(modules, ctx, words[0], i, j) && Accepted(modules[i].commands[j], words, last)
  {
    DecideMeans(modules, ctx, words, last);
    d := Search(modules, ctx, words, last);
  }

  /** Its loops. */
  method Search(modules: seq<Module>, ctx: Context, words: seq<string>, last: Code) returns (d: Decision)
    requires words != [] && last in {Ok, BlockStart}
    ensures d == Decide(modules, ctx, words, last)
  {
    var name := words[0];
    for i := 0 to |modules|
      invariant Decide(modules, ctx, words, last) == Decide(modules[i..], ctx, words, last)
    {
      var m := modules[i];
      assert modules[i..][1..] == modules[i + 1..];
      for j := 0 to |m.commands|
        invariant DecideIn(m, m.commands, ctx, words, last) == DecideIn(m, m.commands[j..], ctx, words, last)
      {
        var cmd := m.commands[j];
        assert m.commands[j..][1..] == m.commands[j + 1..];
        if |name| != |cmd.name| || name != cmd.name {
          continue;
        }
        if m.kind != CONF_MODULE && m.kind != ctx.moduleType {
          continue;
        }
        if !Has(cmd.bits, ctx.cmdType) {
          continue;
        }
        if !Has(cmd.bits, CONF_BLOCK) && last != Ok {
          return Reject;
        }
        if Has(cmd.bits, CONF_BLOCK) && last != BlockStart {
          return Reject;
        }
        if !Has(cmd.bits, CONF_ANY) {
          if Has(cmd.bits, CONF_FLAG) {
            if |words| != 2 {
              return Reject;
            }
          } else if Has(cmd.bits, CONF_1MORE) {
            if |words| < 2 {
              return Reject;
            }
          } else if Has(cmd.bits, CONF_2MORE) {
            if |words| < 3 {
              return Reject;
            }
          } else if |words| > CONF_MAX_ARGS {
            return Reject;
          } else if !Has(cmd.bits, argumentNumber[|words| - 1]) {
            return Reject;
          }
        }
        if Has(cmd.bits, CONF_BLOCK) {
          return Block(cmd.inner);
        } else {
          return Simple;
        }
      }
    }
    return Reject;
  }

  // ---------- parsing ----------

  /**
   * The outcomes of the set functions, which are not part of this model: does the set function of the directive that
   * ends at a file position succeed, does a block directive get as far as its body, does it succeed after its body?
   */
  datatype Env = Env(modules: seq<Module>, setOk: nat -> bool, opens: nat -> bool, closes: nat -> bool)

  datatype Kind = WholeFile | BlockBody | Param

  datatype Parsed = Parsed(ok: bool, pos: nat, line: nat)

  /** `night_conf_parse` by recursion on the rest of the file. */
  function ParseFrom(env: Env, file: string, pos: nat, line: nat, ctx: Context, kind: Kind, limit: Limit): (r: Parsed)
    requires pos <= |file|
    ensures pos <= r.pos <= |file|
    decreases |file| - pos
  {
    ReadConsumes(file, pos, line, limit);
    var t := ReadToken(file, pos, line, limit);
    match t.code
    case Error => Parsed(false, t.pos, t.line)
    case TooLong => Parsed(false, t.pos, t.line)
    case BlockDone => Parsed(kind == BlockBody, t.pos, t.line)
    case FileDone => Parsed(kind != BlockBody, t.pos, t.line)
    case _ =>
      if t.code == BlockStart && kind == Param then Parsed(false, t.pos, t.line)
      else
        match Decide(env.modules, ctx, t.words, t.code)
        case Reject => Parsed(false, t.pos, t.line)
        case Simple =>
          if env.setOk(t.pos) then ParseFrom(env, file, t.pos, t.line, ctx, kind, limit)
            else Parsed(false, t.pos, t.line)
        case Block(inner) =>
          if !env.opens(t.pos) then Parsed(false, t.pos, t.line)
          else
            var body := ParseFrom(env, file, t.pos, t.line, inner, BlockBody, limit);
            if body.ok && env.closes(body.pos) then ParseFrom(env, file, body.pos, body.line, ctx, kind, limit)
            else Parsed(false, body.pos, body.line)
  }

  class Parser {
    const env: Env
    const conf: ConfFile
    var ctx: Context

    constructor (env: Env, conf: ConfFile, ctx: Context)
      ensures this.env == env && this.conf == conf && this.ctx == ctx
    {
      this.env, this.conf, this.ctx := env, conf, ctx;
    }

    /**
     * `night_conf_parse` on an open file.  Every nested parse ends with the context it began with, and the parser
     * terminates because every directive consumes input.
     */
    method Parse(kind: Kind) returns (ok: bool)
      requires conf.Valid()
      modifies this`ctx, conf`pos, conf`last, conf`offset, conf`line, conf.buf
      ensures conf.Valid() && ctx == old(ctx)
      ensures Parsed(ok, conf.At(), conf.line) == ParseFrom(env, conf.file, old(conf.At()), old(conf.line), ctx, kind,
        Page(conf.buf.Length))
      decreases |conf.file| - conf.At(), 1
    {
      ghost var limit := Page(conf.buf.Length);
      ghost var target := ParseFrom(env, conf.file, conf.At(), conf.line, ctx, kind, limit);
      while true
        invariant conf.Valid() && ctx == old(ctx) && conf.At() >= old(conf.At())
        invariant ParseFrom(env, conf.file, conf.At(), conf.line, ctx, kind, limit) == target
        decreases |conf.file| - conf.At()
      {
        ReadConsumes(conf.file, conf.At(), conf.line, limit);
        var rc, args := conf.ReadToken();
        if rc == Error || rc == TooLong {
          return false;
        }
        if rc == BlockDone {
          return kind == BlockBody;
        }
        if rc == FileDone {
          return kind != BlockBody;
        }
        if rc == BlockStart && kind == Param {
          return false;
        }
        var handled := Handle(args, rc);
        if !handled {
          return false;
        }
      }
    }

    /** `night_conf_handler`: the directive is looked up, and a block directive saves the context, parses and
        restores it. */
    method Handle(args: seq<string>, last: Code) returns (ok: bool)
      requires conf.Valid() && args != [] && last in {Ok, BlockStart}
      modifies this`ctx, conf`pos, conf`last, conf`offset, conf`line, conf.buf
      ensures conf.Valid() && ctx == old(ctx)
      ensures
        var pos, limit := old(conf.At()), Page(conf.buf.Length);
        match Decide(env.modules, ctx, args, last)
        case Reject => !ok && conf.At() == pos && conf.line == old(conf.line)
        case Simple => ok == env.setOk(pos) && conf.At() == pos && conf.line == old(conf.line)
        case Block(inner) =>
          if !env.opens(pos) then !ok && conf.At() == pos && conf.line == old(conf.line)
          else
            var body := ParseFrom(env, conf.file, pos, old(conf.line), inner, BlockBody, limit);
            ok == (body.ok && env.closes(body.pos)) && conf.At() == body.pos && conf.line == body.line
      decreases |conf.file| - conf.At(), 3
    {
      var d := Lookup(env.modules, ctx, args, last);
      var pos := conf.offset - conf.last + conf.pos;
      match d {
        case Reject =>
          return false;
        case Simple =>
          return env.setOk(pos);
        case Block(inner) =>
          if !env.opens(pos) {
            return false;
          }
          ok := ParseBlock(inner);
      }
    }

    /** The body of a block directive, in the context that it opens. */
    method ParseBlock(inner: Context) returns (ok: bool)
      requires conf.Valid()
      modifies this`ctx, conf`pos, conf`last, conf`offset, conf`line, conf.buf
      ensures conf.Valid() && ctx == old(ctx)
      ensures
        var body := ParseFrom(env, conf.file, old(conf.At()), old(conf.line), inner, BlockBody, Page(conf.buf.Length));
        ok == (body.ok && env.closes(body.pos)) && conf.At() == body.pos && conf.line == body.line
      decreases |conf.file| - conf.At(), 2
    {
      var saved := ctx;
      ctx := inner;
      ok := Parse(BlockBody);
      ctx := saved;
      var pos := conf.offset - conf.last + conf.pos;
      ok := ok && env.closes(pos);
    }
  }

  // ---------- the stack machine ----------

  datatype Result = Done(pos: nat, line: nat) | Failed(pos: nat, line: nat)

  /** One flat run over the tokens: the last context of the stack is that of the innermost open block. */
  function StackRun(env: Env, file: string, pos: nat, line: nat, stack: seq<Context>, limit: Limit): Result
    requires pos <= |file| && stack != []
    decreases |file| - pos
  {
    ReadConsumes(file, pos, line, limit);
    var t := ReadToken(file, pos, line, limit);
    var top := stack[|stack| - 1];
    match t.code
    case Error => Failed(t.pos, t.line)
    case TooLong => Failed(t.pos, t.line)
    case FileDone => if |stack| == 1 then Done(t.pos, t.line) else Failed(t.pos, t.line)
    case BlockDone =>
      if |stack| == 1 || !env.closes(t.pos) then Failed(t.pos, t.line)
      else StackRun(env, file, t.pos, t.line, stack[..|stack| - 1], limit)
    case _ =>
      match Decide(env.modules, top, t.words, t.code)
      case Reject => Failed(t.pos, t.line)
      case Simple => if env.setOk(t.pos) then StackRun(env, file, t.pos, t.line, stack, limit)
        else Failed(t.pos, t.line)
      case Block(inner) =>
        if env.opens(t.pos) then StackRun(env, file, t.pos, t.line, stack + [inner], limit) else Failed(t.pos, t.line)
  }

  /** Parsing the body of a block is what the stack machine does until it pops that block. */
  lemma {:induction false} BodyOnStack(env: Env, file: string, pos: nat, line: nat, stack: seq<Context>, ctx: Context,
      limit: Limit)
    requires pos <= |file| && stack != []
    ensures
      var body := ParseFrom(env, file, pos, line, ctx, BlockBody, limit);
      StackRun(env, file, pos, line, stack + [ctx], limit) ==
      if body.ok && env.closes(body.pos) then StackRun(env, file, body.pos, body.line, stack, limit)
      else Failed(body.pos, body.line)
    decreases |file| - pos
  {
    ReadConsumes(file, pos, line, limit);
    var t := ReadToken(file, pos, line, limit);
    var full := stack + [ctx];
    assert full[|full| - 1] == ctx && full[..|full| - 1] == stack;
    if t.code in {Ok, BlockStart} {
      match Decide(env.modules, ctx, t.words, t.code) {
        case Reject =>
        case Simple =>
          if env.setOk(t.pos) {
            BodyOnStack(env, file, t.pos, t.line, stack, ctx, limit);
          }
        case Block(inner) =>
          if env.opens(t.pos) {
            BodyOnStack(env, file, t.pos, t.line, full, inner, limit);
            var body := ParseFrom(env, file, t.pos, t.line, inner, BlockBody, limit);
            if body.ok && env.closes(body.pos) {
              BodyOnStack(env, file, body.pos, body.line, stack, ctx, limit);
            }
          }
      }
    }
  }

  /** The recursive parser with its save-and-restore of the context computes exactly the stack machine. */
  lemma {:induction false} ParseIsStackRun(env: Env, file: string, pos: nat, line: nat, ctx: Context, limit: Limit)
    requires pos <= |file|
    ensures
      var r := ParseFrom(env, file, pos, line, ctx, WholeFile, limit);
      StackRun(env, file, pos, line, [ctx], limit) == if r.ok then Done(r.pos, r.line) else Failed(r.pos, r.line)
    decreases |file| - pos
  {
    ReadConsumes(file, pos, line, limit);
    var t := ReadToken(file, pos, line, limit);
    if t.code in {Ok, BlockStart} {
      match Decide(env.modules, ctx, t.words, t.code) {
        case Reject =>
        case Simple =>
          if env.setOk(t.pos) {
            ParseIsStackRun(env, file, t.pos, t.line, ctx, limit);
          }
        case Block(inner) =>
          if env.opens(t.pos) {
            BodyOnStack(env, file, t.pos, t.line, [ctx], inner, limit);
            var body := ParseFrom(env, file, t.pos, t.line, inner, BlockBody, limit);
            if body.ok && env.closes(body.pos) {
              ParseIsStackRun(env, file, body.pos, body.line, ctx, limit);
            }
          }
      }
    }
  }

  // ---------- balanced braces ----------

  /** The braces of the token stream, from pos on: +1 for an opening and -1 for a closing one. */
  function Braces(file: string, pos: nat, line: nat, limit: Limit): seq<int>
    requires pos <= |file|
    decreases |file| - pos
  {
    ReadConsumes(file, pos, line, limit);
    var t := ReadToken(file, pos, line, limit);
    match t.code
    case Ok => Braces(file, t.pos, t.line, limit)
    case BlockStart => [1] + Braces(file, t.pos, t.line, limit)
    case BlockDone => [-1] + Braces(file, t.pos, t.line, limit)
    case _ => []
  }

  /** No closing brace comes before its opening one, and none is left open. */
  predicate Balanced(braces: seq<int>, depth: int) {
    if braces == [] then depth == 0 else depth + braces[0] >= 0 && Balanced(braces[1..], depth + braces[0])
  }

  lemma {:induction false} RunIsBalanced(env: Env, file: string, pos: nat, line: nat, stack: seq<Context>, limit: Limit)
    requires pos <= |file| && stack != [] && StackRun(env, file, pos, line, stack, limit).Done?
    ensures Balanced(Braces(file, pos, line, limit), |stack| - 1)
    decreases |file| - pos
  {
    ReadConsumes(file, pos, line, limit);
    var t := ReadToken(file, pos, line, limit);
    if t.code == BlockDone {
      RunIsBalanced(env, file, t.pos, t.line, stack[..|stack| - 1], limit);
      assert Braces(file, pos, line, limit)[1..] == Braces(file, t.pos, t.line, limit);
    } else if t.code in {Ok, BlockStart} {
      match Decide(env.modules, stack[|stack| - 1], t.words, t.code) {
        case Simple =>
          SimpleMeansOk(env.modules, stack[|stack| - 1], t.words, t.code);
          RunIsBalanced(env, file, t.pos, t.line, stack, limit);
        case Block(inner) =>
          SimpleMeansOk(env.modules, stack[|stack| - 1], t.words, t.code);
          RunIsBalanced(env, file, t.pos, t.line, stack + [inner], limit);
          assert Braces(file, pos, line, limit)[1..] == Braces(file, t.pos, t.line, limit);
      }
    }
  }

  lemma {:induction false} SimpleMeansOkIn(m: Module, commands: seq<Command>, ctx: Context, words: seq<string>,
      last: Code)
    requires words != [] && last in {Ok, BlockStart}
    ensures DecideIn(m, commands, ctx, words, last).0.Simple? ==> last == Ok
    ensures DecideIn(m, commands, ctx, words, last).0.Block? ==> last == BlockStart
  {
    if commands != [] {
      SimpleMeansOkIn(m, commands[1..], ctx, words, last);
    }
  }

  /** Simple directives end with a semicolon, block directives with an opening brace. */
  lemma {:induction false} SimpleMeansOk(modules: seq<Module>, ctx: Context, words: seq<string>, last: Code)
    requires words != [] && last in {Ok, BlockStart}
    ensures Decide(modules, ctx, words, last).Simple? ==> last == Ok
    ensures Decide(modules, ctx, words, last).Block? ==> last == BlockStart
  {
    if modules != [] {
      SimpleMeansOkIn(modules[0], modules[0].commands, ctx, words, last);
      SimpleMeansOk(modules[1..], ctx, words, last);
    }
  }

  /** A file parses only if its braces balance. */
  lemma ParsedFileIsBalanced(env: Env, file: string, ctx: Context, limit: Limit)
    requires ParseFrom(env, file, 0, 1, ctx, WholeFile, limit).ok
    ensures Balanced(Braces(file, 0, 1, limit), 0)
  {
    ParseIsStackRun(env, file, 0, 1, ctx, limit);
    RunIsBalanced(env, file, 0, 1, [ctx], limit);
  }
}
