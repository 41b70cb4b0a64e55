/**
  Format strings compiled ahead of time to a tree of writers, and the proof
  that the tree writes what the run-time parser would have written.
 */
module FormatCompiler {
  import opened Basics
  import opened FormatFields
  import opened FormatStrings

  datatype Node =
    | TextNode(text: string)
    | CodeUnit(c: char)
    | FieldNode(arg: nat)
    | SpecField(arg: nat, specs: Specs)
    | NamedField(name: string)
    | Concat(lhs: Node, rhs: Node)

  /** An error at compile time, a string left to the run-time parser, or a tree. */
  datatype Compiled = Error | Unknown | Tree(root: Node)

  /** Marks manual indexing where an index of the next argument is expected. */
  const MANUAL := -1

  /** What a tree writes with these many arguments, none of which has a name. */
  function Write(node: Node, args: nat): Outcome
  {
    match node
    case TextNode(text) => Accept(Text(text))
    case CodeUnit(c) => Accept([Char(c)])
    case FieldNode(arg) => Accept([Field(arg, NO_SPECS)])
    case SpecField(arg, specs) =>
      if Found(specs.width, args) && Found(specs.precision, args) then Accept([Field(arg, specs)]) else Reject
    case NamedField(_) => Reject
    case Concat(lhs, rhs) =>
      var l := Write(lhs, args);
      if l.Reject? then Reject else Before(l.atoms, Write(rhs, args))
  }

  function TextEnd(s: string, i: nat): (j: nat)
    requires i <= |s|
    ensures i <= j <= |s|
    ensures forall k :: i <= k < j ==> s[k] != '{' && s[k] != '}'
    ensures j < |s| ==> s[j] == '{' || s[j] == '}'
    decreases |s| - i
  {
    if i == |s| || s[i] == '{' || s[i] == '}' then i else TextEnd(s, i + 1)
  }

  method ParseText(s: string, pos: nat) returns (end: nat)
    requires pos <= |s|
    ensures end == TextEnd(s, pos)
  {
    end := pos;
    while end != |s| && s[end] != '{' && s[end] != '}'
      invariant pos <= end <= |s| && TextEnd(s, end) == TextEnd(s, pos)
      decreases |s| - end
    {
      end := end + 1;
    }
  }

  /** The head, followed by what the rest of the string compiles to. */
  function Tail(s: string, head: Node, pos: nat, id: int, args: nat): Compiled
    decreases |s| - pos, 1
  {
    if pos == |s| then Tree(head)
    else if pos > |s| then Error
    else match Compile(s, pos, id, args)
         case Tree(tail) => Tree(Concat(head, tail))
         case Error => Error
         case Unknown => Unknown
  }

  /** The specifiers at pos, the position behind the character that ends them, and the next index. */
  function CompileSpecs(s: string, pos: nat, next: int, args: nat): (r: Option<(Specs, nat, int)>)
    requires pos <= |s|
    ensures r.Some? ==> pos < r.value.1
  {
    ConcludeSpecs(ParseSpecs(s, pos, Context(next, args, false)), next)
  }

  function ConcludeSpecs(r: Option<Parsing>, next: int): Option<(Specs, nat, int)>
  {
    match r
    case None => None
    case Some(p) =>
      if next == 0 then Some((p.specs, p.at + 1, MANUAL))
      else match Resolve(p.ctx, AutoId)
           case None => None
           case Some((id, _)) => Some((p.specs, p.at + 1, id))
  }

  /** A field whose argument is known, then the rest of the string. */
  function FieldThenTail(s: string, pos: nat, arg: nat, next: int, args: nat): Compiled
    decreases |s| - pos, 2
  {
    if pos >= |s| || arg >= args then Error
    else if s[pos] == '}' then Tail(s, FieldNode(arg), pos + 1, next, args)
    else if s[pos] == ':' then
      match CompileSpecs(s, pos + 1, if next == MANUAL then 0 else next, args)
      case None => Error
      case Some((specs, end, next')) => Tail(s, SpecField(arg, specs), end, next', args)
    else Error
  }

  function Compile(s: string, pos: nat, id: int, args: nat): Compiled
    requires pos < |s|
    decreases |s| - pos, 0
  {
    if s[pos] == '{' then
      if pos + 1 == |s| then Error
      else if s[pos + 1] == '{' then Tail(s, TextNode("{"), pos + 2, id, args)
      else if s[pos + 1] == '}' || s[pos + 1] == ':' then
        if id < 0 then Error else FieldThenTail(s, pos + 1, id, id + 1, args)
      else
        match ParseArgId(s, pos + 1)
        case None => Error
        case Some((argId, end)) =>
          if end == |s| || (s[end] != '}' && s[end] != ':') then Error else
          match argId
          case AutoId => Error
          case Index(n) => if id == MANUAL || id == 0 then FieldThenTail(s, end, n, MANUAL, args) else Error
          case Name(name) => if s[end] == '}' then Tail(s, NamedField(name), end + 1, id, args) else Unknown
    else if s[pos] == '}' then
      if pos + 1 == |s| then Error else Tail(s, TextNode("}"), pos + 2, id, args)
    else
      var end := TextEnd(s, pos + 1);
      Tail(s, if end - pos > 1 then TextNode(s[pos..end]) else CodeUnit(s[pos]), end, id, args)
  }

  function CompileString(s: string, args: nat): Compiled
  {
    if s == "" then Tree(TextNode("")) else Compile(s, 0, 0, args)
  }

  // ---- the compiled tree means the same ----

  /** The contexts of parser and compiler between fields agree. */
  ghost predicate Agrees(ctx: Context, id: int)
  {
    ctx.eager && ctx.next == id && id >= MANUAL
  }

  /** The compiler's tree for the string from pos on writes what the parser accepts. */
  ghost predicate Matches(compiled: Compiled, args: nat, atoms: seq<Atom>)
  {
    compiled.Tree? && Write(compiled.root, args) == Accept(atoms)
  }

  lemma BeforeNothing(s: string, i: nat, rest: Outcome)
    requires i <= |s|
    ensures Before(Text(s[i..i]), rest) == rest
  {
    assert rest.Accept? ==> [] + rest.atoms == rest.atoms;
  }

  /** Text up to the next brace is scanned a character at a time. */
  lemma {:induction false} ScanText(s: string, i: nat, ctx: Context)
    requires i <= |s|
    ensures Scan(s, i, ctx) == Before(Text(s[i..TextEnd(s, i)]), Scan(s, TextEnd(s, i), ctx))
    decreases |s| - i
  {
    var j := TextEnd(s, i);
    if i == j {
      BeforeNothing(s, i, Scan(s, i, ctx));
    } else {
      ScanText(s, i + 1, ctx);
      BeforeBefore([Char(s[i])], Text(s[i + 1..j]), Scan(s, j, ctx));
      assert s[i..j] == [s[i]] + s[i + 1..j];
      TextAppend([s[i]], s[i + 1..j]);
      assert Text([s[i]]) == [Char(s[i])];
    }
  }

  lemma ConcludeMatches(s: string, arg: nat, r: Option<Parsing>, q: Option<Parsing>, id: int)
    requires SameStage(r, q) && CloseSpecs(s, arg, r).Some? && LookedUp(r.value)
    requires id != 0 && if id == MANUAL then r.value.ctx.next == MANUAL else r.value.ctx.next >= 1
    ensures var c := ConcludeSpecs(q, if id == MANUAL then 0 else id);
            var (atom, end, ctx') := CloseSpecs(s, arg, r).value;
            && c.Some? && c.value.1 == end && Agrees(ctx', c.value.2)
            && atom == Field(arg, c.value.0)
            && Write(SpecField(arg, c.value.0), r.value.ctx.args) == Accept([atom])
  {
  }

  /** Specifiers that the run-time parser accepts compile to the same, and leave the indexing in step. */
  lemma SpecsMatch(s: string, pos: nat, arg: nat, ctx: Context, id: int)
    requires pos <= |s| && Agrees(ctx, id) && id != 0
    requires ParseFieldSpecs(s, pos, arg, ctx).Some?
    ensures var r := CompileSpecs(s, pos, if id == MANUAL then 0 else id, ctx.args);
            var (atom, end, ctx') := ParseFieldSpecs(s, pos, arg, ctx).value;
            && r.Some? && r.value.1 == end && Agrees(ctx', r.value.2)
            && ctx'.args == ctx.args
            && atom == Field(arg, r.value.0)
            && Write(SpecField(arg, r.value.0), ctx.args) == Accept([atom])
  {
    var d := Context(if id == MANUAL then 0 else id, ctx.args, false);
    SpecsTrack(s, pos, ctx, d);
    ConcludeMatches(s, arg, ParseSpecs(s, pos, ctx), ParseSpecs(s, pos, d), id);
  }

  /** The string from pos on compiles to what the parser accepts. */
  ghost predicate RestMatches(s: string, pos: nat, ctx: Context)
  {
    && pos <= |s| && Scan(s, pos, ctx).Accept?
    && (pos < |s| ==> Matches(Compile(s, pos, ctx.next, ctx.args), ctx.args, Scan(s, pos, ctx).atoms))
  }

  lemma TailMatches(s: string, head: Node, pos: nat, id: int, ctx: Context, atoms: seq<Atom>)
    requires RestMatches(s, pos, ctx) && id == ctx.next && Write(head, ctx.args) == Accept(atoms)
    ensures Matches(Tail(s, head, pos, id, ctx.args), ctx.args, atoms + Scan(s, pos, ctx).atoms)
  {
    if pos == |s| {
      assert atoms + [] == atoms;
    }
  }

  lemma BareFieldMatches(s: string, pos: nat, ctx: Context, atom: Atom, end: nat, ctx': Context)
    requires pos + 1 < |s| && s[pos] == '{' && (s[pos + 1] == '{' || s[pos + 1] == '}')
    requires Agrees(ctx, ctx.next) && ctx'.args == ctx.args
    requires ParseField(s, pos, ctx) == Some((atom, end, ctx')) && RestMatches(s, end, ctx')
    ensures RestMatches(s, pos, ctx)
  {
    if s[pos + 1] == '{' {
      assert Text("{") == [Char('{')];
      TailMatches(s, TextNode("{"), end, ctx.next, ctx', [atom]);
    } else {
      TailMatches(s, FieldNode(ctx.next), end, ctx'.next, ctx', [atom]);
    }
  }

  /** An id that the run-time parser resolves, and the indexing after it. */
  lemma Resolved(ctx: Context, id: ArgId, arg: nat, c: Context)
    requires Agrees(ctx, ctx.next) && Resolve(ctx, id) == Some((arg, c))
    ensures Agrees(c, c.next) && c.next != 0 && arg < ctx.args == c.args
    ensures id.AutoId? ==> ctx.next >= 0 && arg == ctx.next && c.next == ctx.next + 1
    ensures !id.AutoId? ==> id == Index(arg) && ctx.next <= 0 && c.next == MANUAL
  {
  }

  lemma CompileAuto(s: string, pos: nat, id: int, args: nat)
    requires pos + 1 < |s| && s[pos] == '{' && (s[pos + 1] == '}' || s[pos + 1] == ':')
    ensures Compile(s, pos, id, args) == if id < 0 then Error else FieldThenTail(s, pos + 1, id, id + 1, args)
  {
  }

  lemma CompileIndex(s: string, pos: nat, id: int, args: nat, n: ArgId, j: nat)
    requires pos + 1 < |s| && s[pos] == '{' && s[pos + 1] !in {'{', '}', ':'} && (id == MANUAL || id == 0)
    requires ParseArgId(s, pos + 1) == Some((n, j)) && n.Index? && j < |s| && (s[j] == '}' || s[j] == ':')
    ensures Compile(s, pos, id, args) == FieldThenTail(s, j, n.n, MANUAL, args)
  {
  }

  /** What a field compiles to once its argument is known. */
  lemma FieldMatches(s: string, j: nat, arg: nat, c: Context, atom: Atom, end: nat, ctx': Context)
    requires Agrees(c, c.next) && c.next != 0 && arg < c.args && RestMatches(s, end, ctx')
    requires ParseAfterId(s, j, arg, c) == Some((atom, end, ctx'))
    ensures Matches(FieldThenTail(s, j, arg, c.next, c.args), c.args, [atom] + Scan(s, end, ctx').atoms)
  {
    if s[j] == '}' {
      TailMatches(s, FieldNode(arg), end, ctx'.next, ctx', [atom]);
    } else {
      SpecsMatch(s, j + 1, arg, c, c.next);
      var specs := CompileSpecs(s, j + 1, if c.next == MANUAL then 0 else c.next, c.args).value.0;
      TailMatches(s, SpecField(arg, specs), end, ctx'.next, ctx', [atom]);
    }
  }

  /** A field whose id and what follows it the parser has read. */
  lemma IdFieldCompiles(s: string, pos: nat, ctx: Context, id: ArgId, j: nat, arg: nat, c: Context,
                        atom: Atom, end: nat, ctx': Context)
    requires pos + 1 < |s| && s[pos] == '{' && s[pos + 1] != '{' && s[pos + 1] != '}' && Agrees(ctx, ctx.next)
    requires ParseArgId(s, pos + 1) == Some((id, j)) && Resolve(ctx, id) == Some((arg, c))
    requires ParseAfterId(s, j, arg, c) == Some((atom, end, ctx')) && RestMatches(s, end, ctx')
    ensures Matches(Compile(s, pos, ctx.next, ctx.args), ctx.args, [atom] + Scan(s, end, ctx').atoms)
  {
    Resolved(ctx, id, arg, c);
    FieldMatches(s, j, arg, c, atom, end, ctx');
    if s[pos + 1] == ':' {
      CompileAuto(s, pos, ctx.next, ctx.args);
    } else {
      CompileIndex(s, pos, ctx.next, ctx.args, id, j);
    }
  }

  lemma IdFieldMatches(s: string, pos: nat, ctx: Context, atom: Atom, end: nat, ctx': Context)
    requires pos + 1 < |s| && s[pos] == '{' && s[pos + 1] != '{' && s[pos + 1] != '}'
    requires Agrees(ctx, ctx.next)
    requires ParseField(s, pos, ctx) == Some((atom, end, ctx')) && RestMatches(s, end, ctx')
    ensures RestMatches(s, pos, ctx)
  {
    var (id, j) := ParseArgId(s, pos + 1).value;
    var (arg, c) := Resolve(ctx, id).value;
    IdFieldCompiles(s, pos, ctx, id, j, arg, c, atom, end, ctx');
    FieldConcludes(s, pos, ctx, atom, end, ctx', Compile(s, pos, ctx.next, ctx.args));
  }

  /** A field and the rest of the string, put together. */
  lemma FieldConcludes(s: string, pos: nat, ctx: Context, atom: Atom, end: nat, ctx': Context, compiled: Compiled)
    requires pos < |s| && s[pos] == '{' && ParseField(s, pos, ctx) == Some((atom, end, ctx'))
    requires Scan(s, end, ctx').Accept? && Compile(s, pos, ctx.next, ctx.args) == compiled
    requires Matches(compiled, ctx.args, [atom] + Scan(s, end, ctx').atoms)
    ensures RestMatches(s, pos, ctx)
  {
  }

  lemma TextMatches(s: string, pos: nat, ctx: Context)
    requires pos < |s| && s[pos] != '{' && s[pos] != '}' && RestMatches(s, TextEnd(s, pos + 1), ctx)
    ensures RestMatches(s, pos, ctx)
  {
    var end := TextEnd(s, pos + 1);
    ScanText(s, pos, ctx);
    assert TextEnd(s, pos) == end;
    var head := if end - pos > 1 then TextNode(s[pos..end]) else CodeUnit(s[pos]);
    assert end - pos == 1 ==> Text(s[pos..end]) == [Char(s[pos])];
    TailMatches(s, head, end, ctx.next, ctx, Text(s[pos..end]));
  }

  lemma {:induction false} CompileMatches(s: string, pos: nat, ctx: Context)
    requires pos <= |s| && Agrees(ctx, ctx.next) && Scan(s, pos, ctx).Accept?
    ensures RestMatches(s, pos, ctx)
    decreases |s| - pos
  {
    if pos == |s| {
    } else if s[pos] == '{' {
      var (atom, j, ctx') := ParseField(s, pos, ctx).value;
      CompileMatches(s, j, ctx');
      if s[pos + 1] == '{' || s[pos + 1] == '}' {
        BareFieldMatches(s, pos, ctx, atom, j, ctx');
      } else {
        IdFieldMatches(s, pos, ctx, atom, j, ctx');
      }
    } else if s[pos] == '}' {
      CompileMatches(s, pos + 2, ctx);
      assert Text("}") == [Char('}')];
      TailMatches(s, TextNode("}"), pos + 2, ctx.next, ctx, [Char('}')]);
    } else {
      var end := TextEnd(s, pos + 1);
      ScanText(s, pos, ctx);
      assert TextEnd(s, pos) == end;
      CompileMatches(s, end, ctx);
      TextMatches(s, pos, ctx);
    }
  }

  /** Every format string that is accepted at run time compiles to a tree that writes the same. */
  lemma CompiledMeansTheSame(s: string, args: nat)
    requires Scan(s, 0, Context(0, args, true)).Accept?
    ensures CompileString(s, args).Tree?
    ensures Write(CompileString(s, args).root, args) == Scan(s, 0, Context(0, args, true))
  {
    if s == "" {
      assert Text("") == [];
    } else {
      CompileMatches(s, 0, Context(0, args, true));
    }
  }

  /** The converse fails: after a closing brace the compiler skips any character. */
  lemma CompilerSkipsAnything(c: char, args: nat)
    ensures CompileString(['}', c], args) == Tree(TextNode("}"))
    ensures c != '}' ==> Scan(['}', c], 0, Context(0, args, true)) == Reject
  {
    assert Compile(['}', c], 0, 0, args) == Tail(['}', c], TextNode("}"), 2, 0, args);
  }
}
