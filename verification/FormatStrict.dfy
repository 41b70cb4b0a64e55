/**
  Which strings the compiler accepts beyond the run-time parser: exactly those
  that are not strict, a condition on the text alone.
 */
module FormatStrict {
  import opened Basics
  import opened FormatFields
  import opened FormatStrings
  import opened FormatCompiler

  // ---- strictness ----

  /** Reading specifiers as text, in a numbered field or in one that is not. */
  function Reader(numbered: bool): Context
  {
    Context(if numbered then 0 else 1, 0, false)
  }

  /**
    The text is strict: a closing brace outside a field is doubled, specifiers
    end at a closing brace, and in a numbered field a width or precision that
    is an argument is numbered too.
   */
  predicate Strict(s: string, i: nat)
    decreases |s| - i, 0
  {
    if i >= |s| then true
    else if s[i] == '{' then
      i + 1 == |s| || if s[i + 1] == '{' then Strict(s, i + 2) else
      match ParseArgId(s, i + 1)
      case None => true
      case Some((id, j)) => StrictAfterId(s, j, !id.AutoId?)
    else if s[i] == '}' then i + 1 < |s| && s[i + 1] == '}' && Strict(s, i + 2)
    else Strict(s, i + 1)
  }

  predicate StrictAfterId(s: string, j: nat, numbered: bool)
    requires j <= |s|
    decreases |s| - j, 1
  {
    if j < |s| && s[j] == ':' then StrictSpecs(s, j + 1, numbered) else Strict(s, j + 1)
  }

  predicate StrictSpecs(s: string, i: nat, numbered: bool)
    requires i <= |s|
    decreases |s| - i, 1
  {
    match ParseSpecs(s, i, Reader(numbered))
    case None => true
    case Some(p) => Closed(s, p, numbered) && Strict(s, p.at + 1)
  }

  /** Specifiers that end at a closing brace, all numbered in a numbered field. */
  predicate Closed(s: string, p: Parsing, numbered: bool)
  {
    p.at < |s| && s[p.at] == '}' && (numbered ==> p.ctx.next <= 0)
  }

  // ---- specifiers read as text ----

  /** Contexts that look nothing up early and are in the same mode. */
  predicate Alike(c: Context, d: Context)
  {
    !c.eager && !d.eager && (c.next == d.next || (c.next >= 1 && d.next >= 1))
  }

  predicate AlikeParse(p: Parsing, q: Parsing)
  {
    p.at == q.at && Alike(p.ctx, q.ctx)
  }

  predicate AlikeStage(r: Option<Parsing>, q: Option<Parsing>)
  {
    if r.Some? then q.Some? && AlikeParse(r.value, q.value) else q.None?
  }

  lemma DynamicAlike(s: string, i: nat, c: Context, d: Context)
    requires Alike(c, d)
    ensures var r, q := ParseDynamic(s, i, c), ParseDynamic(s, i, d);
            if r.Some? then q.Some? && q.value.1 == r.value.1 && Alike(r.value.2, q.value.2) else q.None?
  {
  }

  lemma WidthAlike(s: string, p: Parsing, q: Parsing)
    requires AlikeParse(p, q) && p.at <= |s|
    ensures AlikeStage(ParseWidth(s, p), ParseWidth(s, q))
  {
    DynamicAlike(s, p.at + 1, p.ctx, q.ctx);
  }

  lemma PrecisionAlike(s: string, p: Parsing, q: Parsing)
    requires AlikeParse(p, q) && p.at <= |s|
    ensures AlikeStage(ParsePrecision(s, p), ParsePrecision(s, q))
  {
    DynamicAlike(s, p.at + 2, p.ctx, q.ctx);
  }

  lemma FlagsAlike(s: string, p: Parsing, q: Parsing)
    requires AlikeParse(p, q) && p.at <= |s|
    ensures AlikeParse(ParseFlags(s, p), ParseFlags(s, q))
  {
  }

  lemma StageAlike(s: string, p: Parsing, q: Parsing, stage: Stage)
    requires AlikeParse(p, q) && p.at <= |s|
    ensures AlikeStage(ParseStage(s, p, stage), ParseStage(s, q, stage))
  {
    match stage
    case Flags => FlagsAlike(s, p, q);
    case Width => WidthAlike(s, p, q);
    case Precision => PrecisionAlike(s, p, q);
    case _ =>
  }

  lemma {:induction false} FromAlike(s: string, p: Parsing, q: Parsing, stage: Stage)
    requires AlikeParse(p, q) && p.at <= |s|
    ensures AlikeStage(ParseFrom(s, p, stage), ParseFrom(s, q, stage))
    decreases StagesLeft(stage)
  {
    StageAlike(s, p, q, stage);
    if stage != Done && ParseStage(s, p, stage).Some? {
      FromAlike(s, ParseStage(s, p, stage).value, ParseStage(s, q, stage).value, Later(stage));
    }
  }

  /** Where specifiers end does not depend on the arguments. */
  lemma SpecsAlike(s: string, i: nat, c: Context, d: Context)
    requires i <= |s| && Alike(c, d)
    ensures AlikeStage(ParseSpecs(s, i, c), ParseSpecs(s, i, d))
  {
    ShortCutAgrees(s, i, c);
    ShortCutAgrees(s, i, d);
    FromAlike(s, Parsing(i, NO_SPECS, c), Parsing(i, NO_SPECS, d), Alignment);
  }

  // ---- from late look-up back to early look-up ----

  /** Nothing that a stage read is replaced by a later one. */
  lemma {:induction false} AmountsStay(s: string, p: Parsing, stage: Stage)
    requires p.at <= |s| && ParseFrom(s, p, stage).Some?
    ensures stage in {Precision, Type, Done} ==> ParseFrom(s, p, stage).value.specs.width == p.specs.width
    ensures stage in {Type, Done} ==> ParseFrom(s, p, stage).value.specs.precision == p.specs.precision
    decreases StagesLeft(stage)
  {
    if stage != Done {
      AmountsStay(s, ParseStage(s, p, stage).value, Later(stage));
    }
  }

  /** What late look-up read is fit for early look-up: every argument exists, and manual indexing was kept. */
  predicate Fit(p: Parsing, args: nat, manual: bool)
  {
    Found(p.specs.width, args) && Found(p.specs.precision, args) && (manual ==> p.ctx.next <= 0)
  }

  lemma DynamicReturns(s: string, i: nat, c: Context, d: Context)
    requires Tracks(c, d) && ParseDynamic(s, i, d).Some? && ParseDynamic(s, i, d).value.0 < c.args
    requires c.next == -1 ==> ParseDynamic(s, i, d).value.2.next <= 0
    ensures ParseDynamic(s, i, c).Some?
  {
  }

  lemma WidthReturns(s: string, p: Parsing, q: Parsing)
    requires SameParse(p, q) && p.at <= |s| && ParseWidth(s, q).Some?
    requires p.ctx.next == -1 ==> ParseWidth(s, q).value.ctx.next <= 0
    requires Found(ParseWidth(s, q).value.specs.width, p.ctx.args)
    ensures ParseWidth(s, p).Some?
  {
    if p.at < |s| && s[p.at] == '{' {
      DynamicReturns(s, p.at + 1, p.ctx, q.ctx);
    }
  }

  lemma PrecisionReturns(s: string, p: Parsing, q: Parsing)
    requires SameParse(p, q) && p.at <= |s| && ParsePrecision(s, q).Some?
    requires p.ctx.next == -1 ==> ParsePrecision(s, q).value.ctx.next <= 0
    requires Found(ParsePrecision(s, q).value.specs.precision, p.ctx.args)
    ensures ParsePrecision(s, p).Some?
  {
    if p.at + 1 < |s| && s[p.at] == '.' && s[p.at + 1] == '{' {
      DynamicReturns(s, p.at + 2, p.ctx, q.ctx);
    }
  }

  lemma StageReturns(s: string, p: Parsing, q: Parsing, stage: Stage)
    requires SameParse(p, q) && p.at <= |s| && ParseStage(s, q, stage).Some?
    requires p.ctx.next == -1 ==> ParseStage(s, q, stage).value.ctx.next <= 0
    requires stage == Width ==> Found(ParseStage(s, q, stage).value.specs.width, p.ctx.args)
    requires stage == Precision ==> Found(ParseStage(s, q, stage).value.specs.precision, p.ctx.args)
    ensures ParseStage(s, p, stage).Some?
  {
    match stage
    case Width => WidthReturns(s, p, q);
    case Precision => PrecisionReturns(s, p, q);
    case _ =>
  }

  lemma {:induction false} FromReturns(s: string, p: Parsing, q: Parsing, stage: Stage)
    requires SameParse(p, q) && p.at <= |s| && ParseFrom(s, q, stage).Some?
    requires Fit(ParseFrom(s, q, stage).value, p.ctx.args, p.ctx.next == -1)
    ensures ParseFrom(s, p, stage).Some?
    decreases StagesLeft(stage)
  {
    if stage != Done {
      var q' := ParseStage(s, q, stage).value;
      AmountsStay(s, q', Later(stage));
      StageReturns(s, p, q, stage);
      StageTracks(s, p, q, stage);
      FromReturns(s, ParseStage(s, p, stage).value, q', Later(stage));
    }
  }

  /** Specifiers that the compiler reads are read by the run-time parser too, if they are fit for it. */
  lemma SpecsReturn(s: string, i: nat, c: Context, d: Context)
    requires i <= |s| && Tracks(c, d) && ParseSpecs(s, i, d).Some?
    requires Fit(ParseSpecs(s, i, d).value, c.args, c.next == -1)
    ensures ParseSpecs(s, i, c).Some?
  {
    ShortCutAgrees(s, i, c);
    ShortCutAgrees(s, i, d);
    FromReturns(s, Parsing(i, NO_SPECS, c), Parsing(i, NO_SPECS, d), Alignment);
  }

  // ---- what the parser accepts is strict ----

  /** The context in which the compiler reads the specifiers of a field. */
  function Late(ctx: Context): Context
  {
    Context(if ctx.next == MANUAL then 0 else ctx.next, ctx.args, false)
  }

  /** What early look-up reads is read as text too, up to the same place. */
  ghost predicate Read(r: Option<Parsing>, t: Option<Parsing>, manual: bool)
  {
    r.Some? ==> t.Some? && t.value.at == r.value.at && (manual ==> t.value.ctx.next <= 0)
  }

  lemma ReadThrough(r: Option<Parsing>, q: Option<Parsing>, t: Option<Parsing>, manual: bool)
    requires SameStage(r, q) && AlikeStage(q, t)
    requires manual && r.Some? ==> r.value.ctx.next == MANUAL
    ensures Read(r, t, manual)
  {
  }

  lemma SpecsRead(s: string, i: nat, c: Context)
    requires i <= |s| && Agrees(c, c.next) && c.next != 0
    ensures Read(ParseSpecs(s, i, c), ParseSpecs(s, i, Reader(c.next == MANUAL)), c.next == MANUAL)
  {
    var t := Reader(c.next == MANUAL);
    SpecsTrack(s, i, c, Late(c));
    SpecsAlike(s, i, Late(c), t);
    ReadThrough(ParseSpecs(s, i, c), ParseSpecs(s, i, Late(c)), ParseSpecs(s, i, t), c.next == MANUAL);
  }

  lemma ClosedAsRead(s: string, arg: nat, r: Option<Parsing>, t: Option<Parsing>, manual: bool)
    requires Read(r, t, manual)
    ensures CloseSpecs(s, arg, r).Some? ==>
              t.Some? && Closed(s, t.value, manual) && t.value.at + 1 == CloseSpecs(s, arg, r).value.1
    ensures r.Some? && Closed(s, t.value, manual) ==>
              CloseSpecs(s, arg, r).Some? && CloseSpecs(s, arg, r).value.1 == t.value.at + 1
  {
  }

  /** Specifiers that end a field at run time end it when they are read as text. */
  lemma SpecsCloseAsText(s: string, i: nat, arg: nat, c: Context)
    requires i <= |s| && Agrees(c, c.next) && c.next != 0 && ParseFieldSpecs(s, i, arg, c).Some?
    ensures var t := ParseSpecs(s, i, Reader(c.next == MANUAL));
            && t.Some? && Closed(s, t.value, c.next == MANUAL)
            && t.value.at + 1 == ParseFieldSpecs(s, i, arg, c).value.1
  {
    var manual := c.next == MANUAL;
    SpecsRead(s, i, c);
    ClosedAsRead(s, arg, ParseSpecs(s, i, c), ParseSpecs(s, i, Reader(manual)), manual);
  }

  lemma AfterIdIsStrict(s: string, j: nat, arg: nat, c: Context)
    requires j <= |s| && Agrees(c, c.next) && c.next != 0
    requires ParseAfterId(s, j, arg, c).Some? && Strict(s, ParseAfterId(s, j, arg, c).value.1)
    ensures StrictAfterId(s, j, c.next == MANUAL)
  {
    if s[j] == ':' {
      SpecsCloseAsText(s, j + 1, arg, c);
    }
  }

  lemma {:induction false} AcceptedIsStrict(s: string, pos: nat, ctx: Context)
    requires pos <= |s| && Agrees(ctx, ctx.next) && Scan(s, pos, ctx).Accept?
    ensures Strict(s, pos)
    decreases |s| - pos
  {
    if pos == |s| {
    } else if s[pos] == '{' {
      var (_, end, ctx') := ParseField(s, pos, ctx).value;
      AcceptedIsStrict(s, end, ctx');
      if s[pos + 1] != '{' {
        var (id, j) := ParseArgId(s, pos + 1).value;
        var (arg, c) := Resolve(ctx, id).value;
        Resolved(ctx, id, arg, c);
        AfterIdIsStrict(s, j, arg, c);
      }
    } else if s[pos] == '}' {
      AcceptedIsStrict(s, pos + 2, ctx);
    } else {
      AcceptedIsStrict(s, pos + 1, ctx);
    }
  }

  // ---- what is strict and compiles is accepted by the parser ----

  /** A tree that writes its output without an error. */
  predicate Writes(c: Compiled, args: nat)
  {
    c.Tree? && Write(c.root, args).Accept?
  }

  /** The string from pos on compiles to such a tree, and is strict. */
  predicate GoesOn(s: string, pos: nat, id: int, args: nat)
  {
    pos <= |s| && Strict(s, pos) && (pos < |s| ==> Writes(Compile(s, pos, id, args), args))
  }

  lemma TailGoesOn(s: string, head: Node, pos: nat, id: int, args: nat)
    requires Writes(Tail(s, head, pos, id, args), args)
    ensures pos <= |s| && (pos < |s| ==> Writes(Compile(s, pos, id, args), args)) && Write(head, args).Accept?
  {
  }

  /** The compiled specifiers of a field that writes, and what the compiler makes of the rest. */
  lemma SpecsWritten(s: string, j: nat, arg: nat, c: Context)
    requires c.next != 0 && j < |s| && s[j] == ':'
    requires Writes(FieldThenTail(s, j, arg, c.next, c.args), c.args)
    ensures CompileSpecs(s, j + 1, Late(c).next, c.args).Some?
    ensures var (specs, end, next) := CompileSpecs(s, j + 1, Late(c).next, c.args).value;
            && Found(specs.width, c.args) && Found(specs.precision, c.args)
            && end <= |s| && (end < |s| ==> Writes(Compile(s, end, next, c.args), c.args))
  {
    var (specs, end, next) := CompileSpecs(s, j + 1, Late(c).next, c.args).value;
    TailGoesOn(s, SpecField(arg, specs), end, next, c.args);
  }

  lemma ReadReturns(q: Option<Parsing>, t: Option<Parsing>, args: nat, manual: bool)
    requires AlikeStage(q, t) && q.Some? && Found(q.value.specs.width, args) && Found(q.value.specs.precision, args)
    ensures t.Some? && ((manual ==> t.value.ctx.next <= 0) ==> Fit(q.value, args, manual))
  {
  }

  lemma TextReturns(s: string, i: nat, c: Context)
    requires i <= |s| && Agrees(c, c.next) && c.next != 0 && ParseSpecs(s, i, Late(c)).Some?
    requires var specs := ParseSpecs(s, i, Late(c)).value.specs;
             Found(specs.width, c.args) && Found(specs.precision, c.args)
    ensures var t := ParseSpecs(s, i, Reader(c.next == MANUAL));
            t.Some? && ((c.next == MANUAL ==> t.value.ctx.next <= 0) ==> ParseSpecs(s, i, c).Some?)
  {
    var manual := c.next == MANUAL;
    var t := ParseSpecs(s, i, Reader(manual));
    SpecsAlike(s, i, Late(c), Reader(manual));
    ReadReturns(ParseSpecs(s, i, Late(c)), t, c.args, manual);
    if manual ==> t.value.ctx.next <= 0 {
      SpecsReturn(s, i, c, Late(c));
    }
  }

  /** Specifiers that the compiler reads and that are closed as text end a field at run time. */
  lemma ClosedSpecsReturn(s: string, i: nat, arg: nat, c: Context, t: Option<Parsing>)
    requires i <= |s| && Agrees(c, c.next) && c.next != 0 && ParseSpecs(s, i, Late(c)).Some?
    requires var specs := ParseSpecs(s, i, Late(c)).value.specs;
             Found(specs.width, c.args) && Found(specs.precision, c.args)
    requires ParseSpecs(s, i, Reader(c.next == MANUAL)) == t && (t.Some? ==> Closed(s, t.value, c.next == MANUAL))
    ensures t.Some? && ParseFieldSpecs(s, i, arg, c).Some?
    ensures ParseFieldSpecs(s, i, arg, c).value.1 == t.value.at + 1
  {
    TextReturns(s, i, c);
    SpecsRead(s, i, c);
    ClosedAsRead(s, arg, ParseSpecs(s, i, c), t, c.next == MANUAL);
  }

  lemma Concluded(r: Option<Parsing>, next: int)
    ensures ConcludeSpecs(r, next).Some? ==> r.Some? && ConcludeSpecs(r, next).value.0 == r.value.specs
  {
  }

  lemma SpecsParse(s: string, j: nat, arg: nat, c: Context, t: Option<Parsing>)
    requires Agrees(c, c.next) && c.next != 0 && j < |s| && s[j] == ':'
    requires Writes(FieldThenTail(s, j, arg, c.next, c.args), c.args)
    requires ParseSpecs(s, j + 1, Reader(c.next == MANUAL)) == t && (t.Some? ==> Closed(s, t.value, c.next == MANUAL))
    ensures t.Some? && ParseFieldSpecs(s, j + 1, arg, c).Some?
    ensures ParseFieldSpecs(s, j + 1, arg, c).value.1 == t.value.at + 1
  {
    SpecsWritten(s, j, arg, c);
    Concluded(ParseSpecs(s, j + 1, Late(c)), Late(c).next);
    ClosedSpecsReturn(s, j + 1, arg, c, t);
  }

  lemma SpecsCompileOn(s: string, j: nat, arg: nat, c: Context)
    requires Agrees(c, c.next) && c.next != 0 && j < |s| && s[j] == ':'
    requires Writes(FieldThenTail(s, j, arg, c.next, c.args), c.args) && ParseFieldSpecs(s, j + 1, arg, c).Some?
    ensures var (_, end, c') := ParseFieldSpecs(s, j + 1, arg, c).value;
            && Agrees(c', c'.next) && c'.args == c.args && end <= |s|
            && (end < |s| ==> Writes(Compile(s, end, c'.next, c.args), c.args))
  {
    SpecsWritten(s, j, arg, c);
    SpecsMatch(s, j + 1, arg, c, c.next);
  }

  lemma SpecsGoOn(s: string, j: nat, arg: nat, c: Context)
    requires Agrees(c, c.next) && c.next != 0 && j < |s| && s[j] == ':'
    requires Writes(FieldThenTail(s, j, arg, c.next, c.args), c.args) && StrictSpecs(s, j + 1, c.next == MANUAL)
    ensures ParseFieldSpecs(s, j + 1, arg, c).Some?
    ensures var (_, end, c') := ParseFieldSpecs(s, j + 1, arg, c).value;
            Agrees(c', c'.next) && c'.args == c.args && GoesOn(s, end, c'.next, c'.args)
  {
    SpecsParse(s, j, arg, c, ParseSpecs(s, j + 1, Reader(c.next == MANUAL)));
    SpecsCompileOn(s, j, arg, c);
  }

  /** A field whose id the parser has resolved. */
  lemma AfterIdGoesOn(s: string, j: nat, arg: nat, c: Context)
    requires j <= |s| && Agrees(c, c.next) && c.next != 0
    requires StrictAfterId(s, j, c.next == MANUAL) && Writes(FieldThenTail(s, j, arg, c.next, c.args), c.args)
    ensures arg < c.args && ParseAfterId(s, j, arg, c).Some?
    ensures var (_, end, c') := ParseAfterId(s, j, arg, c).value;
            Agrees(c', c'.next) && c'.args == c.args && GoesOn(s, end, c'.next, c'.args)
  {
    if s[j] == ':' {
      SpecsGoOn(s, j, arg, c);
    } else {
      TailGoesOn(s, FieldNode(arg), j + 1, c.next, c.args);
    }
  }

  lemma AutoIdCompiles(s: string, pos: nat, ctx: Context)
    requires pos + 1 < |s| && s[pos] == '{' && (s[pos + 1] == '}' || s[pos + 1] == ':') && Agrees(ctx, ctx.next)
    requires Writes(Compile(s, pos, ctx.next, ctx.args), ctx.args)
    ensures ctx.next >= 0 && ParseArgId(s, pos + 1) == Some((AutoId, pos + 1))
    ensures Compile(s, pos, ctx.next, ctx.args) == FieldThenTail(s, pos + 1, ctx.next, ctx.next + 1, ctx.args)
  {
    CompileAuto(s, pos, ctx.next, ctx.args);
  }

  lemma IndexCompiles(s: string, pos: nat, id: int, args: nat) returns (n: nat, j: nat)
    requires pos + 1 < |s| && s[pos] == '{' && s[pos + 1] !in {'{', '}', ':'} && Writes(Compile(s, pos, id, args), args)
    ensures ParseArgId(s, pos + 1) == Some((Index(n), j)) && (id == MANUAL || id == 0)
    ensures Compile(s, pos, id, args) == FieldThenTail(s, j, n, MANUAL, args)
  {
    var (argId, end) := ParseArgId(s, pos + 1).value;
    if argId.Name? {
      TailGoesOn(s, NamedField(argId.name), end + 1, id, args);
    }
    n, j := argId.n, end;
  }

  /** The compiler accepts an id only if the parser resolves it, up to the number of arguments. */
  lemma CompiledId(s: string, pos: nat, ctx: Context) returns (id: ArgId, j: nat, arg: nat, c: Context)
    requires pos + 1 < |s| && s[pos] == '{' && s[pos + 1] != '{' && Agrees(ctx, ctx.next)
    requires Writes(Compile(s, pos, ctx.next, ctx.args), ctx.args)
    ensures ParseArgId(s, pos + 1) == Some((id, j))
    ensures Compile(s, pos, ctx.next, ctx.args) == FieldThenTail(s, j, arg, c.next, ctx.args)
    ensures Agrees(c, c.next) && c.args == ctx.args && c.next != 0 && (id.AutoId? <==> c.next != MANUAL)
    ensures arg < ctx.args ==> Resolve(ctx, id) == Some((arg, c))
  {
    if s[pos + 1] == '}' || s[pos + 1] == ':' {
      AutoIdCompiles(s, pos, ctx);
      id, j, arg, c := AutoId, pos + 1, ctx.next, ctx.(next := ctx.next + 1);
    } else {
      arg, j := IndexCompiles(s, pos, ctx.next, ctx.args);
      id, c := Index(arg), ctx.(next := MANUAL);
    }
  }

  lemma FieldGoesOn(s: string, pos: nat, ctx: Context)
    requires pos < |s| && s[pos] == '{' && Agrees(ctx, ctx.next) && GoesOn(s, pos, ctx.next, ctx.args)
    ensures ParseField(s, pos, ctx).Some?
    ensures var (_, end, c') := ParseField(s, pos, ctx).value;
            Agrees(c', c'.next) && c'.args == ctx.args && GoesOn(s, end, c'.next, c'.args)
  {
    if s[pos + 1] == '{' {
      TailGoesOn(s, TextNode("{"), pos + 2, ctx.next, ctx.args);
    } else {
      var id, j, arg, c := CompiledId(s, pos, ctx);
      AfterIdGoesOn(s, j, arg, c);
    }
  }

  lemma {:induction false} StrictText(s: string, i: nat)
    requires i <= |s| && Strict(s, i)
    ensures Strict(s, TextEnd(s, i))
    decreases |s| - i
  {
    if TextEnd(s, i) != i {
      StrictText(s, i + 1);
    }
  }

  lemma {:induction false} StrictIsAccepted(s: string, pos: nat, ctx: Context)
    requires Agrees(ctx, ctx.next) && GoesOn(s, pos, ctx.next, ctx.args)
    ensures Scan(s, pos, ctx).Accept?
    decreases |s| - pos
  {
    if pos == |s| {
    } else if s[pos] == '{' {
      FieldGoesOn(s, pos, ctx);
      var (_, end, c') := ParseField(s, pos, ctx).value;
      StrictIsAccepted(s, end, c');
    } else if s[pos] == '}' {
      TailGoesOn(s, TextNode("}"), pos + 2, ctx.next, ctx.args);
      StrictIsAccepted(s, pos + 2, ctx);
    } else {
      var end := TextEnd(s, pos + 1);
      var head := if end - pos > 1 then TextNode(s[pos..end]) else CodeUnit(s[pos]);
      TailGoesOn(s, head, end, ctx.next, ctx.args);
      StrictText(s, pos + 1);
      StrictIsAccepted(s, end, ctx);
      ScanText(s, pos, ctx);
      assert TextEnd(s, pos) == end;
    }
  }

  /** A string is accepted at run time if and only if it is strict and compiles to a tree that writes. */
  lemma AcceptedIff(s: string, args: nat)
    ensures Scan(s, 0, Context(0, args, true)).Accept? <==> Writes(CompileString(s, args), args) && Strict(s, 0)
  {
    var ctx := Context(0, args, true);
    if Scan(s, 0, ctx).Accept? {
      CompiledMeansTheSame(s, args);
      AcceptedIsStrict(s, 0, ctx);
    }
    if Writes(CompileString(s, args), args) && Strict(s, 0) {
      StrictIsAccepted(s, 0, ctx);
    }
  }

  // ---- the three ways not to be strict ----

  /** A closing brace that is followed by anything else. */
  lemma LoneBrace(c: char, args: nat)
    requires c != '}'
    ensures Writes(CompileString(['}', c], args), args) && !Strict(['}', c], 0)
  {
    CompilerSkipsAnything(c, args);
  }

  /** A string that is one field, numbered zero, with these specifiers. */
  lemma ZeroField(s: string, args: nat, p: Parsing)
    requires |s| >= 3 && s[..3] == "{0:" && args > 0
    requires ParseSpecs(s, 3, Context(0, args, false)) == Some(p) && p.at + 1 == |s|
    requires Found(p.specs.width, args) && Found(p.specs.precision, args)
    ensures Writes(CompileString(s, args), args)
    ensures Strict(s, 0) ==> Closed(s, p, true)
  {
    assert s[0] == s[..3][0] && s[1] == s[..3][1] && s[2] == s[..3][2];
    assert ParseArgId(s, 1) == Some((Index(0), 2));
    ZeroFieldWrites(s, args, p);
    ZeroFieldStrict(s, args, p);
    assert Strict(s, 0) == StrictAfterId(s, 2, true) == StrictSpecs(s, 3, true);
  }

  lemma ZeroFieldWrites(s: string, args: nat, p: Parsing)
    requires |s| >= 3 && s[0] == '{' && s[1] == '0' && s[2] == ':' && args > 0
    requires ParseSpecs(s, 3, Context(0, args, false)) == Some(p) && p.at + 1 == |s|
    requires Found(p.specs.width, args) && Found(p.specs.precision, args)
    ensures Writes(CompileString(s, args), args)
  {
    CompileIndex(s, 0, 0, args, Index(0), 2);
    LastField(s, args, p);
  }

  lemma LastField(s: string, args: nat, p: Parsing)
    requires |s| >= 3 && s[2] == ':' && args > 0
    requires ParseSpecs(s, 3, Context(0, args, false)) == Some(p) && p.at + 1 == |s|
    ensures FieldThenTail(s, 2, 0, MANUAL, args) == Tree(SpecField(0, p.specs))
  {
  }

  lemma ZeroFieldStrict(s: string, args: nat, p: Parsing)
    requires 3 <= |s| && ParseSpecs(s, 3, Context(0, args, false)) == Some(p)
    ensures StrictSpecs(s, 3, true) ==> Closed(s, p, true)
  {
    SpecsAlike(s, 3, Context(0, args, false), Reader(true));
  }

  /** Specifiers that end at any other character. */
  lemma UnclosedSpecs(c: char, args: nat)
    requires c != '}' && !IsAlign(c) && args > 0
    ensures Writes(CompileString("{0:d" + [c], args), args) && !Strict("{0:d" + [c], 0)
  {
    var s := "{0:d" + [c];
    var p := Parsing(3, NO_SPECS, Context(0, args, false));
    ShortCutAgrees(s, 3, p.ctx);
    TypeAlone(s, p, Alignment);
    ZeroField(s, args, p.(at := 4, specs := NO_SPECS.(kind := Some('d'))));
  }

  /** A width that is numbered automatically, in a numbered field. */
  lemma AutomaticWidth(args: nat)
    requires args > 0
    ensures Writes(CompileString("{0:{}}", args), args) && !Strict("{0:{}}", 0)
  {
    var s, ctx := "{0:{}}", Context(0, args, false);
    var p := Parsing(3, NO_SPECS, ctx);
    var q := Parsing(5, NO_SPECS.(width := Arg(0)), ctx.(next := 1));
    ShortCutAgrees(s, 3, ctx);
    FromStep(s, q, Type, q, Some(q));
    FromStep(s, q, Precision, q, Some(q));
    assert ParseDynamic(s, 4, ctx) == Some((0, 5, q.ctx));
    FromStep(s, p, Width, q, Some(q));
    FromStep(s, p, Flags, p, Some(q));
    FromStep(s, p, Alignment, p, Some(q));
    ZeroField(s, args, q);
  }
}
