/**
  Printing fields and text as a format string, and the proof that parsing reads
  back exactly what was printed.
 */
module FormatPrinting {
  import opened Basics
  import FormatCompiler
  import opened FormatFields
  import opened FormatStrings

  // ---- numbers ----

  function DigitChar(d: nat): (c: char)
    requires d < 10
    ensures IsDigit(c) && Digit(c) == d
  {
    '0' + d as char
  }

  function Decimal(n: nat): (ds: string)
    ensures ds != "" && forall k :: 0 <= k < |ds| ==> IsDigit(ds[k])
  {
    if n < 10 then [DigitChar(n)] else Decimal(n / 10) + [DigitChar(n % 10)]
  }

  lemma {:induction false} DecimalIs(n: nat)
    ensures Number(Decimal(n)) == n
    ensures n > 0 ==> Decimal(n)[0] != '0'
    ensures n == 0 ==> Decimal(n) == "0"
  {
    var ds := Decimal(n);
    if n < 10 {
      assert ds[..0] == "";
    } else {
      DecimalIs(n / 10);
      assert ds[..|ds| - 1] == Decimal(n / 10);
    }
  }

  lemma DecimalLength(n: nat)
    requires n <= MAX_INT
    ensures |Decimal(n)| <= 10
  {
    DecimalIs(n);
    NumberBounds(Decimal(n));
    Pow10Values();
    if |Decimal(n)| > 10 {
      PowMono(10, 10, |Decimal(n)| - 1);
    }
  }

  // ---- reading what is printed at a position ----

  /** What is left of s at position i. */
  ghost predicate Rest(s: string, i: nat, r: string)
  {
    i <= |s| && s[i..] == r
  }

  lemma RestSkips(s: string, i: nat, a: string, r: string)
    requires Rest(s, i, a + r)
    ensures Rest(s, i + |a|, r) && s[i..i + |a|] == a
    ensures a != "" ==> i < |s| && s[i] == a[0]
    ensures r != "" ==> i + |a| < |s| && s[i + |a|] == r[0]
  {
    assert s[i..][..|a|] == a;
    assert s[i..][|a|..] == r;
  }

  lemma Joined(a: string, b: string, r: string)
    ensures a + b + r == a + (b + r)
  {
  }

  lemma {:induction false} DigitsStop(s: string, i: nat, j: nat)
    requires i <= j < |s| && (forall k :: i <= k < j ==> IsDigit(s[k])) && !IsDigit(s[j])
    ensures DigitsEnd(s, i) == j
    decreases j - i
  {
    if i < j {
      DigitsStop(s, i + 1, j);
    }
  }

  lemma IntOf(s: string, i: nat, j: nat, ds: string, otherwise: int)
    requires i <= j < |s| && s[i..j] == ds && !IsDigit(s[j])
    requires (forall k :: 0 <= k < |ds| ==> IsDigit(ds[k])) && |ds| <= 10 && Number(ds) <= MAX_INT
    ensures DigitsEnd(s, i) == j && IntAt(s, i, otherwise) == Number(ds)
  {
    assert forall k :: i <= k < j ==> s[k] == ds[k - i];
    DigitsStop(s, i, j);
  }

  /** Digits with something else behind them are read as their number. */
  lemma IntFollowed(s: string, i: nat, ds: string, r: string, otherwise: int)
    requires Rest(s, i, ds + r) && ds != "" && r != "" && !IsDigit(r[0])
    requires (forall k :: 0 <= k < |ds| ==> IsDigit(ds[k])) && |ds| <= 10 && Number(ds) <= MAX_INT
    ensures DigitsEnd(s, i) == i + |ds| && IntAt(s, i, otherwise) == Number(ds)
    ensures Rest(s, i + |ds|, r) && i < |s| && s[i] == ds[0]
  {
    RestSkips(s, i, ds, r);
    IntOf(s, i, i + |ds|, ds, otherwise);
  }

  /** A printed number is read back. */
  lemma IntPrinted(s: string, i: nat, n: nat, r: string, otherwise: int, j: nat)
    requires Rest(s, i, Decimal(n) + r) && r != "" && !IsDigit(r[0]) && n <= MAX_INT && j == i + |Decimal(n)|
    ensures DigitsEnd(s, i) == j && IntAt(s, i, otherwise) == n
    ensures Rest(s, j, r) && i < |s| && s[i] == Decimal(n)[0]
  {
    DecimalIs(n);
    DecimalLength(n);
    IntFollowed(s, i, Decimal(n), r, otherwise);
  }

  lemma IndexRead(s: string, i: nat, n: nat, j: nat)
    requires i < j < |s| && IsDigit(s[i]) && (s[j] == '}' || s[j] == ':')
    requires if s[i] == '0' then n == 0 && j == i + 1 else DigitsEnd(s, i) == j && IntAt(s, i, MAX_INT) == n
    ensures ParseArgId(s, i) == Some((Index(n), j))
  {
  }

  /** A printed index before a colon or a closing brace is read back. */
  lemma IndexPrinted(s: string, i: nat, n: nat, r: string, j: nat)
    requires Rest(s, i, Decimal(n) + r) && r != "" && (r[0] == '}' || r[0] == ':') && n <= MAX_INT
    requires j == i + |Decimal(n)|
    ensures i < |s| && s[i] != '{' && s[i] != '}'
    ensures ParseArgId(s, i) == Some((Index(n), j))
    ensures Rest(s, j, r) && j < |s| && s[j] == r[0]
  {
    IntPrinted(s, i, n, r, MAX_INT, j);
    RestSkips(s, i, Decimal(n), r);
    DecimalIs(n);
    IndexRead(s, i, n, j);
  }

  // ---- specifiers ----

  function Optional(c: Option<char>): string
  {
    if c.Some? then [c.value] else ""
  }

  function Flag(b: bool, c: char): string
  {
    if b then [c] else ""
  }

  function Amounted(a: Amount): string
    requires a.Fixed? ==> a.n >= 0
  {
    match a
    case Default => ""
    case Fixed(n) => Decimal(n)
    case Arg(id) => "{" + Decimal(id) + "}"
  }

  function PrintedAlign(sp: Specs): string
  {
    if sp.align.Some? then sp.fill + [sp.align.value] else ""
  }

  function PrintedPrecision(a: Amount): string
    requires a.Fixed? ==> a.n >= 0
  {
    if a.Default? then "" else "." + Amounted(a)
  }

  function PrintedFlags(sp: Specs): string
  {
    Optional(sp.sign) + (Flag(sp.hash, '#') + Flag(sp.zero, '0'))
  }

  function PrintedType(sp: Specs): string
  {
    Flag(sp.localized, 'L') + Optional(sp.kind)
  }

  predicate PrintableAmount(a: Amount, args: nat)
  {
    match a
    case Default => true
    case Fixed(n) => 0 <= n <= MAX_INT
    case Arg(id) => id < args && id <= MAX_INT
  }

  /** Specifiers that have a printed form of their own. */
  predicate Printable(sp: Specs, args: nat)
  {
    && sp.fill != "" && |sp.fill| == CodePointLength(sp.fill[0]) && sp.fill[0] != '{'
    && (if sp.align.Some? then IsAlign(sp.align.value) else sp.fill == " ")
    && (sp.sign.Some? ==> sp.sign.value == '+' || sp.sign.value == '-' || sp.sign.value == ' ')
    && PrintableAmount(sp.width, args) && sp.width != Fixed(0)
    && PrintableAmount(sp.precision, args)
    && (sp.kind.Some? ==> IsLetter(sp.kind.value) && sp.kind.value != 'L')
  }

  function PrintedStage(sp: Specs, args: nat, stage: Stage): string
    requires Printable(sp, args)
  {
    match stage
    case Alignment => PrintedAlign(sp)
    case Flags => PrintedFlags(sp)
    case Width => Amounted(sp.width)
    case Precision => PrintedPrecision(sp.precision)
    case Type => PrintedType(sp)
    case Done => ""
  }

  /** The specifiers from a stage on, and the rest of the string. */
  function PrintedFrom(sp: Specs, args: nat, stage: Stage, rest: string): string
    requires Printable(sp, args)
    decreases StagesLeft(stage), |rest|
  {
    if stage == Done then rest
    else PrintedStage(sp, args, stage) + PrintedFrom(sp, args, Later(stage), rest)
  }

  // ---- one stage after the other ----

  /** The rest of a string is not mistaken for more of what a stage reads. */
  predicate Ends(r: string, stage: Stage)
  {
    r != "" && match stage
      case Alignment => |r| > 1 && (r[0] as int) < 0x80 && !IsAlign(r[0]) && !IsAlign(r[1])
      case Flags => r[0] !in {'+', '-', ' ', '#', '0'}
      case Width => !IsDigit(r[0]) && r[0] != '{'
      case Precision => r[0] != '.' && !IsDigit(r[0]) && r[0] != '{'
      case Type => r[0] == '}'
      case Done => true
  }

  /** The specifiers of the stages before this one. */
  function Upto(sp: Specs, stage: Stage): Specs
  {
    match stage
    case Alignment => NO_SPECS
    case Flags => NO_SPECS.(fill := sp.fill, align := sp.align)
    case Width => NO_SPECS.(fill := sp.fill, align := sp.align, sign := sp.sign, hash := sp.hash, zero := sp.zero)
    case Precision => sp.(precision := Default, localized := false, kind := None)
    case Type => sp.(localized := false, kind := None)
    case Done => sp
  }

  /** Manual indexing, in which printed specifiers change nothing. */
  predicate Manual(ctx: Context)
  {
    ctx.next == -1
  }

  lemma AlignPrinted(s: string, i: nat, sp: Specs, ctx: Context, r: string, end: nat)
    requires Printable(sp, ctx.args) && Rest(s, i, PrintedAlign(sp) + r) && end == i + |PrintedAlign(sp)|
    requires sp.align.None? ==> Ends(r, Alignment)
    ensures ParseAlign(s, Parsing(i, NO_SPECS, ctx)) == Some(Parsing(end, Upto(sp, Flags), ctx))
  {
    RestSkips(s, i, PrintedAlign(sp), r);
    if sp.align.Some? {
      Joined(sp.fill, [sp.align.value], r);
      RestSkips(s, i, sp.fill, [sp.align.value] + r);
      FillIsRead(s, Parsing(i, NO_SPECS, ctx), sp.fill, sp.align.value);
    } else {
      assert s[i] == r[0] && s[i + 1] == s[i..][1] == r[1];
      assert sp.fill == NO_SPECS.fill;
    }
  }

  lemma SignPrinted(s: string, p: Parsing, sign: Option<char>, r: string, end: nat)
    requires Rest(s, p.at, Optional(sign) + r) && r != "" && r[0] !in {'+', '-', ' '} && p.specs.sign.None?
    requires (sign.Some? ==> sign.value in {'+', '-', ' '}) && end == p.at + |Optional(sign)|
    ensures ParseSign(s, p) == p.(at := end, specs := p.specs.(sign := sign))
  {
    RestSkips(s, p.at, Optional(sign), r);
  }

  lemma HashPrinted(s: string, p: Parsing, hash: bool, r: string, end: nat)
    requires Rest(s, p.at, Flag(hash, '#') + r) && r != "" && r[0] != '#' && !p.specs.hash && end == p.at + |Flag(hash, '#')|
    ensures ParseHash(s, p) == p.(at := end, specs := p.specs.(hash := hash))
  {
    RestSkips(s, p.at, Flag(hash, '#'), r);
  }

  lemma ZeroPrinted(s: string, p: Parsing, zero: bool, r: string, end: nat)
    requires Rest(s, p.at, Flag(zero, '0') + r) && r != "" && r[0] != '0' && !p.specs.zero && end == p.at + |Flag(zero, '0')|
    ensures ParseZero(s, p) == p.(at := end, specs := p.specs.(zero := zero))
  {
    RestSkips(s, p.at, Flag(zero, '0'), r);
  }

  lemma RestOfThree(s: string, i: nat, a: string, b: string, c: string, r: string)
    requires Rest(s, i, a + (b + c) + r)
    ensures Rest(s, i, a + (b + (c + r))) && Rest(s, i + |a|, b + (c + r)) && Rest(s, i + |a| + |b|, c + r)
  {
    Joined(a, b + c, r);
    Joined(b, c, r);
    RestSkips(s, i, a, b + (c + r));
    RestSkips(s, i + |a|, b, c + r);
  }

  lemma FlagsPrinted(s: string, p: Parsing, sp: Specs, r: string, end: nat)
    requires Printable(sp, p.ctx.args) && Rest(s, p.at, PrintedFlags(sp) + r) && Ends(r, Flags)
    requires p.specs.sign.None? && !p.specs.hash && !p.specs.zero && end == p.at + |PrintedFlags(sp)|
    ensures ParseFlags(s, p) == p.(at := end, specs := p.specs.(sign := sp.sign, hash := sp.hash, zero := sp.zero))
  {
    var a, b, c := Optional(sp.sign), Flag(sp.hash, '#'), Flag(sp.zero, '0');
    var i, j: nat := p.at + |a|, end - |c|;
    RestOfThree(s, p.at, a, b, c, r);
    SignPrinted(s, p, sp.sign, b + (c + r), i);
    HashPrinted(s, ParseSign(s, p), sp.hash, c + r, j);
    ZeroPrinted(s, ParseHash(s, ParseSign(s, p)), sp.zero, r, end);
  }

  /** An argument in braces. */
  lemma DynamicPrinted(s: string, i: nat, id: nat, ctx: Context, r: string, end: nat)
    requires Manual(ctx) && id < ctx.args && id <= MAX_INT && Rest(s, i, "{" + Decimal(id) + "}" + r)
    requires end == i + |Decimal(id)| + 2
    ensures i < |s| && s[i] == '{' && ParseDynamic(s, i + 1, ctx) == Some((id, end, ctx))
  {
    Joined("{" + Decimal(id), "}", r);
    Joined("{", Decimal(id), "}" + r);
    RestSkips(s, i, "{", Decimal(id) + ("}" + r));
    IndexPrinted(s, i + 1, id, "}" + r, end - 1);
  }

  lemma FixedWidthPrinted(s: string, p: Parsing, n: nat, r: string, end: nat)
    requires n <= MAX_INT && Rest(s, p.at, Decimal(n) + r) && Ends(r, Width) && end == p.at + |Decimal(n)|
    ensures ParseWidth(s, p) == Some(p.(at := end, specs := p.specs.(width := Fixed(n))))
  {
    IntPrinted(s, p.at, n, r, -1, end);
  }

  lemma DynamicWidthPrinted(s: string, p: Parsing, id: nat, r: string, end: nat)
    requires Manual(p.ctx) && id < p.ctx.args && id <= MAX_INT && Rest(s, p.at, "{" + Decimal(id) + "}" + r)
    requires end == p.at + |Decimal(id)| + 2
    ensures ParseWidth(s, p) == Some(p.(at := end, specs := p.specs.(width := Arg(id))))
  {
    DynamicPrinted(s, p.at, id, p.ctx, r, end);
  }

  lemma WidthPrinted(s: string, p: Parsing, width: Amount, r: string, end: nat)
    requires Manual(p.ctx) && p.specs.width == Default && PrintableAmount(width, p.ctx.args)
    requires Rest(s, p.at, Amounted(width) + r) && Ends(r, Width) && end == p.at + |Amounted(width)|
    ensures ParseWidth(s, p) == Some(p.(at := end, specs := p.specs.(width := width)))
  {
    match width
    case Default => RestSkips(s, p.at, "", r);
    case Fixed(n) => FixedWidthPrinted(s, p, n, r, end);
    case Arg(id) => DynamicWidthPrinted(s, p, id, r, end);
  }

  lemma FixedPrecisionPrinted(s: string, p: Parsing, n: nat, r: string, end: nat)
    requires n <= MAX_INT && Rest(s, p.at, "." + (Decimal(n) + r)) && Ends(r, Precision) && end == p.at + 1 + |Decimal(n)|
    ensures ParsePrecision(s, p) == Some(p.(at := end, specs := p.specs.(precision := Fixed(n))))
  {
    RestSkips(s, p.at, ".", Decimal(n) + r);
    IntPrinted(s, p.at + 1, n, r, -1, end);
  }

  lemma DynamicPrecisionPrinted(s: string, p: Parsing, id: nat, r: string, end: nat)
    requires Manual(p.ctx) && id < p.ctx.args && id <= MAX_INT && Rest(s, p.at, "." + ("{" + Decimal(id) + "}" + r))
    requires end == p.at + |Decimal(id)| + 3
    ensures ParsePrecision(s, p) == Some(p.(at := end, specs := p.specs.(precision := Arg(id))))
  {
    RestSkips(s, p.at, ".", "{" + Decimal(id) + "}" + r);
    DynamicPrinted(s, p.at + 1, id, p.ctx, r, end);
  }

  lemma PrecisionPrinted(s: string, p: Parsing, precision: Amount, r: string, end: nat)
    requires Manual(p.ctx) && p.specs.precision == Default && PrintableAmount(precision, p.ctx.args)
    requires Rest(s, p.at, PrintedPrecision(precision) + r) && Ends(r, Precision)
    requires end == p.at + |PrintedPrecision(precision)|
    ensures ParsePrecision(s, p) == Some(p.(at := end, specs := p.specs.(precision := precision)))
  {
    Joined(".", Amounted(precision), r);
    match precision
    case Default => RestSkips(s, p.at, "", r);
    case Fixed(n) => FixedPrecisionPrinted(s, p, n, r, end);
    case Arg(id) => DynamicPrecisionPrinted(s, p, id, r, end);
  }

  lemma LocalizedPrinted(s: string, p: Parsing, localized: bool, r: string, end: nat)
    requires Rest(s, p.at, Flag(localized, 'L') + r) && r != "" && r[0] != 'L' && !p.specs.localized
    requires end == p.at + |Flag(localized, 'L')|
    ensures ParseLocalized(s, p) == p.(at := end, specs := p.specs.(localized := localized))
  {
    RestSkips(s, p.at, Flag(localized, 'L'), r);
  }

  lemma KindPrinted(s: string, p: Parsing, kind: Option<char>, r: string, end: nat)
    requires Rest(s, p.at, Optional(kind) + r) && r != "" && r[0] == '}' && p.specs.kind.None?
    requires (kind.Some? ==> kind.value != '}') && end == p.at + |Optional(kind)|
    ensures ParseType(s, p) == p.(at := end, specs := p.specs.(kind := kind))
  {
    RestSkips(s, p.at, Optional(kind), r);
  }

  lemma TypePrinted(s: string, p: Parsing, sp: Specs, r: string, end: nat)
    requires Printable(sp, p.ctx.args) && Rest(s, p.at, PrintedType(sp) + r) && Ends(r, Type)
    requires !p.specs.localized && p.specs.kind.None? && end == p.at + |PrintedType(sp)|
    ensures ParseType(s, ParseLocalized(s, p)) == p.(at := end, specs := p.specs.(localized := sp.localized, kind := sp.kind))
  {
    var a, b := Flag(sp.localized, 'L'), Optional(sp.kind);
    Joined(a, b, r);
    RestSkips(s, p.at, a, b + r);
    LocalizedPrinted(s, p, sp.localized, b + r, p.at + |a|);
    KindPrinted(s, ParseLocalized(s, p), sp.kind, r, end);
  }

  /** Every stage reads exactly what was printed for it. */
  lemma StagePrinted(s: string, i: nat, sp: Specs, ctx: Context, stage: Stage, r: string, end: nat)
    requires Printable(sp, ctx.args) && Manual(ctx) && Rest(s, i, PrintedStage(sp, ctx.args, stage) + r)
    requires (stage == Alignment && sp.align.Some?) || Ends(r, stage)
    requires end == i + |PrintedStage(sp, ctx.args, stage)|
    ensures ParseStage(s, Parsing(i, Upto(sp, stage), ctx), stage) == Some(Parsing(end, Upto(sp, Later(stage)), ctx))
  {
    var p := Parsing(i, Upto(sp, stage), ctx);
    match stage
    case Alignment => AlignPrinted(s, i, sp, ctx, r, end);
    case Flags => FlagsPrinted(s, p, sp, r, end);
    case Width => WidthPrinted(s, p, sp.width, r, end);
    case Precision => PrecisionPrinted(s, p, sp.precision, r, end);
    case Type => TypePrinted(s, p, sp, r, end);
    case Done =>
  }

  // ---- what follows a stage is not mistaken for it ----

  lemma FirstOfType(sp: Specs, args: nat, rest: string)
    requires Printable(sp, args) && rest != "" && rest[0] == '}'
    ensures var r := PrintedFrom(sp, args, Type, rest); r != "" && (r[0] == '}' || IsLetter(r[0]))
  {
    assert PrintedFrom(sp, args, Done, rest) == rest;
  }

  lemma FirstOfPrecision(sp: Specs, args: nat, rest: string)
    requires Printable(sp, args) && rest != "" && rest[0] == '}'
    ensures var r := PrintedFrom(sp, args, Precision, rest); r != "" && (r[0] in {'}', '.'} || IsLetter(r[0]))
  {
    FirstOfType(sp, args, rest);
    var t := PrintedFrom(sp, args, Type, rest);
    assert PrintedFrom(sp, args, Precision, rest) == PrintedPrecision(sp.precision) + t;
  }

  lemma FirstOfWidth(sp: Specs, args: nat, rest: string)
    requires Printable(sp, args) && rest != "" && rest[0] == '}'
    ensures Ends(PrintedFrom(sp, args, Width, rest), Flags)
  {
    FirstOfPrecision(sp, args, rest);
    var t := PrintedFrom(sp, args, Precision, rest);
    assert PrintedFrom(sp, args, Width, rest) == Amounted(sp.width) + t;
    if sp.width.Fixed? {
      DecimalIs(sp.width.n);
    }
  }

  predicate Plain(c: char)
  {
    (c as int) < 0x80 && !IsAlign(c)
  }

  predicate PlainUpTo(r: string, n: nat)
  {
    n <= |r| && forall k :: 0 <= k < n ==> Plain(r[k])
  }

  lemma PlainJoin(a: string, r: string, n: nat, m: nat)
    requires PlainUpTo(a, |a|) && PlainUpTo(r, n) && m == |a| + n
    ensures PlainUpTo(a + r, m)
  {
  }

  predicate AllPlain(r: string)
  {
    PlainUpTo(r, |r|)
  }

  lemma PlainAmount(a: Amount)
    requires a.Fixed? ==> a.n >= 0
    ensures AllPlain(Amounted(a)) && AllPlain(PrintedPrecision(a))
  {
    if a.Arg? {
      PlainJoin("{", Decimal(a.id), |Decimal(a.id)|, |"{" + Decimal(a.id)|);
      PlainJoin("{" + Decimal(a.id), "}", 1, |Amounted(a)|);
    }
    PlainJoin(".", Amounted(a), |Amounted(a)|, |"." + Amounted(a)|);
  }

  lemma PlainFlags(sp: Specs, args: nat)
    requires Printable(sp, args)
    ensures AllPlain(PrintedFlags(sp)) && AllPlain(PrintedType(sp))
  {
    var a, b, c := Optional(sp.sign), Flag(sp.hash, '#'), Flag(sp.zero, '0');
    PlainJoin(b, c, |c|, |b + c|);
    PlainJoin(a, b + c, |b + c|, |PrintedFlags(sp)|);
    PlainJoin(Flag(sp.localized, 'L'), Optional(sp.kind), |Optional(sp.kind)|, |PrintedType(sp)|);
  }

  lemma PlainStage(sp: Specs, args: nat, stage: Stage)
    requires Printable(sp, args) && stage != Alignment
    ensures AllPlain(PrintedStage(sp, args, stage))
  {
    PlainFlags(sp, args);
    PlainAmount(sp.width);
    PlainAmount(sp.precision);
  }

  /** Behind the alignment only plain characters are printed. */
  lemma {:induction false} PlainFrom(sp: Specs, args: nat, stage: Stage, rest: string, n: nat)
    requires Printable(sp, args) && stage != Alignment && n + |rest| == |PrintedFrom(sp, args, stage, rest)|
    ensures PlainUpTo(PrintedFrom(sp, args, stage, rest), n)
    decreases StagesLeft(stage)
  {
    if stage != Done {
      var a, r := PrintedStage(sp, args, stage), PrintedFrom(sp, args, Later(stage), rest);
      FromEndsWith(sp, args, Later(stage), rest);
      PlainFrom(sp, args, Later(stage), rest, |r| - |rest|);
      PlainStage(sp, args, stage);
      PlainJoin(a, r, |r| - |rest|, n);
    }
  }

  lemma StageLength(sp: Specs, args: nat, stage: Stage, rest: string)
    requires Printable(sp, args) && stage != Done
    ensures |PrintedFrom(sp, args, stage, rest)| ==
            |PrintedStage(sp, args, stage)| + |PrintedFrom(sp, args, Later(stage), rest)|
  {
  }

  /** Only the default specifiers print as nothing. */
  lemma SomethingToPrint(sp: Specs, args: nat)
    requires Printable(sp, args) && sp.align.None? && sp != NO_SPECS
    ensures |PrintedFlags(sp)| + |Amounted(sp.width)| + |PrintedPrecision(sp.precision)| + |PrintedType(sp)| > 0
  {
    assert sp == NO_SPECS.(sign := sp.sign, hash := sp.hash, zero := sp.zero, width := sp.width,
                           precision := sp.precision, localized := sp.localized, kind := sp.kind);
  }

  lemma SomethingPrinted(sp: Specs, args: nat, rest: string)
    requires Printable(sp, args) && sp.align.None? && sp != NO_SPECS
    ensures |PrintedFrom(sp, args, Flags, rest)| > |rest|
  {
    SomethingToPrint(sp, args);
    StageLength(sp, args, Flags, rest);
    StageLength(sp, args, Width, rest);
    StageLength(sp, args, Precision, rest);
    StageLength(sp, args, Type, rest);
  }

  lemma UnalignedEnds(sp: Specs, args: nat, rest: string)
    requires Printable(sp, args) && rest != "" && rest[0] == '}' && sp.align.None? && sp != NO_SPECS
    ensures Ends(PrintedFrom(sp, args, Flags, rest), Alignment)
  {
    var r := PrintedFrom(sp, args, Flags, rest);
    SomethingPrinted(sp, args, rest);
    PlainFrom(sp, args, Flags, rest, |r| - |rest|);
    FromEndsWith(sp, args, Flags, rest);
    assert |r| - |rest| == 1 ==> r[1] == r[1..][0] == rest[0];
  }

  lemma StageEnds(sp: Specs, args: nat, stage: Stage, rest: string)
    requires Printable(sp, args) && rest != "" && rest[0] == '}' && stage != Done
    requires stage == Alignment ==> sp.align.None? && sp != NO_SPECS
    ensures Ends(PrintedFrom(sp, args, Later(stage), rest), stage)
  {
    match stage
    case Alignment => UnalignedEnds(sp, args, rest);
    case Flags => FirstOfWidth(sp, args, rest);
    case Width => FirstOfPrecision(sp, args, rest);
    case Precision => FirstOfType(sp, args, rest);
    case Type => assert PrintedFrom(sp, args, Done, rest) == rest;
  }

  // ---- specifiers, fields, strings ----

  /** One stage of printed specifiers, up to the next one. */
  lemma OneStage(s: string, i: nat, sp: Specs, ctx: Context, stage: Stage, rest: string, j: nat)
    requires Printable(sp, ctx.args) && Manual(ctx) && rest != "" && rest[0] == '}'
    requires Rest(s, i, PrintedFrom(sp, ctx.args, stage, rest)) && stage != Done
    requires stage == Alignment ==> sp != NO_SPECS
    requires j == i + |PrintedStage(sp, ctx.args, stage)|
    ensures ParseStage(s, Parsing(i, Upto(sp, stage), ctx), stage) == Some(Parsing(j, Upto(sp, Later(stage)), ctx))
    ensures Rest(s, j, PrintedFrom(sp, ctx.args, Later(stage), rest))
  {
    var r := PrintedFrom(sp, ctx.args, Later(stage), rest);
    if !(stage == Alignment && sp.align.Some?) {
      StageEnds(sp, ctx.args, stage, rest);
    }
    assert Rest(s, i, PrintedStage(sp, ctx.args, stage) + r);
    RestSkips(s, i, PrintedStage(sp, ctx.args, stage), r);
    StagePrinted(s, i, sp, ctx, stage, r, j);
  }

  lemma {:induction false} FromPrinted(s: string, i: nat, sp: Specs, ctx: Context, stage: Stage, rest: string, end: nat)
    requires Printable(sp, ctx.args) && Manual(ctx) && rest != "" && rest[0] == '}' && end + |rest| == |s|
    requires Rest(s, i, PrintedFrom(sp, ctx.args, stage, rest))
    requires stage == Alignment ==> sp != NO_SPECS
    ensures ParseFrom(s, Parsing(i, Upto(sp, stage), ctx), stage) == Some(Parsing(end, sp, ctx))
    decreases StagesLeft(stage)
  {
    if stage != Done {
      var j := i + |PrintedStage(sp, ctx.args, stage)|;
      OneStage(s, i, sp, ctx, stage, rest, j);
      FromPrinted(s, j, sp, ctx, Later(stage), rest, end);
      FromStep(s, Parsing(i, Upto(sp, stage), ctx), stage, Parsing(j, Upto(sp, Later(stage)), ctx),
               Some(Parsing(end, sp, ctx)));
    }
  }

  /** Printed specifiers are read back, whatever follows the closing brace. */
  lemma SpecsPrinted(s: string, i: nat, sp: Specs, ctx: Context, rest: string, end: nat)
    requires Printable(sp, ctx.args) && Manual(ctx) && rest != "" && rest[0] == '}' && sp != NO_SPECS
    requires Rest(s, i, PrintedFrom(sp, ctx.args, Alignment, rest)) && end + |rest| == |s|
    ensures ParseSpecs(s, i, ctx) == Some(Parsing(end, sp, ctx))
  {
    ShortCutAgrees(s, i, ctx);
    FromPrinted(s, i, sp, ctx, Alignment, rest, end);
  }

  /** A string that ends with the given one. */
  ghost predicate EndsWith(r: string, rest: string)
  {
    |r| >= |rest| && r[|r| - |rest|..] == rest
  }

  lemma EndsWithJoin(a: string, r: string, rest: string)
    requires EndsWith(r, rest)
    ensures EndsWith(a + r, rest)
  {
    assert (a + r)[|a| + |r| - |rest|..] == r[|r| - |rest|..];
  }

  lemma EndsWithRest(s: string, i: nat, r: string, rest: string)
    requires Rest(s, i, r) && EndsWith(r, rest)
    ensures |s| >= |rest| && Rest(s, |s| - |rest|, rest)
  {
    assert s[|s| - |rest|..] == s[i..][|r| - |rest|..];
  }

  lemma {:induction false} FromEndsWith(sp: Specs, args: nat, stage: Stage, rest: string)
    requires Printable(sp, args)
    ensures EndsWith(PrintedFrom(sp, args, stage, rest), rest)
    decreases StagesLeft(stage)
  {
    if stage != Done {
      FromEndsWith(sp, args, Later(stage), rest);
      EndsWithJoin(PrintedStage(sp, args, stage), PrintedFrom(sp, args, Later(stage), rest), rest);
    }
  }

  /** What is printed behind the index of a field. */
  function PrintedAfterId(sp: Specs, args: nat, rest: string): string
    requires Printable(sp, args)
  {
    if sp == NO_SPECS then "}" + rest else ":" + PrintedFrom(sp, args, Alignment, "}" + rest)
  }

  /** A field with an explicit index, then the rest of the string. */
  function PrintedField(arg: nat, sp: Specs, args: nat, rest: string): string
    requires Printable(sp, args)
  {
    "{" + (Decimal(arg) + PrintedAfterId(sp, args, rest))
  }

  lemma AfterIdEndsWith(sp: Specs, args: nat, rest: string)
    requires Printable(sp, args)
    ensures EndsWith(PrintedAfterId(sp, args, rest), "}" + rest)
    ensures PrintedAfterId(sp, args, rest) != "" && PrintedAfterId(sp, args, rest)[0] == if sp == NO_SPECS then '}' else ':'
  {
    if sp != NO_SPECS {
      FromEndsWith(sp, args, Alignment, "}" + rest);
      EndsWithJoin(":", PrintedFrom(sp, args, Alignment, "}" + rest), "}" + rest);
    }
  }

  /** A context in which explicit indices may be used. */
  predicate MayIndex(ctx: Context)
  {
    ctx.eager && -1 <= ctx.next <= 0
  }

  /** A field parsed from its specifiers on. */
  lemma SpecsClosed(s: string, i: nat, arg: nat, c: Context, r: Option<Parsing>)
    requires i <= |s| && r == ParseSpecs(s, i, c) && r.Some? && r.value.at < |s| && s[r.value.at] == '}'
    ensures ParseFieldSpecs(s, i, arg, c) == Some((Field(arg, r.value.specs), r.value.at + 1, r.value.ctx))
  {
  }

  lemma BehindColon(s: string, j: nat, arg: nat, c: Context, f: Option<(Atom, nat, Context)>)
    requires j < |s| && s[j] == ':' && ParseFieldSpecs(s, j + 1, arg, c) == f
    ensures ParseAfterId(s, j, arg, c) == f
  {
  }

  lemma AfterIdRest(s: string, j: nat, sp: Specs, args: nat, rest: string, end: nat)
    requires Printable(sp, args) && Rest(s, j, PrintedAfterId(sp, args, rest)) && end + |rest| == |s|
    ensures 0 < end && s[end - 1] == '}' && Rest(s, end, rest)
    ensures j < |s| && s[j] == if sp == NO_SPECS then '}' else ':'
    ensures sp == NO_SPECS ==> j == end - 1
    ensures sp != NO_SPECS ==> Rest(s, j + 1, PrintedFrom(sp, args, Alignment, "}" + rest))
  {
    AfterIdEndsWith(sp, args, rest);
    EndsWithRest(s, j, PrintedAfterId(sp, args, rest), "}" + rest);
    RestSkips(s, end - 1, "}", rest);
    if sp != NO_SPECS {
      RestSkips(s, j, ":", PrintedFrom(sp, args, Alignment, "}" + rest));
    }
  }

  lemma AfterIdPrinted(s: string, j: nat, arg: nat, sp: Specs, c: Context, rest: string, end: nat)
    requires Printable(sp, c.args) && Manual(c) && Rest(s, j, PrintedAfterId(sp, c.args, rest)) && end + |rest| == |s|
    ensures ParseAfterId(s, j, arg, c) == Some((Field(arg, sp), end, c))
  {
    AfterIdRest(s, j, sp, c.args, rest, end);
    if sp == NO_SPECS {
      BareClosed(s, j, arg, c, end);
    } else {
      FieldSpecsPrinted(s, j + 1, arg, sp, c, "}" + rest, end);
      BehindColon(s, j, arg, c, Some((Field(arg, sp), end, c)));
    }
  }

  lemma FieldSpecsPrinted(s: string, i: nat, arg: nat, sp: Specs, c: Context, tail: string, end: nat)
    requires Printable(sp, c.args) && Manual(c) && sp != NO_SPECS && Rest(s, i, PrintedFrom(sp, c.args, Alignment, tail))
    requires tail != "" && tail[0] == '}' && 0 < end && end - 1 + |tail| == |s| && s[end - 1] == '}'
    ensures ParseFieldSpecs(s, i, arg, c) == Some((Field(arg, sp), end, c))
  {
    SpecsPrinted(s, i, sp, c, tail, end - 1);
    SpecsClosed(s, i, arg, c, Some(Parsing(end - 1, sp, c)));
  }

  lemma BareClosed(s: string, j: nat, arg: nat, c: Context, end: nat)
    requires j < |s| && s[j] == '}' && end == j + 1
    ensures ParseAfterId(s, j, arg, c) == Some((Field(arg, NO_SPECS), end, c))
  {
  }

  lemma IdPrinted(s: string, i: nat, arg: nat, tail: string, j: nat)
    requires j == i + 1 + |Decimal(arg)| && Rest(s, i, "{" + (Decimal(arg) + tail)) && arg <= MAX_INT
    requires tail != "" && (tail[0] == '}' || tail[0] == ':')
    ensures i + 1 < |s| && s[i] == '{' && s[i + 1] != '{' && s[i + 1] != '}'
    ensures ParseArgId(s, i + 1) == Some((Index(arg), j)) && Rest(s, j, tail)
  {
    RestSkips(s, i, "{", Decimal(arg) + tail);
    IndexPrinted(s, i + 1, arg, tail, j);
  }

  lemma FieldPrinted(s: string, i: nat, arg: nat, sp: Specs, ctx: Context, rest: string, end: nat, c: Context)
    requires Printable(sp, ctx.args) && MayIndex(ctx) && arg < ctx.args && arg <= MAX_INT
    requires Rest(s, i, PrintedField(arg, sp, ctx.args, rest)) && end + |rest| == |s| && c == ctx.(next := -1)
    ensures i < |s| && s[i] == '{' && Rest(s, end, rest)
    ensures ParseField(s, i, ctx) == Some((Field(arg, sp), end, c))
  {
    var j := i + 1 + |Decimal(arg)|;
    AfterIdEndsWith(sp, ctx.args, rest);
    IdPrinted(s, i, arg, PrintedAfterId(sp, ctx.args, rest), j);
    AfterIdPrinted(s, j, arg, sp, c, rest, end);
    AfterIdRest(s, j, sp, c.args, rest, end);
    FieldRead(s, i, arg, j, ctx, c, Some((Field(arg, sp), end, c)));
  }

  lemma FieldRead(s: string, i: nat, arg: nat, j: nat, ctx: Context, c: Context, f: Option<(Atom, nat, Context)>)
    requires i + 1 < |s| && s[i] == '{' && s[i + 1] != '{' && s[i + 1] != '}'
    requires ParseArgId(s, i + 1) == Some((Index(arg), j)) && MayIndex(ctx) && arg < ctx.args
    requires c == ctx.(next := -1) && ParseAfterId(s, j, arg, c) == f
    ensures ParseField(s, i, ctx) == f
  {
  }

  predicate PrintableAtom(a: Atom, args: nat)
  {
    a.Field? ==> a.arg < args && a.arg <= MAX_INT && Printable(a.specs, args)
  }

  function Escaped(c: char): string
  {
    if c == '{' || c == '}' then [c, c] else [c]
  }

  function PrintedAtom(a: Atom, args: nat, rest: string): string
    requires PrintableAtom(a, args)
  {
    match a
    case Char(c) => Escaped(c) + rest
    case Field(arg, sp) => PrintedField(arg, sp, args, rest)
  }

  /** A format string for these atoms. */
  function Print(atoms: seq<Atom>, args: nat): string
    requires forall k :: 0 <= k < |atoms| ==> PrintableAtom(atoms[k], args)
  {
    if atoms == [] then ""
    else
      var rest := Print(atoms[1..], args);
      assert PrintableAtom(atoms[0], args);
      PrintedAtom(atoms[0], args, rest)
  }

  lemma {:induction false} ScanPrinted(s: string, i: nat, atoms: seq<Atom>, ctx: Context)
    requires (forall k :: 0 <= k < |atoms| ==> PrintableAtom(atoms[k], ctx.args)) && MayIndex(ctx)
    requires Rest(s, i, Print(atoms, ctx.args))
    ensures Scan(s, i, ctx) == Accept(atoms)
    decreases |atoms|
  {
    if atoms != [] {
      var rest := Print(atoms[1..], ctx.args);
      assert atoms == [atoms[0]] + atoms[1..];
      assert PrintableAtom(atoms[0], ctx.args);
      var end, c := AtomHead(s, i, atoms[0], ctx, rest);
      ScanPrinted(s, end, atoms[1..], c);
      AtomRead(s, i, ctx, atoms[0], end, c, atoms[1..], atoms);
    }
  }

  /** The text from i on starts with an atom, and goes on at end in another context. */
  predicate StartsWith(s: string, i: nat, ctx: Context, atom: Atom, end: nat, c: Context)
  {
    if atom.Char? then end == i + |Escaped(atom.c)| <= |s| && s[i..end] == Escaped(atom.c) && c == ctx
    else i < |s| && s[i] == '{' && ParseField(s, i, ctx) == Some((atom, end, c))
  }

  lemma AtomHead(s: string, i: nat, atom: Atom, ctx: Context, rest: string) returns (end: nat, c: Context)
    requires PrintableAtom(atom, ctx.args) && MayIndex(ctx) && Rest(s, i, PrintedAtom(atom, ctx.args, rest))
    ensures StartsWith(s, i, ctx, atom, end, c) && Rest(s, end, rest) && MayIndex(c) && c.args == ctx.args
  {
    if atom.Char? {
      c := ctx;
      end := CharHead(s, i, atom.c, rest);
    } else {
      end, c := FieldHead(s, i, atom, ctx, rest);
    }
  }

  lemma AtomRead(s: string, i: nat, ctx: Context, atom: Atom, end: nat, c: Context, rest: seq<Atom>, atoms: seq<Atom>)
    requires StartsWith(s, i, ctx, atom, end, c) && end <= |s| && Scan(s, end, c) == Accept(rest)
    requires atoms == [atom] + rest
    ensures i <= |s| && Scan(s, i, ctx) == Accept(atoms)
  {
    if atom.Char? {
      CharRead(s, i, atom.c, ctx, end, rest, atoms);
    } else {
      ScanField(s, i, ctx, atom, end, c, rest, atoms);
    }
  }

  lemma CharHead(s: string, i: nat, c: char, rest: string) returns (end: nat)
    requires Rest(s, i, Escaped(c) + rest)
    ensures end == i + |Escaped(c)| <= |s| && s[i..end] == Escaped(c) && Rest(s, end, rest)
  {
    end := i + |Escaped(c)|;
    RestSkips(s, i, Escaped(c), rest);
  }

  lemma FieldHead(s: string, i: nat, atom: Atom, ctx: Context, rest: string) returns (end: nat, c: Context)
    requires atom.Field? && PrintableAtom(atom, ctx.args) && MayIndex(ctx)
    requires Rest(s, i, PrintedField(atom.arg, atom.specs, ctx.args, rest))
    ensures i < |s| && s[i] == '{' && ParseField(s, i, ctx) == Some((atom, end, c))
    ensures Rest(s, end, rest) && MayIndex(c) && c.args == ctx.args
  {
    PrintedFieldLength(s, i, atom.arg, atom.specs, ctx.args, rest);
    end, c := |s| - |rest|, ctx.(next := -1);
    FieldPrinted(s, i, atom.arg, atom.specs, ctx, rest, end, c);
  }

  lemma PrintedFieldLength(s: string, i: nat, arg: nat, sp: Specs, args: nat, rest: string)
    requires Printable(sp, args) && Rest(s, i, PrintedField(arg, sp, args, rest))
    ensures |s| >= |rest|
  {
    AfterIdEndsWith(sp, args, rest);
  }

  lemma CharRead(s: string, i: nat, c: char, ctx: Context, end: nat, rest: seq<Atom>, atoms: seq<Atom>)
    requires end == i + |Escaped(c)| <= |s| && s[i..end] == Escaped(c)
    requires Scan(s, end, ctx) == Accept(rest) && atoms == [Char(c)] + rest
    ensures Scan(s, i, ctx) == Accept(atoms)
  {
    assert s[i] == s[i..end][0];
    if c == '{' || c == '}' {
      assert s[i + 1] == s[i..i + 2][1];
    }
  }

  lemma ScanField(s: string, i: nat, ctx: Context, atom: Atom, end: nat, c: Context, rest: seq<Atom>, atoms: seq<Atom>)
    requires i < |s| && s[i] == '{' && ParseField(s, i, ctx) == Some((atom, end, c)) && Scan(s, end, c) == Accept(rest)
    requires atoms == [atom] + rest
    ensures Scan(s, i, ctx) == Accept(atoms)
  {
  }

  /** Parsing a printed format string gives back exactly the atoms that were printed. */
  lemma RoundTrip(atoms: seq<Atom>, args: nat)
    requires forall k :: 0 <= k < |atoms| ==> PrintableAtom(atoms[k], args)
    ensures Scan(Print(atoms, args), 0, Context(0, args, true)) == Accept(atoms)
  {
    ScanPrinted(Print(atoms, args), 0, atoms, Context(0, args, true));
  }

  /** So does writing the tree that it compiles to. */
  lemma CompiledRoundTrip(atoms: seq<Atom>, args: nat)
    requires forall k :: 0 <= k < |atoms| ==> PrintableAtom(atoms[k], args)
    ensures FormatCompiler.CompileString(Print(atoms, args), args).Tree?
    ensures FormatCompiler.Write(FormatCompiler.CompileString(Print(atoms, args), args).root, args) == Accept(atoms)
  {
    RoundTrip(atoms, args);
    FormatCompiler.CompiledMeansTheSame(Print(atoms, args), args);
  }
}
