/**
  The pieces of a format string: numbers, argument ids and replacement-field
  specifiers, with automatic and manual argument indexing.
 */
module FormatFields {
  import opened Basics

  const MAX_INT: nat := 0x7FFF_FFFF

  predicate IsDigit(c: char)
  {
    '0' <= c <= '9'
  }

  predicate IsLetter(c: char)
  {
    'a' <= c <= 'z' || 'A' <= c <= 'Z'
  }

  predicate IsNameStart(c: char)
  {
    IsLetter(c) || c == '_'
  }

  // ---- numbers ----

  function DigitsEnd(s: string, i: nat): (j: nat)
    requires i <= |s|
    ensures i <= j <= |s|
    decreases |s| - i
  {
    if i < |s| && IsDigit(s[i]) then DigitsEnd(s, i + 1) else i
  }

  function Digit(c: char): nat
    requires IsDigit(c)
  {
    c as int - '0' as int
  }

  /** The number that digits spell, whatever its size. */
  function Number(digits: string): nat
    requires forall k :: 0 <= k < |digits| ==> IsDigit(digits[k])
  {
    if digits == [] then 0 else 10 * Number(digits[..|digits| - 1]) + Digit(digits[|digits| - 1])
  }

  lemma {:induction false} DigitsAre(s: string, i: nat)
    requires i <= |s|
    ensures forall k :: i <= k < DigitsEnd(s, i) ==> IsDigit(s[k])
    ensures DigitsEnd(s, i) < |s| ==> !IsDigit(s[DigitsEnd(s, i)])
    decreases |s| - i
  {
    if i < |s| && IsDigit(s[i]) {
      DigitsAre(s, i + 1);
    }
  }

  /** The number at i if it has at most ten digits and fits an int, and the replacement otherwise. */
  function IntAt(s: string, i: nat, otherwise: int): int
    requires i <= |s|
  {
    DigitsAre(s, i);
    var digits := s[i..DigitsEnd(s, i)];
    if |digits| <= 10 && Number(digits) <= MAX_INT then Number(digits) else otherwise
  }

  lemma {:induction false} NumberBounds(digits: string)
    requires forall k :: 0 <= k < |digits| ==> IsDigit(digits[k])
    ensures Number(digits) < Pow(10, |digits|)
    ensures digits != [] && digits[0] != '0' ==> Number(digits) >= Pow(10, |digits| - 1)
  {
    if digits != [] {
      NumberBounds(digits[..|digits| - 1]);
    }
  }

  lemma Pow10Values()
    ensures Pow(10, 9) == 1_000_000_000 && Pow(10, 10) == 10_000_000_000
  {
    assert Pow(10, 5) == 100_000;
    assert Pow(10, 9) == 1_000_000_000;
  }

  /** Without leading zeros the ten-digit cut-off never turns away a number that fits. */
  lemma IntAtIsExact(s: string, i: nat, otherwise: int)
    requires i < |s| && IsDigit(s[i]) && s[i] != '0'
    ensures (forall k :: i <= k < DigitsEnd(s, i) ==> IsDigit(s[k]))
    ensures var n := Number(s[i..DigitsEnd(s, i)]);
            IntAt(s, i, otherwise) == if n <= MAX_INT then n else otherwise
  {
    DigitsAre(s, i);
    var digits := s[i..DigitsEnd(s, i)];
    NumberBounds(digits);
    Pow10Values();
    if |digits| > 10 {
      PowMono(10, 10, |digits| - 1);
    }
  }

  /** With leading zeros it does, exactly when there are more than ten digits. */
  lemma LeadingZerosAreTurnedAway(s: string, i: nat)
    requires i < |s| && IsDigit(s[i])
    ensures (forall k :: i <= k < DigitsEnd(s, i) ==> IsDigit(s[k]))
    ensures var digits := s[i..DigitsEnd(s, i)];
            Number(digits) <= MAX_INT ==>
              && (IntAt(s, i, -1) == Number(digits) <==> |digits| <= 10)
              && (|digits| > 10 ==> s[i] == '0')
  {
    DigitsAre(s, i);
    if s[i] != '0' {
      IntAtIsExact(s, i, -1);
    }
  }

  lemma TenZerosAndFive() returns (s: string)
    ensures |s| == 11 && DigitsEnd(s, 0) == 11
    ensures (forall k :: 0 <= k < 11 ==> IsDigit(s[k])) && Number(s) == 5 && IntAt(s, 0, -1) == -1
  {
    s := "0000000000" + "5";
    DigitsRun(s, 0);
    AllZeros("0000000000");
    assert s[..10] == "0000000000";
  }

  lemma {:induction false} AllZeros(s: string)
    requires forall k :: 0 <= k < |s| ==> s[k] == '0'
    ensures Number(s) == 0
  {
    if s != [] {
      AllZeros(s[..|s| - 1]);
    }
  }

  lemma {:induction false} DigitsRun(s: string, i: nat)
    requires i <= |s| && forall k :: i <= k < |s| ==> IsDigit(s[k])
    ensures DigitsEnd(s, i) == |s|
    decreases |s| - i
  {
    if i < |s| {
      DigitsRun(s, i + 1);
    }
  }

  /**
    The 32-bit loop computes exactly that, although its accumulator may wrap
    around before the number of digits is looked at.
   */
  method ParseNonnegativeInt(s: string, begin: nat, errorValue: int) returns (value: int, p: nat)
    requires begin < |s| && IsDigit(s[begin])
    ensures p == DigitsEnd(s, begin) && value == IntAt(s, begin, errorValue)
  {
    var acc, prev, end, wraps, prevWraps := Accumulate(s, begin);
    p := end;
    Decide(s[begin..p], acc, wraps, prev, prevWraps);
    if p - begin <= 9 {
      return acc, p;
    }
    var fits := p - begin == 10 && prev * 10 + Digit(s[p - 1]) <= MAX_INT;
    value := if fits then acc else errorValue;
  }

  method Accumulate(s: string, begin: nat) returns (acc: nat, prev: nat, p: nat, ghost wraps: nat, ghost prevWraps: nat)
    requires begin < |s| && IsDigit(s[begin])
    ensures begin < p <= |s| && p == DigitsEnd(s, begin)
    ensures Wrapped(s[begin..p], acc, wraps) && Wrapped(s[begin..p][..p - begin - 1], prev, prevWraps)
  {
    acc, prev, p, wraps, prevWraps := 0, 0, begin, 0, 0;
    while p < |s| && IsDigit(s[p])
      invariant begin <= p <= |s| && DigitsEnd(s, p) == DigitsEnd(s, begin)
      invariant Wrapped(s[begin..p], acc, wraps)
      invariant p > begin ==> Wrapped(s[begin..p][..p - begin - 1], prev, prevWraps)
    {
      ghost var digits := s[begin..p];
      WrappedStep(digits, s[p], acc, wraps);
      assert s[begin..p + 1] == digits + [s[p]];
      assert (digits + [s[p]])[..p - begin] == digits;
      var next := acc * 10 + Digit(s[p]);
      ghost var wraps' := 10 * wraps + next / W32;
      acc, prev, p, wraps, prevWraps := next % W32, acc, p + 1, wraps', wraps;
    }
  }

  /** The 32-bit accumulator holds the digits' number up to multiples of 2^32. */
  ghost predicate Wrapped(digits: string, acc: nat, wraps: nat)
  {
    && (forall k :: 0 <= k < |digits| ==> IsDigit(digits[k]))
    && acc < W32 && Number(digits) == acc + wraps * W32
  }

  lemma WrappedStep(digits: string, c: char, acc: nat, wraps: nat)
    requires Wrapped(digits, acc, wraps) && IsDigit(c)
    ensures var next := acc * 10 + Digit(c);
            Wrapped(digits + [c], next % W32, 10 * wraps + next / W32)
  {
    assert (digits + [c])[..|digits|] == digits;
  }

  /** Up to nine digits, and whenever the number fits an int, the accumulator has not wrapped. */
  lemma Unwrapped(digits: string, acc: nat, wraps: nat)
    requires Wrapped(digits, acc, wraps)
    ensures |digits| <= 9 ==> acc == Number(digits) <= MAX_INT
    ensures Number(digits) <= MAX_INT ==> acc == Number(digits)
  {
    FewDigits(digits);
  }

  /** Up to ten digits the wide check sees the number itself. */
  lemma Decide(digits: string, acc: nat, wraps: nat, prev: nat, prevWraps: nat)
    requires digits != [] && Wrapped(digits, acc, wraps) && Wrapped(digits[..|digits| - 1], prev, prevWraps)
    ensures |digits| <= 9 ==> acc == Number(digits) <= MAX_INT
    ensures |digits| == 10 ==> prev * 10 + Digit(digits[9]) == Number(digits)
    ensures Number(digits) <= MAX_INT ==> acc == Number(digits)
  {
    Unwrapped(digits, acc, wraps);
    Unwrapped(digits[..|digits| - 1], prev, prevWraps);
  }

  lemma FewDigits(digits: string)
    requires forall k :: 0 <= k < |digits| ==> IsDigit(digits[k])
    ensures |digits| <= 9 ==> Number(digits) < 1_000_000_000
  {
    if |digits| <= 9 {
      NumberBounds(digits);
      PowMono(10, |digits|, 9);
      Pow10Values();
    }
  }

  // ---- argument ids ----

  datatype ArgId = AutoId | Index(n: nat) | Name(name: string)

  function NameEnd(s: string, i: nat): (j: nat)
    requires i <= |s|
    ensures i <= j <= |s|
    decreases |s| - i
  {
    if i < |s| && (IsNameStart(s[i]) || IsDigit(s[i])) then NameEnd(s, i + 1) else i
  }

  /** The argument id at i and the position behind it. */
  function ParseArgId(s: string, i: nat): (r: Option<(ArgId, nat)>)
    requires i < |s|
    ensures r.Some? ==> i <= r.value.1 <= |s|
    ensures r.Some? && !r.value.0.AutoId? ==> i < r.value.1
  {
    var c := s[i];
    if c == '}' || c == ':' then Some((AutoId, i))
    else if IsDigit(c) then
      var (n, j) := if c != '0' then (IntAt(s, i, MAX_INT), DigitsEnd(s, i)) else (0, i + 1);
      if j == |s| || (s[j] != '}' && s[j] != ':') then None else Some((Index(n), j))
    else if !IsNameStart(c) then None
    else Some((Name(s[i..NameEnd(s, i + 1)]), NameEnd(s, i + 1)))
  }

  /**
    Argument indexing: the next automatic index, or -1 once an explicit index
    was used; how many arguments there are; and whether an argument is looked up
    as soon as it is mentioned, or only when the output is written.
   */
  datatype Context = Context(next: int, args: nat, eager: bool)

  /** The argument that an id refers to. No argument has a name. */
  function Resolve(ctx: Context, id: ArgId): Option<(nat, Context)>
  {
    var r: Option<(nat, Context)> := match id
      case AutoId => if ctx.next >= 0 then Some((ctx.next, ctx.(next := ctx.next + 1))) else None
      case Index(n) => if ctx.next > 0 then None else Some((n, ctx.(next := -1)))
      case Name(_) => None;
    if r.Some? && ctx.eager && r.value.0 >= ctx.args then None else r
  }

  // ---- specifiers ----

  /** A width or a precision: none, a number, or the value of an argument. */
  datatype Amount = Default | Fixed(n: int) | Arg(id: nat)

  datatype Specs = Specs(
    fill: string,
    align: Option<char>,
    sign: Option<char>,
    hash: bool,
    zero: bool,
    width: Amount,
    precision: Amount,
    localized: bool,
    kind: Option<char>)

  const NO_SPECS := Specs(" ", None, None, false, false, Default, Default, false, None)

  /** Specifiers up to a position. */
  datatype Parsing = Parsing(at: nat, specs: Specs, ctx: Context)

  predicate Found(amount: Amount, args: nat)
  {
    amount.Arg? ==> amount.id < args
  }

  /** Every argument that the specifiers mention has been looked up. */
  predicate LookedUp(p: Parsing)
  {
    p.ctx.eager && Found(p.specs.width, p.ctx.args) && Found(p.specs.precision, p.ctx.args)
  }

  /** Automatic indexing stays automatic, manual indexing manual. */
  predicate SameMode(c: Context, d: Context)
  {
    c.args == d.args && (c.next == -1 ==> d.next == -1) && (c.next >= 1 ==> d.next >= 1)
  }

  /** Parsing goes forward, and looks every argument up if it is to do so. */
  predicate Follows(p: Parsing, r: Parsing)
  {
    p.at <= r.at && SameMode(p.ctx, r.ctx) && (LookedUp(p) ==> LookedUp(r))
  }

  predicate IsAlign(c: char)
  {
    c == '<' || c == '>' || c == '^'
  }

  /** The length of the UTF-8 sequence that a code unit starts. */
  function CodePointLength(c: char): nat
  {
    if 0xC0 <= c as int < 0xE0 then 2
    else if 0xE0 <= c as int < 0xF0 then 3
    else if 0xF0 <= c as int < 0xF8 then 4
    else 1
  }

  function ParseAlign(s: string, p: Parsing): (r: Option<Parsing>)
    requires p.at <= |s|
    ensures r.Some? ==> r.value.at <= |s| && Follows(p, r.value)
  {
    if p.at == |s| then Some(p) else
    var c := s[p.at];
    var j := p.at + CodePointLength(c);
    if j < |s| && IsAlign(s[j]) then
      if c == '{' then None
      else Some(p.(at := j + 1, specs := p.specs.(fill := s[p.at..j], align := Some(s[j]))))
    else if IsAlign(c) then Some(p.(at := p.at + 1, specs := p.specs.(align := Some(c))))
    else Some(p)
  }

  /** A fill of one code point before an alignment. */
  lemma FillIsRead(s: string, p: Parsing, fill: string, a: char)
    requires IsAlign(a) && fill != [] && |fill| == CodePointLength(fill[0])
    requires p.at + |fill| < |s| && s[p.at..p.at + |fill|] == fill && s[p.at + |fill|] == a
    ensures ParseAlign(s, p) ==
            if fill[0] == '{' then None
            else Some(p.(at := p.at + |fill| + 1, specs := p.specs.(fill := fill, align := Some(a))))
  {
    assert s[p.at] == s[p.at..p.at + |fill|][0];
  }

  function ParseSign(s: string, p: Parsing): (r: Parsing)
    requires p.at <= |s|
    ensures r.at <= |s| && Follows(p, r)
  {
    if p.at < |s| && (s[p.at] == '+' || s[p.at] == '-' || s[p.at] == ' ')
    then p.(at := p.at + 1, specs := p.specs.(sign := Some(s[p.at]))) else p
  }

  function ParseHash(s: string, p: Parsing): (r: Parsing)
    requires p.at <= |s|
    ensures r.at <= |s| && Follows(p, r)
  {
    if p.at < |s| && s[p.at] == '#' then p.(at := p.at + 1, specs := p.specs.(hash := true)) else p
  }

  function ParseZero(s: string, p: Parsing): (r: Parsing)
    requires p.at <= |s|
    ensures r.at <= |s| && Follows(p, r)
  {
    if p.at < |s| && s[p.at] == '0' then p.(at := p.at + 1, specs := p.specs.(zero := true)) else p
  }

  function ParseFlags(s: string, p: Parsing): (r: Parsing)
    requires p.at <= |s|
    ensures r.at <= |s| && Follows(p, r)
  {
    ParseZero(s, ParseHash(s, ParseSign(s, p)))
  }

  /** The argument id in braces whose '{' is just before i. */
  function ParseDynamic(s: string, i: nat, ctx: Context): (r: Option<(nat, nat, Context)>)
    ensures r.Some? ==> i < r.value.1 <= |s| && SameMode(ctx, r.value.2)
    ensures r.Some? && ctx.eager ==> r.value.2.eager && r.value.0 < ctx.args
  {
    if i >= |s| then None else
    match ParseArgId(s, i)
    case None => None
    case Some((id, j)) =>
      if j == |s| || s[j] != '}' then None else
      match Resolve(ctx, id)
      case None => None
      case Some((n, ctx')) => Some((n, j + 1, ctx'))
  }

  function ParseWidth(s: string, p: Parsing): (r: Option<Parsing>)
    requires p.at <= |s|
    ensures r.Some? ==> r.value.at <= |s| && Follows(p, r.value)
  {
    if p.at == |s| then Some(p)
    else if IsDigit(s[p.at]) then
      var n := IntAt(s, p.at, -1);
      if n == -1 then None else Some(p.(at := DigitsEnd(s, p.at), specs := p.specs.(width := Fixed(n))))
    else if s[p.at] == '{' then
      match ParseDynamic(s, p.at + 1, p.ctx)
      case None => None
      case Some((n, j, ctx)) => Some(Parsing(j, p.specs.(width := Arg(n)), ctx))
    else Some(p)
  }

  function ParsePrecision(s: string, p: Parsing): (r: Option<Parsing>)
    requires p.at <= |s|
    ensures r.Some? ==> r.value.at <= |s| && Follows(p, r.value)
  {
    if p.at == |s| || s[p.at] != '.' then Some(p)
    else
      var i := p.at + 1;
      if i < |s| && IsDigit(s[i]) then
        var n := IntAt(s, i, -1);
        if n == -1 then None else Some(p.(at := DigitsEnd(s, i), specs := p.specs.(precision := Fixed(n))))
      else if i < |s| && s[i] == '{' then
        match ParseDynamic(s, i + 1, p.ctx)
        case None => None
        case Some((n, j, ctx)) => Some(Parsing(j, p.specs.(precision := Arg(n)), ctx))
      else None
  }

  function ParseLocalized(s: string, p: Parsing): (r: Parsing)
    requires p.at <= |s|
    ensures r.at <= |s| && Follows(p, r)
  {
    if p.at < |s| && s[p.at] == 'L' then p.(at := p.at + 1, specs := p.specs.(localized := true)) else p
  }

  function ParseType(s: string, p: Parsing): (r: Parsing)
    requires p.at <= |s|
    ensures r.at <= |s| && Follows(p, r)
  {
    if p.at < |s| && s[p.at] != '}' then p.(at := p.at + 1, specs := p.specs.(kind := Some(s[p.at]))) else p
  }

  /** The kinds of specifiers, in their order. */
  datatype Stage = Alignment | Flags | Width | Precision | Type | Done

  function Later(stage: Stage): Stage
  {
    match stage
    case Alignment => Flags
    case Flags => Width
    case Width => Precision
    case Precision => Type
    case _ => Done
  }

  function StagesLeft(stage: Stage): nat
  {
    match stage
    case Alignment => 5
    case Flags => 4
    case Width => 3
    case Precision => 2
    case Type => 1
    case Done => 0
  }

  function ParseStage(s: string, p: Parsing, stage: Stage): (r: Option<Parsing>)
    requires p.at <= |s|
    ensures r.Some? ==> r.value.at <= |s| && Follows(p, r.value)
  {
    match stage
    case Alignment => ParseAlign(s, p)
    case Flags => Some(ParseFlags(s, p))
    case Width => ParseWidth(s, p)
    case Precision => ParsePrecision(s, p)
    case Type => Some(ParseType(s, ParseLocalized(s, p)))
    case Done => Some(p)
  }

  /** All the specifiers from a stage on, one kind after the other. */
  function ParseFrom(s: string, p: Parsing, stage: Stage): (r: Option<Parsing>)
    requires p.at <= |s|
    ensures r.Some? ==> r.value.at <= |s| && Follows(p, r.value)
    decreases StagesLeft(stage), |s|
  {
    if stage == Done then Some(p) else
    match ParseStage(s, p, stage)
    case None => None
    case Some(p') => ParseFrom(s, p', Later(stage))
  }

  lemma FromStep(s: string, p: Parsing, stage: Stage, p': Parsing, f: Option<Parsing>)
    requires p.at <= |s| && p'.at <= |s| && stage != Done && ParseStage(s, p, stage) == Some(p')
    requires ParseFrom(s, p', Later(stage)) == f
    ensures ParseFrom(s, p, stage) == f
  {
  }

  /** The same, with a short cut for a type alone. */
  function ParseSpecs(s: string, i: nat, ctx: Context): (r: Option<Parsing>)
    requires i <= |s|
    ensures r.Some? ==> r.value.at <= |s| && Follows(Parsing(i, NO_SPECS, ctx), r.value)
  {
    var p := Parsing(i, NO_SPECS, ctx);
    if i + 1 < |s| && s[i + 1] == '}' && IsLetter(s[i]) && s[i] != 'L'
    then Some(p.(at := i + 1, specs := NO_SPECS.(kind := Some(s[i]))))
    else ParseFrom(s, p, Alignment)
  }

  /** The short cut changes nothing. */
  lemma ShortCutAgrees(s: string, i: nat, ctx: Context)
    requires i <= |s|
    ensures ParseSpecs(s, i, ctx) == ParseFrom(s, Parsing(i, NO_SPECS, ctx), Alignment)
  {
    if i + 1 < |s| && s[i + 1] == '}' && IsLetter(s[i]) && s[i] != 'L' {
      TypeAlone(s, Parsing(i, NO_SPECS, ctx), Alignment);
    }
  }

  /** Before a type alone every earlier stage finds nothing. */
  lemma {:induction false} TypeAlone(s: string, p: Parsing, stage: Stage)
    requires p.at + 1 < |s| && !IsAlign(s[p.at + 1]) && IsLetter(s[p.at]) && s[p.at] != 'L' && stage != Done
    ensures ParseFrom(s, p, stage) == Some(p.(at := p.at + 1, specs := p.specs.(kind := Some(s[p.at]))))
    decreases StagesLeft(stage)
  {
    if stage == Type {
      assert ParseFrom(s, p, Type) == ParseFrom(s, ParseStage(s, p, Type).value, Done);
    } else {
      assert ParseStage(s, p, stage) == Some(p);
      TypeAlone(s, p, Later(stage));
    }
  }

  // ---- looking arguments up early or late ----

  /**
    The contexts of the run-time parser and of the compiler at the same field:
    the same automatic index, or manual indexing, which the compiler starts
    afresh for the specifiers of every field.
   */
  predicate Tracks(c: Context, d: Context)
  {
    c.eager && !d.eager && (c.next == d.next >= 1 || (c.next == -1 && -1 <= d.next <= 0))
  }

  lemma ResolveTracks(c: Context, d: Context, id: ArgId)
    requires Tracks(c, d) && Resolve(c, id).Some?
    ensures Resolve(d, id).Some? && Resolve(d, id).value.0 == Resolve(c, id).value.0
    ensures Tracks(Resolve(c, id).value.1, Resolve(d, id).value.1)
  {
  }

  ghost predicate SameStage(r: Option<Parsing>, q: Option<Parsing>)
  {
    r.Some? ==> q.Some? && SameParse(r.value, q.value)
  }

  predicate SameParse(p: Parsing, q: Parsing)
  {
    p.at == q.at && p.specs == q.specs && Tracks(p.ctx, q.ctx)
  }

  lemma DynamicTracks(s: string, i: nat, c: Context, d: Context)
    requires Tracks(c, d) && ParseDynamic(s, i, c).Some?
    ensures var r, q := ParseDynamic(s, i, c), ParseDynamic(s, i, d);
            q.Some? && q.value.0 == r.value.0 && q.value.1 == r.value.1 && Tracks(r.value.2, q.value.2)
  {
    ResolveTracks(c, d, ParseArgId(s, i).value.0);
  }

  lemma WidthTracks(s: string, p: Parsing, q: Parsing)
    requires SameParse(p, q) && p.at <= |s|
    ensures SameStage(ParseWidth(s, p), ParseWidth(s, q))
  {
    if p.at < |s| && s[p.at] == '{' && ParseDynamic(s, p.at + 1, p.ctx).Some? {
      DynamicTracks(s, p.at + 1, p.ctx, q.ctx);
    }
  }

  lemma PrecisionTracks(s: string, p: Parsing, q: Parsing)
    requires SameParse(p, q) && p.at <= |s|
    ensures SameStage(ParsePrecision(s, p), ParsePrecision(s, q))
  {
    if p.at + 1 < |s| && s[p.at + 1] == '{' && ParseDynamic(s, p.at + 2, p.ctx).Some? {
      DynamicTracks(s, p.at + 2, p.ctx, q.ctx);
    }
  }

  lemma FlagsTrack(s: string, p: Parsing, q: Parsing)
    requires SameParse(p, q) && p.at <= |s|
    ensures SameParse(ParseFlags(s, p), ParseFlags(s, q))
  {
  }

  lemma StageTracks(s: string, p: Parsing, q: Parsing, stage: Stage)
    requires SameParse(p, q) && p.at <= |s|
    ensures SameStage(ParseStage(s, p, stage), ParseStage(s, q, stage))
  {
    match stage
    case Flags => FlagsTrack(s, p, q);
    case Width => WidthTracks(s, p, q);
    case Precision => PrecisionTracks(s, p, q);
    case _ =>
  }

  lemma {:induction false} FromTracks(s: string, p: Parsing, q: Parsing, stage: Stage)
    requires SameParse(p, q) && p.at <= |s|
    ensures SameStage(ParseFrom(s, p, stage), ParseFrom(s, q, stage))
    decreases StagesLeft(stage)
  {
    StageTracks(s, p, q, stage);
    if stage != Done && ParseStage(s, p, stage).Some? {
      FromTracks(s, ParseStage(s, p, stage).value, ParseStage(s, q, stage).value, Later(stage));
    }
  }

  /** Specifiers that the run-time parser accepts mean the same to the compiler. */
  lemma SpecsTrack(s: string, i: nat, c: Context, d: Context)
    requires i <= |s| && Tracks(c, d)
    ensures SameStage(ParseSpecs(s, i, c), ParseSpecs(s, i, d))
  {
    var p, q := Parsing(i, NO_SPECS, c), Parsing(i, NO_SPECS, d);
    ShortCutAgrees(s, i, c);
    ShortCutAgrees(s, i, d);
    FromTracks(s, p, q, Alignment);
  }
}
