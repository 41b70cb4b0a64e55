/**
  What the grammar of format strings says of plain texts: which fills are one
  code point, and which specifiers are turned away.
 */
module FormatTexts {
  import opened Basics
  import opened FormatFields
  import opened FormatStrings

  // ---- fills ----

  /** The UTF-8 encoding of a code point, as RFC 3629 has it in section 3. */
  function Utf8(cp: nat): string
    requires cp < 0x110000
  {
    if cp < 0x80 then [cp as char]
    else if cp < 0x800 then [(0xC0 + cp / 64) as char, (0x80 + cp % 64) as char]
    else if cp < 0x10000 then
      [(0xE0 + cp / 4096) as char, (0x80 + cp / 64 % 64) as char, (0x80 + cp % 64) as char]
    else
      [(0xF0 + cp / 262144) as char, (0x80 + cp / 4096 % 64) as char, (0x80 + cp / 64 % 64) as char,
       (0x80 + cp % 64) as char]
  }

  /** The first code unit tells the length of every code point. */
  lemma LengthIsRight(cp: nat)
    requires cp < 0x110000
    ensures |Utf8(cp)| == CodePointLength(Utf8(cp)[0])
  {
  }

  /** A code point before an alignment is read as the fill, all of it, unless it is an opening brace. */
  lemma FillIsCodePoint(s: string, p: Parsing, cp: nat, a: char)
    requires cp < 0x110000 && IsAlign(a)
    requires p.at + |Utf8(cp)| < |s| && s[p.at..p.at + |Utf8(cp)|] == Utf8(cp) && s[p.at + |Utf8(cp)|] == a
    ensures ParseAlign(s, p) ==
            if cp == '{' as int then None
            else Some(p.(at := p.at + |Utf8(cp)| + 1, specs := p.specs.(fill := Utf8(cp), align := Some(a))))
  {
    LengthIsRight(cp);
    assert Utf8(cp)[0] == '{' <==> cp == '{' as int;
    FillIsRead(s, p, Utf8(cp), a);
  }

  // ---- specifiers that are turned away ----

  /** The field that opens at i has an argument id, and then a colon and its specifiers from j on. */
  predicate SpecsAt(s: string, i: nat, j: nat)
  {
    i + 1 < j <= |s| && s[i] == '{' && s[j - 1] == ':' &&
    var r := ParseArgId(s, i + 1);
    r.Some? && r.value.1 == j - 1
  }

  /** The context behind the argument id of the field at i. */
  function BehindId(s: string, i: nat, j: nat, ctx: Context): Option<Context>
    requires SpecsAt(s, i, j)
  {
    match Resolve(ctx, ParseArgId(s, i + 1).value.0)
    case None => None
    case Some((_, ctx')) => Some(ctx')
  }

  lemma SpecsRejected(s: string, i: nat, j: nat, ctx: Context)
    requires SpecsAt(s, i, j)
    requires var c := BehindId(s, i, j, ctx); c.Some? ==> ParseSpecs(s, j, c.value).None?
    ensures Scan(s, i, ctx) == Reject
  {
  }

  /** A point that neither a digit nor an opening brace follows is no precision, and no fill either. */
  lemma BarePoint(s: string, i: nat, j: nat, ctx: Context)
    requires SpecsAt(s, i, j) && j < |s| && s[j] == '.'
    requires j + 1 < |s| ==> !IsDigit(s[j + 1]) && s[j + 1] != '{' && !IsAlign(s[j + 1])
    ensures Scan(s, i, ctx) == Reject
  {
    var c := BehindId(s, i, j, ctx);
    if c.Some? {
      NoPrecision(s, j, c.value);
    }
    SpecsRejected(s, i, j, ctx);
  }

  lemma NoPrecision(s: string, j: nat, ctx: Context)
    requires j < |s| && s[j] == '.'
    requires j + 1 < |s| ==> !IsDigit(s[j + 1]) && s[j + 1] != '{' && !IsAlign(s[j + 1])
    ensures ParseSpecs(s, j, ctx).None?
  {
    var p := Parsing(j, NO_SPECS, ctx);
    ShortCutAgrees(s, j, ctx);
    assert ParsePrecision(s, p).None?;
    FromStep(s, p, Width, p, None);
    FromStep(s, p, Flags, p, None);
    FromStep(s, p, Alignment, p, None);
  }

  /** A width that is too large for an int; a leading zero would be a flag. */
  lemma HugeWidth(s: string, i: nat, j: nat, ctx: Context)
    requires SpecsAt(s, i, j) && j < |s| && IsDigit(s[j]) && s[j] != '0'
    requires TooLarge(s, j)
    ensures Scan(s, i, ctx) == Reject
  {
    var c := BehindId(s, i, j, ctx);
    if c.Some? {
      NoWidth(s, j, c.value);
    }
    SpecsRejected(s, i, j, ctx);
  }

  /** The digits from j on spell a number above the range of int. */
  ghost predicate TooLarge(s: string, j: nat)
    requires j <= |s|
  {
    DigitsAre(s, j);
    Number(s[j..DigitsEnd(s, j)]) > MAX_INT
  }

  lemma NoWidth(s: string, j: nat, ctx: Context)
    requires j < |s| && IsDigit(s[j]) && s[j] != '0' && TooLarge(s, j)
    ensures ParseSpecs(s, j, ctx).None?
  {
    var p := Parsing(j, NO_SPECS, ctx);
    ShortCutAgrees(s, j, ctx);
    assert ParseWidth(s, p).None? by {
      IntAtIsExact(s, j, -1);
    }
    ManyDigits(s, j);
    FromStep(s, p, Flags, p, None);
    FromStep(s, p, Alignment, p, None);
  }

  lemma ManyDigits(s: string, j: nat)
    requires j < |s| && TooLarge(s, j)
    ensures j + 1 < |s| && IsDigit(s[j + 1])
  {
    DigitsAre(s, j);
    FewDigits(s[j..DigitsEnd(s, j)]);
  }
}
