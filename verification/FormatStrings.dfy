/**
  Format strings at run time: the one-pass parser for short strings, the
  two-pass parser for long ones, and the grammar that both implement.
 */
module FormatStrings {
  import opened Basics
  import opened FormatFields

  /** What formatting writes: characters of text, and formatted arguments. */
  datatype Atom = Char(c: char) | Field(arg: nat, specs: Specs)

  /** The outcome of a format string. */
  datatype Outcome = Reject | Accept(atoms: seq<Atom>)

  function Before(atoms: seq<Atom>, rest: Outcome): Outcome
  {
    if rest.Reject? then Reject else Accept(atoms + rest.atoms)
  }

  function Text(s: string): seq<Atom>
  {
    seq(|s|, i requires 0 <= i < |s| => Char(s[i]))
  }

  lemma TextAppend(s: string, t: string)
    ensures Text(s + t) == Text(s) + Text(t)
  {
  }

  // ---- the grammar ----

  /** Argument indexing goes on among the same arguments, looked up as before. */
  predicate Continues(c: Context, d: Context)
  {
    c.eager && c.next >= -1 ==> d.eager && d.args == c.args && d.next >= -1
  }

  /** The atom that a replacement field or an escaped brace at i stands for, the position behind it, and the context. */
  function ParseField(s: string, i: nat, ctx: Context): (r: Option<(Atom, nat, Context)>)
    requires i < |s| && s[i] == '{'
    ensures r.Some? ==> i < r.value.1 <= |s| && Continues(ctx, r.value.2)
  {
    if i + 1 == |s| then None
    else if s[i + 1] == '}' then
      match Resolve(ctx, AutoId)
      case None => None
      case Some((arg, ctx')) => Some((Field(arg, NO_SPECS), i + 2, ctx'))
    else if s[i + 1] == '{' then Some((Char('{'), i + 2, ctx))
    else
      match ParseArgId(s, i + 1)
      case None => None
      case Some((id, j)) =>
        match Resolve(ctx, id)
        case None => None
        case Some((arg, ctx')) => ParseAfterId(s, j, arg, ctx')
  }

  /** What follows the argument of a field. */
  function ParseAfterId(s: string, j: nat, arg: nat, ctx: Context): (r: Option<(Atom, nat, Context)>)
    ensures r.Some? ==> j < r.value.1 <= |s| && (ctx.next != 0 ==> Continues(ctx, r.value.2))
  {
    if j >= |s| then None
    else if s[j] == '}' then Some((Field(arg, NO_SPECS), j + 1, ctx))
    else if s[j] == ':' then ParseFieldSpecs(s, j + 1, arg, ctx)
    else None
  }

  /** The specifiers behind a colon, up to the closing brace. */
  function ParseFieldSpecs(s: string, i: nat, arg: nat, ctx: Context): (r: Option<(Atom, nat, Context)>)
    requires i <= |s|
    ensures r.Some? ==> i < r.value.1 <= |s| && (ctx.next != 0 ==> Continues(ctx, r.value.2))
  {
    CloseSpecs(s, arg, ParseSpecs(s, i, ctx))
  }

  function CloseSpecs(s: string, arg: nat, r: Option<Parsing>): Option<(Atom, nat, Context)>
  {
    if r.None? || r.value.at >= |s| || s[r.value.at] != '}' then None
    else Some((Field(arg, r.value.specs), r.value.at + 1, r.value.ctx))
  }

  /** The meaning of the format string from position i on. */
  function Scan(s: string, i: nat, ctx: Context): Outcome
    requires i <= |s|
    decreases |s| - i
  {
    if i == |s| then Accept([])
    else if s[i] == '{' then
      match ParseField(s, i, ctx)
      case None => Reject
      case Some((atom, j, ctx')) => Before([atom], Scan(s, j, ctx'))
    else if s[i] == '}' then
      if i + 1 < |s| && s[i + 1] == '}' then Before([Char('}')], Scan(s, i + 2, ctx)) else Reject
    else Before([Char(s[i])], Scan(s, i + 1, ctx))
  }

  lemma BeforeBefore(a: seq<Atom>, b: seq<Atom>, rest: Outcome)
    ensures Before(a, Before(b, rest)) == Before(a + b, rest)
  {
    if rest.Accept? {
      assert a + (b + rest.atoms) == (a + b) + rest.atoms;
    }
  }

  /** What has been written, followed by the text that is pending and what is still to be parsed. */
  ghost predicate Progress(s: string, whole: Outcome, out: seq<Atom>, begin: nat, p: nat, ctx: Context)
  {
    begin <= p <= |s| && whole == Before(out + Text(s[begin..p]), Scan(s, p, ctx))
  }

  lemma PlainStep(s: string, whole: Outcome, out: seq<Atom>, begin: nat, p: nat, ctx: Context)
    requires Progress(s, whole, out, begin, p, ctx) && p < |s| && s[p] != '{' && s[p] != '}'
    ensures Progress(s, whole, out, begin, p + 1, ctx)
  {
    assert s[begin..p + 1] == s[begin..p] + [s[p]];
    TextAppend(s[begin..p], [s[p]]);
    assert Text([s[p]]) == [Char(s[p])];
    assert (out + Text(s[begin..p])) + [Char(s[p])] == out + Text(s[begin..p + 1]);
    BeforeBefore(out + Text(s[begin..p]), [Char(s[p])], Scan(s, p + 1, ctx));
  }

  /** A closing brace is written with the text before it, and the next one skipped; alone it is an error. */
  lemma CloseStep(s: string, whole: Outcome, out: seq<Atom>, begin: nat, p: nat, ctx: Context)
    requires Progress(s, whole, out, begin, p, ctx) && p < |s| && s[p] == '}'
    ensures p + 1 < |s| && s[p + 1] == '}' ==>
              Progress(s, whole, out + Text(s[begin..p + 1]), p + 2, p + 2, ctx)
    ensures !(p + 1 < |s| && s[p + 1] == '}') ==> whole == Reject
  {
    if p + 1 < |s| && s[p + 1] == '}' {
      assert s[begin..p + 1] == s[begin..p] + [s[p]];
      TextAppend(s[begin..p], [s[p]]);
      assert Text([s[p]]) == [Char('}')];
      assert out + Text(s[begin..p]) + [Char('}')] == out + Text(s[begin..p + 1]) + Text(s[p + 2..p + 2]);
      BeforeBefore(out + Text(s[begin..p]), [Char('}')], Scan(s, p + 2, ctx));
    }
  }

  /** The text before a field is written, then the field. */
  lemma FieldStep(s: string, whole: Outcome, out: seq<Atom>, begin: nat, p: nat, ctx: Context)
    requires Progress(s, whole, out, begin, p, ctx) && p < |s| && s[p] == '{'
    ensures match ParseField(s, p, ctx)
            case None => whole == Reject
            case Some((atom, j, ctx')) => Progress(s, whole, out + Text(s[begin..p]) + [atom], j, j, ctx')
  {
    match ParseField(s, p, ctx)
    case None =>
    case Some((atom, j, ctx')) =>
      BeforeBefore(out + Text(s[begin..p]), [atom], Scan(s, j, ctx'));
      assert out + Text(s[begin..p]) + [atom] + Text(s[j..j]) == out + Text(s[begin..p]) + [atom];
  }

  // ---- one pass ----

  /** The loop for short strings. */
  method ParseInOnePass(s: string, ctx0: Context) returns (r: Outcome)
    ensures r == Scan(s, 0, ctx0)
  {
    ghost var whole := Scan(s, 0, ctx0);
    var begin: nat, p: nat, ctx := 0, 0, ctx0;
    var out: seq<Atom> := [];
    assert Progress(s, whole, out, begin, p, ctx) by {
      assert whole.Accept? ==> [] + Text(s[0..0]) + whole.atoms == whole.atoms;
    }
    while p < |s|
      invariant Progress(s, whole, out, begin, p, ctx)
    {
      if s[p] == '{' {
        FieldStep(s, whole, out, begin, p, ctx);
        var field := ParseField(s, p, ctx);
        if field.None? {
          return Reject;
        }
        out := out + Text(s[begin..p]) + [field.value.0];
        p, ctx := field.value.1, field.value.2;
        begin := p;
      } else if s[p] == '}' {
        CloseStep(s, whole, out, begin, p, ctx);
        if p + 1 == |s| || s[p + 1] != '}' {
          return Reject;
        }
        out := out + Text(s[begin..p + 1]);
        p := p + 2;
        begin := p;
      } else {
        PlainStep(s, whole, out, begin, p, ctx);
        p := p + 1;
      }
    }
    r := Accept(out + Text(s[begin..]));
  }

  // ---- two passes ----

  /** The first position of c in a range, or the end of the range. */
  method Find(s: string, first: nat, last: nat, c: char) returns (p: nat)
    requires first <= last <= |s|
    ensures first <= p <= last && (p < last ==> s[p] == c)
    ensures forall k :: first <= k < p ==> s[k] != c
  {
    p := first;
    while p < last && s[p] != c
      invariant first <= p <= last
      invariant forall k :: first <= k < p ==> s[k] != c
    {
      p := p + 1;
    }
  }

  lemma {:induction false} PlainSteps(s: string, whole: Outcome, out: seq<Atom>, begin: nat, p: nat, q: nat, ctx: Context)
    requires Progress(s, whole, out, begin, p, ctx) && p <= q <= |s|
    requires forall k :: p <= k < q ==> s[k] != '{' && s[k] != '}'
    ensures Progress(s, whole, out, begin, q, ctx)
    decreases q - p
  {
    if p < q {
      PlainStep(s, whole, out, begin, p, ctx);
      PlainSteps(s, whole, out, begin, p + 1, q, ctx);
    }
  }

  /** The second pass: write the text up to pend, which holds no opening brace, looking for closing ones. */
  method WriteText(s: string, pbegin: nat, pend: nat, ctx: Context, out0: seq<Atom>, ghost whole: Outcome)
    returns (ok: bool, out: seq<Atom>)
    requires Progress(s, whole, out0, pbegin, pbegin, ctx) && pend <= |s| && pbegin <= pend
    requires forall k :: pbegin <= k < pend ==> s[k] != '{'
    requires pend == |s| || s[pend] == '{'
    ensures if ok then Progress(s, whole, out, pend, pend, ctx) else whole == Reject
  {
    var begin := pbegin;
    out := out0;
    if begin == pend {
      return true, out;
    }
    while true
      invariant pbegin <= begin <= pend
      invariant Progress(s, whole, out, begin, begin, ctx)
      decreases pend - begin
    {
      var p := Find(s, begin, pend, '}');
      PlainSteps(s, whole, out, begin, begin, p, ctx);
      if p == pend {
        assert s[pend..pend] == "";
        assert out + Text(s[begin..pend]) + Text("") == out + Text(s[begin..pend]);
        return true, out + Text(s[begin..pend]);
      }
      CloseStep(s, whole, out, begin, p, ctx);
      if p + 1 == pend || s[p + 1] != '}' {
        return false, out;
      }
      out := out + Text(s[begin..p + 1]);
      begin := p + 2;
    }
  }

  /** The loop for long strings. */
  method ParseInTwoPasses(s: string, ctx0: Context) returns (r: Outcome)
    ensures r == Scan(s, 0, ctx0)
  {
    ghost var whole := Scan(s, 0, ctx0);
    var begin, ctx := 0, ctx0;
    var out: seq<Atom> := [];
    assert Progress(s, whole, out, 0, 0, ctx) by {
      assert whole.Accept? ==> [] + Text(s[0..0]) + whole.atoms == whole.atoms;
    }
    while begin < |s|
      invariant Progress(s, whole, out, begin, begin, ctx)
      decreases |s| - begin
    {
      var p := begin;
      if s[begin] != '{' {
        p := Find(s, begin + 1, |s|, '{');
      }
      var ok, written := WriteText(s, begin, p, ctx, out, whole);
      if !ok {
        return Reject;
      }
      out := written;
      if p == |s| {
        return Accept(out);
      }
      FieldStep(s, whole, out, p, p, ctx);
      var field := ParseField(s, p, ctx);
      if field.None? {
        return Reject;
      }
      assert out + Text(s[p..p]) + [field.value.0] == out + [field.value.0];
      out := out + [field.value.0];
      begin, ctx := field.value.1, field.value.2;
    }
    r := Accept(out);
  }

  /** Formatting at run time: a short cut for "{}", one pass below 32 characters, two passes otherwise. */
  method Format(s: string, args: nat) returns (r: Outcome)
    ensures r == Scan(s, 0, Context(0, args, true))
  {
    var ctx := Context(0, args, true);
    if s == "{}" {
      r := if args > 0 then Accept([Field(0, NO_SPECS)]) else Reject;
    } else if |s| < 32 {
      r := ParseInOnePass(s, ctx);
    } else {
      r := ParseInTwoPasses(s, ctx);
    }
  }
}
