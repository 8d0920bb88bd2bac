/** Templates as token lists, and the round trip of DateFormat over every template and date. */
module Templates {
  import opened Text
  import opened Decimal
  import opened Calendar
  import opened Dates
  import opened DateFormats

  datatype Field = YYYY | DDD | DD | MMM | MM | HH | MI | SS

  datatype Token = Fld(f: Field) | Lit(c: char)

  function Name(f: Field): (s: string)
    ensures |s| >= 2
  {
    match f
    case YYYY => "yyyy" case DDD => "ddd" case DD => "dd" case MMM => "mmm"
    case MM => "mm" case HH => "hh" case MI => "mi" case SS => "ss"
  }

  function Value(d: Stamp, f: Field): string {
    match f
    case YYYY => d.year case DDD => d.dayw case DD => d.day case MMM => d.monthw
    case MM => d.month case HH => d.hh case MI => d.mm case SS => d.ss
  }

  const ALL: set<Field> := {YYYY, DDD, DD, MMM, MM, HH, MI, SS}

  const FIELD_LETTERS := "ydmhisn"

  /** A token list written out, the fields of `done` by their values in `d` and the others by name. */
  function Show(toks: seq<Token>, d: Stamp, done: set<Field>): string {
    if toks == [] then "" else TextOf(toks[0], d, done) + Show(toks[1..], d, done)
  }

  function TextOf(t: Token, d: Stamp, done: set<Field>): string {
    match t
    case Fld(f) => if f in done then Value(d, f) else Name(f)
    case Lit(c) => [c]
  }

  function Spec(toks: seq<Token>, d: Stamp): string { Show(toks, d, {}) }

  function Printed(toks: seq<Token>, d: Stamp): string { Show(toks, d, ALL) }

  /** Fields stand apart, and no literal is a field letter. */
  predicate Template(toks: seq<Token>) {
    && (forall i :: 0 <= i < |toks| && toks[i].Lit? ==> toks[i].c !in FIELD_LETTERS)
    && (forall i :: 0 < i < |toks| && toks[i].Fld? ==> toks[i - 1].Lit?)
  }

  // ---------------------------------------------------------------- where a field name can match

  /** `t` cannot hold `pat`: too short, or as long and different, or without one of its letters. */
  predicate Clean(t: string, pat: string, k: char) {
    |t| < |pat| || (|t| == |pat| && t != pat) || k !in t
  }

  /** No field name outside `skip` can hold the pattern. */
  predicate OthersClean(pat: string, k: char, skip: set<Field>) {
    && (YYYY in skip || Clean("yyyy", pat, k)) && (DDD in skip || Clean("ddd", pat, k))
    && (DD in skip || Clean("dd", pat, k)) && (MMM in skip || Clean("mmm", pat, k))
    && (MM in skip || Clean("mm", pat, k)) && (HH in skip || Clean("hh", pat, k))
    && (MI in skip || Clean("mi", pat, k)) && (SS in skip || Clean("ss", pat, k))
  }

  lemma OtherIsClean(pat: string, k: char, skip: set<Field>, g: Field)
    requires OthersClean(pat, k, skip) && g !in skip
    ensures Clean(Name(g), pat, k)
  {
    match g
    case YYYY => case DDD => case DD => case MMM => case MM => case HH => case MI => case SS =>
  }

  predicate IsPattern(pat: string, k: char) {
    k in pat && forall i :: 0 <= i < |pat| ==> pat[i] in FIELD_LETTERS
  }

  /** Only the fields of `fs` spell the pattern; in every other text it is out of the question. */
  predicate Sole(toks: seq<Token>, d: Stamp, done: set<Field>, pat: string, k: char, fs: set<Field>) {
    && IsPattern(pat, k)
    && (forall f :: f in fs ==> f !in done && Name(f) == pat)
    && forall i :: 0 <= i < |toks| && toks[i].Fld? && toks[i].f !in fs ==> Clean(TextOf(toks[i], d, done), pat, k)
  }

  lemma CleanHasNoMatch(t: string, rest: string, pat: string, k: char, j: nat)
    requires k in pat && j < |t| && Clean(t, pat, k)
    requires rest == "" || rest[0] !in pat
    ensures !MatchAt(t + rest, pat, j)
  {
    var s := t + rest;
    if j + |pat| <= |t| {
      var i :| 0 <= i < |pat| && pat[i] == k;
      assert s[j..j + |pat|] == t[j..j + |pat|];
      assert t[j..j + |pat|][i] == t[j + i];
      if |t| == |pat| { assert t[0..|t|] == t; }
    } else if j + |pat| <= |s| {
      assert s[j..j + |pat|][|t| - j] == s[|t|] == rest[0];
      assert pat[|t| - j] in pat;
    }
  }

  lemma LiteralHasNoMatch(c: char, rest: string, pat: string)
    requires pat != "" && c !in pat
    ensures !MatchAt([c] + rest, pat, 0)
  {
    var s := [c] + rest;
    if |pat| <= |s| { assert s[0..|pat|][0] == c && pat[0] in pat; }
  }

  /** A prefix in which nothing matches is skipped by the replacement and by the search. */
  lemma SkipPrefix(t: string, rest: string, pat: string, v: string)
    requires pat != "" && forall j :: 0 <= j < |t| ==> !MatchAt(t + rest, pat, j)
    ensures Replaced(t + rest, pat, v) == t + Replaced(rest, pat, v)
    ensures Find(t + rest, pat) == var k := Find(rest, pat); if k == -1 then -1 else |t| + k
  {
    var s := t + rest;
    ReplacedSkip(s, pat, v, |t|);
    assert s[..|t|] == t && s[|t|..] == rest;
    FindFromShift(t, rest, pat);
    FindLater(s, pat, 0, |t|);
  }

  lemma {:induction false} FindLater(s: string, pat: string, a: nat, b: nat)
    requires a <= b <= |s| && forall j :: a <= j < b ==> !MatchAt(s, pat, j)
    ensures FindFrom(s, pat, a) == FindFrom(s, pat, b)
    decreases b - a
  {
    if a < b { FindLater(s, pat, a + 1, b); }
  }

  lemma ShowStartsLiteral(toks: seq<Token>, d: Stamp, done: set<Field>, pat: string, k: char)
    requires Template(toks) && (toks == [] || toks[0].Lit?) && IsPattern(pat, k)
    ensures var s := Show(toks, d, done); s == "" || s[0] !in pat
  {}

  /** The first token is passed over unless it is one of the fields that spell the pattern. */
  lemma SkipToken(toks: seq<Token>, d: Stamp, done: set<Field>, pat: string, k: char, fs: set<Field>, v: string)
    requires toks != [] && Template(toks) && Sole(toks, d, done, pat, k, fs)
    requires toks[0].Fld? ==> toks[0].f !in fs
    ensures var t, rest := TextOf(toks[0], d, done), Show(toks[1..], d, done);
      && Replaced(t + rest, pat, v) == t + Replaced(rest, pat, v)
      && Find(t + rest, pat) == var n := Find(rest, pat); if n == -1 then -1 else |t| + n
  {
    var t, rest := TextOf(toks[0], d, done), Show(toks[1..], d, done);
    forall j | 0 <= j < |t| ensures !MatchAt(t + rest, pat, j) {
      match toks[0]
      case Lit(c) =>
        LiteralHasNoMatch(c, rest, pat);
      case Fld(f) =>
        ShowStartsLiteral(toks[1..], d, done, pat, k);
        CleanHasNoMatch(t, rest, pat, k, j);
    }
    SkipPrefix(t, rest, pat, v);
  }

  // ---------------------------------------------------------------- format on a template

  /** One `replaceAll` of the chain rewrites exactly the fields it is meant for. */
  lemma {:induction false} ReplaceShow(toks: seq<Token>, d: Stamp, done: set<Field>, pat: string, k: char, fs: set<Field>, v: string)
    requires Template(toks) && Sole(toks, d, done, pat, k, fs)
    requires forall f :: f in fs ==> Value(d, f) == v
    ensures Replaced(Show(toks, d, done), pat, v) == Show(toks, d, done + fs)
  {
    if toks != [] {
      var t, rest := TextOf(toks[0], d, done), Show(toks[1..], d, done);
      ReplaceShow(toks[1..], d, done, pat, k, fs, v);
      if toks[0].Fld? && toks[0].f in fs {
        assert (pat + rest)[|pat|..] == rest;
        assert pat <= pat + rest;
      } else {
        SkipToken(toks, d, done, pat, k, fs, v);
      }
    }
  }

  predicate NoLower(s: string) { forall i :: 0 <= i < |s| ==> !('a' <= s[i] <= 'z') }

  /** No field of the date prints a lower-case letter. */
  predicate Printable(d: Stamp) {
    |d.year| >= 2 && forall f: Field :: NoLower(Value(d, f))
  }

  lemma FormatStep(toks: seq<Token>, d: Stamp, done: set<Field>, pat: string, k: char, fs: set<Field>, v: string)
    requires Template(toks) && Printable(d) && IsPattern(pat, k) && 'a' <= k <= 'z'
    requires forall f :: f in fs ==> f !in done && Name(f) == pat && Value(d, f) == v
    requires OthersClean(pat, k, done + fs)
    ensures Replaced(Show(toks, d, done), pat, v) == Show(toks, d, done + fs)
  {
    forall i | 0 <= i < |toks| && toks[i].Fld? && toks[i].f !in fs
      ensures Clean(TextOf(toks[i], d, done), pat, k)
    {
      var f := toks[i].f;
      if f in done { assert NoLower(Value(d, f)); } else { OtherIsClean(pat, k, done + fs, f); }
    }
    ReplaceShow(toks, d, done, pat, k, fs, v);
  }

  lemma FormatHours(toks: seq<Token>, d: Stamp)
    requires Template(toks) && Printable(d)
    ensures Replaced(Replaced(Spec(toks, d), "hh", d.hh), "mi", d.mm) == Show(toks, d, {HH, MI})
  {
    FormatStep(toks, d, {}, "hh", 'h', {HH}, d.hh);
    assert {} + {HH} == {HH};
    FormatStep(toks, d, {HH}, "mi", 'i', {MI}, d.mm);
    assert {HH} + {MI} == {HH, MI};
  }

  lemma FormatSeconds(toks: seq<Token>, d: Stamp, ns: string)
    requires Template(toks) && Printable(d)
    ensures Replaced(Replaced(Show(toks, d, {HH, MI}), "ss", d.ss), "ns", ns) == Show(toks, d, {HH, MI, SS})
  {
    FormatStep(toks, d, {HH, MI}, "ss", 's', {SS}, d.ss);
    assert {HH, MI} + {SS} == {HH, MI, SS};
    FormatStep(toks, d, {HH, MI, SS}, "ns", 'n', {}, ns);
    assert {HH, MI, SS} + {} == {HH, MI, SS};
  }

  lemma FormatDays(toks: seq<Token>, d: Stamp)
    requires Template(toks) && Printable(d)
    ensures var t5 := Replaced(Show(toks, d, {HH, MI, SS}), "ddd", d.dayw);
      Replaced(t5, "dd", d.day) == Show(toks, d, {HH, MI, SS, DDD, DD})
  {
    FormatStep(toks, d, {HH, MI, SS}, "ddd", 'd', {DDD}, d.dayw);
    assert {HH, MI, SS} + {DDD} == {HH, MI, SS, DDD};
    FormatStep(toks, d, {HH, MI, SS, DDD}, "dd", 'd', {DD}, d.day);
    assert {HH, MI, SS, DDD} + {DD} == {HH, MI, SS, DDD, DD};
  }

  lemma FormatMonths(toks: seq<Token>, d: Stamp)
    requires Template(toks) && Printable(d)
    ensures var t7 := Replaced(Show(toks, d, {HH, MI, SS, DDD, DD}), "mmm", d.monthw);
      Replaced(t7, "mm", d.month) == Show(toks, d, {HH, MI, SS, DDD, DD, MMM, MM})
  {
    FormatStep(toks, d, {HH, MI, SS, DDD, DD}, "mmm", 'm', {MMM}, d.monthw);
    assert {HH, MI, SS, DDD, DD} + {MMM} == {HH, MI, SS, DDD, DD, MMM};
    FormatStep(toks, d, {HH, MI, SS, DDD, DD, MMM}, "mm", 'm', {MM}, d.month);
    assert {HH, MI, SS, DDD, DD, MMM} + {MM} == {HH, MI, SS, DDD, DD, MMM, MM};
  }

  lemma FormatYears(toks: seq<Token>, d: Stamp, yy: string)
    requires Template(toks) && Printable(d)
    ensures var t9 := Replaced(Show(toks, d, {HH, MI, SS, DDD, DD, MMM, MM}), "yyyy", d.year);
      Replaced(t9, "yy", yy) == Printed(toks, d)
  {
    FormatStep(toks, d, {HH, MI, SS, DDD, DD, MMM, MM}, "yyyy", 'y', {YYYY}, d.year);
    assert {HH, MI, SS, DDD, DD, MMM, MM} + {YYYY} == ALL;
    FormatStep(toks, d, ALL, "yy", 'y', {}, yy);
    assert ALL + {} == ALL;
  }

  /** The ten replacements of `format` together write every field once, whatever the template. */
  lemma FormatShows(toks: seq<Token>, d: Stamp, showFloat: real -> string)
    requires Template(toks) && Printable(d)
    ensures Formatted(Spec(toks, d), d, showFloat) == Ok(Printed(toks, d) + ZoneSuffix(d.timeZoneOffset, showFloat))
  {
    FormatHours(toks, d);
    FormatSeconds(toks, d, IntToStr(d.nanoseconds));
    FormatDays(toks, d);
    FormatMonths(toks, d);
    FormatYears(toks, d, d.year[2..]);
  }

  // ---------------------------------------------------------------- cutting a field out of both strings

  function Without(toks: seq<Token>, f: Field): seq<Token> {
    if toks == [] then []
    else (if toks[0] == Fld(f) then [] else [toks[0]]) + Without(toks[1..], f)
  }

  predicate Has(toks: seq<Token>, f: Field) {
    toks != [] && (toks[0] == Fld(f) || Has(toks[1..], f))
  }

  lemma {:induction false} HasWithout(toks: seq<Token>, f: Field, g: Field)
    ensures Has(Without(toks, f), g) <==> Has(toks, g) && g != f
  {
    if toks != [] {
      HasWithout(toks[1..], f, g);
      var rest := Without(toks[1..], f);
      assert ([toks[0]] + rest)[1..] == rest && [] + rest == rest;
    }
  }

  lemma HoldsWithout(toks: seq<Token>, f: Field)
    ensures forall g :: Has(Without(toks, f), g) <==> Has(toks, g) && g != f
  {
    forall g ensures Has(Without(toks, f), g) <==> Has(toks, g) && g != f { HasWithout(toks, f, g); }
  }

  lemma {:induction false} HasAt(toks: seq<Token>, i: nat)
    requires i < |toks| && toks[i].Fld?
    ensures Has(toks, toks[i].f)
  {
    if i > 0 { HasAt(toks[1..], i - 1); }
  }

  /** Every field prints as many characters as its name has, which keeps the two strings aligned. */
  predicate Sized(d: Stamp) { forall f: Field :: |Value(d, f)| == |Name(f)| }

  lemma InAll(f: Field)
    ensures f in ALL
  {
    match f
    case YYYY => case DDD => case DD => case MMM => case MM => case HH => case MI => case SS =>
  }

  /** The fields of `gone` no longer occur. */
  predicate Lacks(toks: seq<Token>, gone: set<Field>) { forall f :: f in gone ==> !Has(toks, f) }

  lemma {:induction false} ShowAppend(a: seq<Token>, b: seq<Token>, d: Stamp, done: set<Field>)
    ensures Show(a + b, d, done) == Show(a, d, done) + Show(b, d, done)
  {
    if a == [] {
      assert a + b == b;
    } else {
      ShowAppend(a[1..], b, d, done);
      assert (a + b)[1..] == a[1..] + b && (a + b)[0] == a[0];
      ConcatAssoc(TextOf(a[0], d, done), Show(a[1..], d, done), Show(b, d, done));
    }
  }

  lemma {:induction false} ShowAligned(toks: seq<Token>, d: Stamp)
    requires Sized(d)
    ensures |Spec(toks, d)| == |Printed(toks, d)|
  {
    if toks != [] {
      ShowAligned(toks[1..], d);
      if toks[0].Fld? { InAll(toks[0].f); }
    }
  }

  lemma {:induction false} WithoutAppend(a: seq<Token>, b: seq<Token>, f: Field)
    ensures Without(a + b, f) == Without(a, f) + Without(b, f)
  {
    if a == [] {
      assert a + b == b;
    } else {
      WithoutAppend(a[1..], b, f);
      var head := if a[0] == Fld(f) then [] else [a[0]];
      assert (a + b)[1..] == a[1..] + b && (a + b)[0] == a[0];
      ConcatAssoc(head, Without(a[1..], f), Without(b, f));
    }
  }

  lemma FoundAtStart(pat: string, rest: string)
    ensures Find(pat + rest, pat) == 0
  {
    assert (pat + rest)[0..|pat|] == pat;
    FindIs(pat + rest, pat, 0);
  }

  /** The search for a field name stops at the first token of that field, or nowhere. */
  lemma {:induction false} FindShow(toks: seq<Token>, d: Stamp, pat: string, k: char, f: Field) returns (i: nat)
    requires Template(toks) && Sole(toks, d, {}, pat, k, {f})
    ensures i <= |toks| && (i < |toks| <==> Has(toks, f)) && forall j :: 0 <= j < i ==> toks[j] != Fld(f)
    ensures i == |toks| ==> Find(Spec(toks, d), pat) == -1
    ensures i < |toks| ==> toks[i] == Fld(f) && Find(Spec(toks, d), pat) == |Spec(toks[..i], d)|
  {
    if toks == [] {
      i := 0;
    } else if toks[0] == Fld(f) {
      i := 0;
      FoundFirst(toks, d, pat, k, f);
    } else {
      SkipToken(toks, d, {}, pat, k, {f}, "");
      SoleBehind(toks, d, {}, pat, k, {f});
      var j := FindShow(toks[1..], d, pat, k, f);
      FoundBehind(toks, j, d, pat, f);
      i := j + 1;
    }
  }

  lemma SoleBehind(toks: seq<Token>, d: Stamp, done: set<Field>, pat: string, k: char, fs: set<Field>)
    requires toks != [] && Template(toks) && Sole(toks, d, done, pat, k, fs)
    ensures Template(toks[1..]) && Sole(toks[1..], d, done, pat, k, fs)
  {}

  lemma FoundFirst(toks: seq<Token>, d: Stamp, pat: string, k: char, f: Field)
    requires Sole(toks, d, {}, pat, k, {f}) && toks != [] && toks[0] == Fld(f)
    ensures Find(Spec(toks, d), pat) == 0 == |Spec(toks[..0], d)|
  {
    assert f in {f} && Name(f) == pat;
    FoundAtStart(pat, Spec(toks[1..], d));
  }

  lemma FoundBehind(toks: seq<Token>, j: nat, d: Stamp, pat: string, f: Field)
    requires toks != [] && toks[0] != Fld(f) && j < |toks|
    requires Find(Spec(toks, d), pat) ==
      var n := Find(Spec(toks[1..], d), pat); if n == -1 then -1 else |TextOf(toks[0], d, {})| + n
    requires j == |toks| - 1 ==> Find(Spec(toks[1..], d), pat) == -1
    requires j < |toks| - 1 ==> toks[1..][j] == Fld(f) && Find(Spec(toks[1..], d), pat) == |Spec(toks[1..][..j], d)|
    ensures j + 1 == |toks| ==> Find(Spec(toks, d), pat) == -1
    ensures j + 1 < |toks| ==> toks[j + 1] == Fld(f) && Find(Spec(toks, d), pat) == |Spec(toks[..j + 1], d)|
  {
    if j < |toks| - 1 { PrefixLength(toks, j, d); }
  }

  lemma PrefixLength(toks: seq<Token>, j: nat, d: Stamp)
    requires j < |toks| - 1
    ensures |Spec(toks[..j + 1], d)| == |TextOf(toks[0], d, {})| + |Spec(toks[1..][..j], d)|
  {
    assert toks[..j + 1][1..] == toks[1..][..j];
  }

  /** Cutting one occurrence takes the same stretch out of template and text. */
  lemma CutOnce(pre: seq<Token>, post: seq<Token>, f: Field, d: Stamp)
    requires Sized(d)
    ensures var toks := pre + [Fld(f)] + post;
      var ytemp, str, p, n := Spec(toks, d), Printed(toks, d), |Spec(pre, d)|, |Name(f)|;
      && p + n <= |ytemp| == |str|
      && ytemp[..p] + "" + ytemp[p + n..] == Spec(pre + post, d)
      && str[p..p + n] == Value(d, f)
      && str[..p] + str[p + n..] == Printed(pre + post, d)
  {
    Split3(pre, post, f, d, {});
    Split3(pre, post, f, d, ALL);
    Slices(Spec(pre, d), Name(f), Spec(post, d));
    Slices(Printed(pre, d), Value(d, f), Printed(post, d));
    ShowAligned(pre, d);
    ShowAligned(post, d);
    InAll(f);
  }

  lemma Slices(a: string, b: string, c: string)
    ensures (a + b + c)[..|a|] == a && (a + b + c)[|a|..|a| + |b|] == b && (a + b + c)[|a| + |b|..] == c
    ensures a + "" + c == a + c
  {}

  lemma Split3(pre: seq<Token>, post: seq<Token>, f: Field, d: Stamp, done: set<Field>)
    ensures Show(pre + [Fld(f)] + post, d, done)
         == Show(pre, d, done) + TextOf(Fld(f), d, done) + Show(post, d, done)
    ensures Show(pre + post, d, done) == Show(pre, d, done) + Show(post, d, done)
  {
    ShowAppend(pre + [Fld(f)], post, d, done);
    ShowAppend(pre, [Fld(f)], d, done);
    ShowAppend(pre, post, d, done);
  }

  lemma TemplateWithoutOne(pre: seq<Token>, post: seq<Token>, f: Field)
    requires Template(pre + [Fld(f)] + post)
    ensures Template(pre + post)
  {
    var toks, rest := pre + [Fld(f)] + post, pre + post;
    forall i | 0 <= i < |rest| && rest[i].Lit? ensures rest[i].c !in FIELD_LETTERS {
      assert rest[i] == if i < |pre| then toks[i] else toks[i + 1];
    }
    forall i | 0 < i < |rest| && rest[i].Fld? ensures rest[i - 1].Lit? {
      if i < |pre| {
        assert toks[i].Fld? && toks[i - 1] == rest[i - 1];
      } else {
        assert toks[i + 1] == rest[i] && toks[i].Lit?;
        assert toks[|pre|] == Fld(f);
      }
    }
  }

  /** With the fields of `gone` out of the way, only `f` can match. */
  predicate Searchable(f: Field, pat: string, k: char, gone: set<Field>) {
    Name(f) == pat && IsPattern(pat, k) && OthersClean(pat, k, gone + {f})
  }

  lemma SearchableIsSole(toks: seq<Token>, d: Stamp, f: Field, pat: string, k: char, gone: set<Field>)
    requires Lacks(toks, gone) && Searchable(f, pat, k, gone)
    ensures Sole(toks, d, {}, pat, k, {f})
  {
    forall i | 0 <= i < |toks| && toks[i].Fld? && toks[i].f !in {f}
      ensures Clean(TextOf(toks[i], d, {}), pat, k)
    {
      HasAt(toks, i);
      OtherIsClean(pat, k, gone + {f}, toks[i].f);
    }
  }

  lemma {:induction false} CutLoopShow(toks: seq<Token>, d: Stamp, f: Field, pat: string, k: char, gone: set<Field>, msg: string)
    requires Template(toks) && Sized(d) && Lacks(toks, gone) && Searchable(f, pat, k, gone)
    ensures var rest := Without(toks, f);
      && Template(rest) && Lacks(rest, gone + {f})
      && CutLoop(Value(d, f), Spec(toks, d), Printed(toks, d), pat, msg)
         == Ok(Cut(Value(d, f), Spec(rest, d), Printed(rest, d)))
    decreases |toks|
  {
    SearchableIsSole(toks, d, f, pat, k, gone);
    var i := FindShow(toks, d, pat, k, f);
    HoldsWithout(toks, f);
    if i == |toks| {
      WithoutNothing(toks, f);
    } else {
      var rest := toks[..i] + toks[i + 1..];
      forall g | g in gone ensures !Has(rest, g) { if Has(rest, g) { HasMore(toks, i, g); assert false; } }
      CutStep(toks, i, d, f, pat, msg);
      CutLoopShow(rest, d, f, pat, k, gone, msg);
    }
  }

  lemma {:induction false} HasMore(toks: seq<Token>, i: nat, g: Field)
    requires i < |toks| && Has(toks[..i] + toks[i + 1..], g)
    ensures Has(toks, g)
  {
    var rest := toks[..i] + toks[i + 1..];
    if i == 0 {
      assert rest == toks[1..];
    } else {
      assert rest[1..] == toks[1..][..i - 1] + toks[1..][i..];
      if rest[0] != Fld(g) { HasMore(toks[1..], i - 1, g); }
    }
  }

  /** One round of the loop: it goes on with the same token list, one token shorter. */
  lemma CutStep(toks: seq<Token>, i: nat, d: Stamp, f: Field, pat: string, msg: string)
    requires Template(toks) && Sized(d) && Name(f) == pat
    requires i < |toks| && toks[i] == Fld(f) && Find(Spec(toks, d), pat) == |Spec(toks[..i], d)|
    ensures var rest := toks[..i] + toks[i + 1..];
      && Template(rest) && Without(rest, f) == Without(toks, f)
      && CutLoop(Value(d, f), Spec(toks, d), Printed(toks, d), pat, msg)
         == CutLoop(Value(d, f), Spec(rest, d), Printed(rest, d), pat, msg)
      && Substr(Printed(toks, d), Find(Spec(toks, d), pat), |pat|) == Ok(Value(d, f))
  {
    var pre, post := toks[..i], toks[i + 1..];
    assert toks == pre + [Fld(f)] + post;
    CutMiddle(pre, post, d, f, pat, msg);
    TemplateWithoutOne(pre, post, f);
    WithoutMiddle(pre, post, f);
  }

  lemma CutMiddle(pre: seq<Token>, post: seq<Token>, d: Stamp, f: Field, pat: string, msg: string)
    requires Sized(d) && Name(f) == pat && Find(Spec(pre + [Fld(f)] + post, d), pat) == |Spec(pre, d)|
    ensures var toks, rest := pre + [Fld(f)] + post, pre + post;
      && CutLoop(Value(d, f), Spec(toks, d), Printed(toks, d), pat, msg)
         == CutLoop(Value(d, f), Spec(rest, d), Printed(rest, d), pat, msg)
      && Substr(Printed(toks, d), Find(Spec(toks, d), pat), |pat|) == Ok(Value(d, f))
  {
    var toks, rest := pre + [Fld(f)] + post, pre + post;
    CutOnce(pre, post, f, d);
    CutLoopUnfolds(Value(d, f), Spec(toks, d), Printed(toks, d), Spec(rest, d), Printed(rest, d), pat, msg, |Spec(pre, d)|);
  }

  lemma CutLoopUnfolds(value: string, ytemp: string, str: string, ytemp': string, str': string, pat: string, msg: string, p: nat)
    requires pat != "" && Find(ytemp, pat) == p
    requires p + |pat| <= |str| && str[p..p + |pat|] == value
    requires ytemp[..p] + "" + ytemp[p + |pat|..] == ytemp' && str[..p] + str[p + |pat|..] == str'
    ensures CutLoop(value, ytemp, str, pat, msg) == CutLoop(value, ytemp', str', pat, msg)
    ensures Substr(str, p, |pat|) == Ok(value)
  {
    assert Substr(str, p, |pat|) == Ok(value);
    assert SubstrFrom(str, p + |pat|) == Ok(str[p + |pat|..]);
    assert ReplaceFirst(ytemp, pat, "") == ytemp';
    CutLoopStep(value, ytemp, str, pat, msg);
  }

  lemma WithoutMiddle(pre: seq<Token>, post: seq<Token>, f: Field)
    ensures Without(pre + [Fld(f)] + post, f) == Without(pre + post, f)
  {
    WithoutAppend(pre + [Fld(f)], post, f);
    WithoutAppend(pre, [Fld(f)], f);
    WithoutAppend(pre, post, f);
    assert Without([Fld(f)], f) == [];
  }

  lemma {:induction false} WithoutNothing(toks: seq<Token>, f: Field)
    requires !Has(toks, f)
    ensures Without(toks, f) == toks
  {
    if toks != [] { WithoutNothing(toks[1..], f); }
  }

  lemma CutFieldShow(toks: seq<Token>, d: Stamp, f: Field, pat: string, k: char, gone: set<Field>, msg: string)
    requires Template(toks) && Sized(d) && Lacks(toks, gone) && Searchable(f, pat, k, gone)
    ensures var rest := Without(toks, f);
      && Template(rest) && Lacks(rest, gone + {f})
      && CutField(Spec(toks, d), Printed(toks, d), pat, msg)
         == Ok(Cut(if Has(toks, f) then Value(d, f) else "", Spec(rest, d), Printed(rest, d)))
    ensures Find(Spec(toks, d), pat) != -1 <==> Has(toks, f)
    ensures forall g :: Has(Without(toks, f), g) <==> Has(toks, g) && g != f
  {
    HoldsWithout(toks, f);
    SearchableIsSole(toks, d, f, pat, k, gone);
    var i := FindShow(toks, d, pat, k, f);
    CutLoopShow(toks, d, f, pat, k, gone, msg);
    if i == |toks| {
      WithoutNothing(toks, f);
    } else {
      CutStep(toks, i, d, f, pat, msg);
    }
  }

  /** Text behind the printed template stays there while a field is cut. */
  lemma {:induction false} CutLoopTail(value: string, temp: string, str: string, pat: string, msg: string, z: string)
    requires pat != "" && |value| == |pat| && CutLoop(value, temp, str, pat, msg).Ok?
    ensures var c := CutLoop(value, temp, str, pat, msg).value;
      c.value == value && CutLoop(value, temp, str + z, pat, msg) == Ok(Cut(value, c.temp, c.str + z))
    decreases |temp|
  {
    var p, n := Find(temp, pat), |pat|;
    if p != -1 {
      TailStays(str, z, p, n);
      CutLoopTail(value, ReplaceFirst(temp, pat, ""), str[..p] + str[p + n..], pat, msg, z);
    }
  }

  lemma TailStays(str: string, z: string, p: nat, n: nat)
    requires p + n <= |str|
    ensures Substr(str + z, p, n) == Substr(str, p, n) == Ok(str[p..p + n])
    ensures SubstrFrom(str + z, p + n) == Ok(str[p + n..] + z)
    ensures (str + z)[..p] + (str[p + n..] + z) == (str[..p] + str[p + n..]) + z
  {
    assert (str + z)[p..p + n] == str[p..p + n] && (str + z)[..p] == str[..p] && (str + z)[p + n..] == str[p + n..] + z;
  }

  lemma CutFieldTail(toks: seq<Token>, d: Stamp, f: Field, pat: string, k: char, gone: set<Field>, msg: string, z: string)
    requires Template(toks) && Sized(d) && Lacks(toks, gone) && Searchable(f, pat, k, gone)
    ensures var rest := Without(toks, f);
      && Template(rest) && Lacks(rest, gone + {f})
      && CutField(Spec(toks, d), Printed(toks, d) + z, pat, msg)
         == Ok(Cut(if Has(toks, f) then Value(d, f) else "", Spec(rest, d), Printed(rest, d) + z))
    ensures Find(Spec(toks, d), pat) != -1 <==> Has(toks, f)
    ensures forall g :: Has(Without(toks, f), g) <==> Has(toks, g) && g != f
  {
    CutFieldShow(toks, d, f, pat, k, gone, msg);
    if Has(toks, f) { CutFieldMore(Spec(toks, d), Printed(toks, d), pat, msg, Value(d, f), z); }
  }

  lemma CutFieldMore(temp: string, str: string, pat: string, msg: string, value: string, z: string)
    requires pat != "" && Find(temp, pat) != -1 && |value| == |pat|
    requires CutField(temp, str, pat, msg).Ok? && CutField(temp, str, pat, msg).value.value == value
    ensures var c := CutField(temp, str, pat, msg).value;
      CutField(temp, str + z, pat, msg) == Ok(Cut(value, c.temp, c.str + z))
  {
    var p, n := Find(temp, pat), |pat|;
    CutLoopValue(Substr(str, p, n).value, temp, str, pat, msg);
    TailStays(str, z, p, n);
    CutLoopTail(value, temp, str, pat, msg, z);
  }

  lemma {:induction false} CutLoopValue(value: string, temp: string, str: string, pat: string, msg: string)
    requires pat != "" && CutLoop(value, temp, str, pat, msg).Ok?
    ensures CutLoop(value, temp, str, pat, msg).value.value == value
    decreases |temp|
  {
    var p := Find(temp, pat);
    if p != -1 {
      var tail := SubstrFrom(str, p + |pat|).value;
      CutLoopValue(value, ReplaceFirst(temp, pat, ""), str[..p] + tail, pat, msg);
    }
  }

  // ---------------------------------------------------------------- parse on what format printed

  /** The fields `parse` needs, in either spelling of the month. */
  predicate Complete(toks: seq<Token>) {
    && Has(toks, YYYY) && Has(toks, DD) && (Has(toks, MMM) || Has(toks, MM))
    && Has(toks, HH) && Has(toks, MI) && Has(toks, SS)
  }

  /** What is left of a template when `parse` has cut all it looks for: a numeric month stays behind
      when the month is also there by name. */
  function Residue(toks: seq<Token>): seq<Token> {
    Without(Without(Without(Monthless(Dateless(toks)), HH), MI), SS)
  }

  function Read(toks: seq<Token>, d: Stamp, f: Field): string {
    if Has(toks, f) then Value(d, f) else ""
  }

  lemma CutYearAndWeekday(toks: seq<Token>, d: Stamp, z: string)
    requires Template(toks) && Sized(d) && Has(toks, YYYY)
    ensures var t1 := Without(toks, YYYY); var t2 := Without(t1, DDD);
      && Find(Spec(toks, d), "yyyy") != -1
      && CutField(Spec(toks, d), Printed(toks, d) + z, "yyyy", MANY_YYYY) == Ok(Cut(d.year, Spec(t1, d), Printed(t1, d) + z))
      && CutField(Spec(t1, d), Printed(t1, d) + z, "ddd", MANY_DDD) == Ok(Cut(Read(toks, d, DDD), Spec(t2, d), Printed(t2, d) + z))
      && Template(t2) && Lacks(t2, {YYYY, DDD})
  {
    var t1 := Without(toks, YYYY);
    CutFieldTail(toks, d, YYYY, "yyyy", 'y', {}, MANY_YYYY, z);
    CutFieldTail(t1, d, DDD, "ddd", 'd', {YYYY}, MANY_DDD, z);
  }

  lemma CutDay(t: seq<Token>, d: Stamp, z: string)
    requires Template(t) && Sized(d) && Lacks(t, {YYYY, DDD})
    ensures var u := Without(t, DD);
      && CutField(Spec(t, d), Printed(t, d) + z, "dd", MANY_DD) == Ok(Cut(Read(t, d, DD), Spec(u, d), Printed(u, d) + z))
      && Template(u) && Lacks(u, {YYYY, DDD, DD})
  {
    CutFieldTail(t, d, DD, "dd", 'd', {YYYY, DDD}, MANY_DD, z);
  }

  lemma CutMonth(t: seq<Token>, d: Stamp, z: string)
    requires Template(t) && Sized(d) && Lacks(t, {YYYY, DDD, DD})
    ensures var named := Has(t, MMM); var u := Without(t, if named then MMM else MM);
      && (Find(Spec(t, d), "mmm") != -1 <==> named)
      && (if named then CutField(Spec(t, d), Printed(t, d) + z, "mmm", MANY_MMM) else CutField(Spec(t, d), Printed(t, d) + z, "mm", MANY_MM))
         == Ok(Cut(if named then d.monthw else Read(t, d, MM), Spec(u, d), Printed(u, d) + z))
      && Template(u) && Lacks(u, {YYYY, DDD, DD, MMM})
  {
    CutFieldTail(t, d, MMM, "mmm", 'm', {YYYY, DDD, DD}, MANY_MMM, z);
    if !Has(t, MMM) {
      CutFieldTail(t, d, MM, "mm", 'm', {YYYY, DDD, DD, MMM}, MANY_MM, z);
    }
  }

  lemma CutHours(t: seq<Token>, d: Stamp, z: string)
    requires Template(t) && Sized(d) && Lacks(t, {YYYY, DDD, DD, MMM})
    ensures var t1 := Without(t, HH); var t2 := Without(t1, MI);
      && CutField(Spec(t, d), Printed(t, d) + z, "hh", MANY_HH) == Ok(Cut(Read(t, d, HH), Spec(t1, d), Printed(t1, d) + z))
      && CutField(Spec(t1, d), Printed(t1, d) + z, "mi", MANY_MI) == Ok(Cut(Read(t1, d, MI), Spec(t2, d), Printed(t2, d) + z))
      && Template(t2) && Lacks(t2, {YYYY, DDD, DD, MMM, HH, MI})
  {
    CutHour(t, d, z);
    CutMinute(Without(t, HH), d, z);
  }

  lemma CutHour(t: seq<Token>, d: Stamp, z: string)
    requires Template(t) && Sized(d) && Lacks(t, {YYYY, DDD, DD, MMM})
    ensures var t1 := Without(t, HH);
      && CutField(Spec(t, d), Printed(t, d) + z, "hh", MANY_HH) == Ok(Cut(Read(t, d, HH), Spec(t1, d), Printed(t1, d) + z))
      && Template(t1) && Lacks(t1, {YYYY, DDD, DD, MMM, HH})
  {
    CutFieldTail(t, d, HH, "hh", 'h', {YYYY, DDD, DD, MMM}, MANY_HH, z);
  }

  lemma CutMinute(t: seq<Token>, d: Stamp, z: string)
    requires Template(t) && Sized(d) && Lacks(t, {YYYY, DDD, DD, MMM, HH})
    ensures var t1 := Without(t, MI);
      && CutField(Spec(t, d), Printed(t, d) + z, "mi", MANY_MI) == Ok(Cut(Read(t, d, MI), Spec(t1, d), Printed(t1, d) + z))
      && Template(t1) && Lacks(t1, {YYYY, DDD, DD, MMM, HH, MI})
  {
    CutFieldTail(t, d, MI, "mi", 'i', {YYYY, DDD, DD, MMM, HH}, MANY_MI, z);
  }

  lemma CutSeconds(t: seq<Token>, d: Stamp, z: string)
    requires Template(t) && Sized(d) && Lacks(t, {YYYY, DDD, DD, MMM, HH, MI})
    ensures var u := Without(t, SS);
      && CutField(Spec(t, d), Printed(t, d) + z, "ss", MANY_SS) == Ok(Cut(Read(t, d, SS), Spec(u, d), Printed(u, d) + z))
      && Template(u) && Within(u)
  {
    CutFieldTail(t, d, SS, "ss", 's', {YYYY, DDD, DD, MMM, HH, MI}, MANY_SS, z);
    OnlyMonthLeft(Without(t, SS));
  }

  /** Of all fields at most the numeric month is left. */
  predicate Within(toks: seq<Token>) { forall i :: 0 <= i < |toks| && toks[i].Fld? ==> toks[i].f == MM }

  lemma OnlyMonthLeft(toks: seq<Token>)
    requires Lacks(toks, {YYYY, DDD, DD, MMM, HH, MI, SS})
    ensures Within(toks)
  {
    forall i | 0 <= i < |toks| && toks[i].Fld? ensures toks[i].f == MM {
      var f := toks[i].f;
      HasAt(toks, i);
      match f
      case YYYY => case DDD => case DD => case MMM => case MM => case HH => case MI => case SS =>
    }
  }

  /** `CutAll` when every step is known to succeed. */
  lemma CutAllSteps(spec: string, str: string, y: Cut, w: Cut, d: Cut, named: bool, m: Cut, h: Cut, i: Cut, s: Cut)
    requires Find(spec, "yyyy") != -1 && CutField(spec, str, "yyyy", MANY_YYYY) == Ok(y)
    requires CutField(y.temp, y.str, "ddd", MANY_DDD) == Ok(w)
    requires CutField(w.temp, w.str, "dd", MANY_DD) == Ok(d)
    requires named <==> Find(d.temp, "mmm") != -1
    requires (if named then CutField(d.temp, d.str, "mmm", MANY_MMM) else CutField(d.temp, d.str, "mm", MANY_MM)) == Ok(m)
    requires CutField(m.temp, m.str, "hh", MANY_HH) == Ok(h)
    requires CutField(h.temp, h.str, "mi", MANY_MI) == Ok(i)
    requires CutField(i.temp, i.str, "ss", MANY_SS) == Ok(s)
    ensures CutAll(spec, str)
         == Ok(Fields(y.value, "", w.value, d.value, if named then m.value else "", if named then "" else m.value,
                      h.value, i.value, s.value, s.temp, s.str))
  {}

  /** Cutting other fields leaves the tokens of `g` in place. */
  lemma KeptByDate(toks: seq<Token>, g: Field)
    requires g !in {YYYY, DDD, DD}
    ensures Has(Without(Without(Without(toks, YYYY), DDD), DD), g) <==> Has(toks, g)
  {
    HasWithout(toks, YYYY, g);
    HasWithout(Without(toks, YYYY), DDD, g);
    HasWithout(Without(Without(toks, YYYY), DDD), DD, g);
  }

  lemma KeptByMonth(t: seq<Token>, m: Field, g: Field)
    requires m in {MMM, MM} && g in {HH, MI, SS}
    ensures Has(Without(t, m), g) <==> Has(t, g)
    ensures g != HH ==> (Has(Without(Without(t, m), HH), g) <==> Has(t, g))
    ensures g == SS ==> (Has(Without(Without(Without(t, m), HH), MI), g) <==> Has(t, g))
  {
    HasWithout(t, m, g);
    HasWithout(Without(t, m), HH, g);
    HasWithout(Without(Without(t, m), HH), MI, g);
  }

  function CutTo(value: string, toks: seq<Token>, d: Stamp, z: string): Cut {
    Cut(value, Spec(toks, d), Printed(toks, d) + z)
  }

  /** The template in front of each step of the cutting phase. */
  function Dateless(toks: seq<Token>): seq<Token> { Without(Without(Without(toks, YYYY), DDD), DD) }

  function Monthless(t: seq<Token>): seq<Token> { Without(t, if Has(t, MMM) then MMM else MM) }

  /** The cutting phase step by step. */
  lemma CutAllStepwise(toks: seq<Token>, d: Stamp, z: string)
    requires Template(toks) && Sized(d) && Has(toks, YYYY)
    ensures var r, t2, t3 := Residue(toks), Without(Without(toks, YYYY), DDD), Dateless(toks);
      var named, t4 := Has(t3, MMM), Monthless(t3);
      && CutAll(Spec(toks, d), Printed(toks, d) + z)
         == Ok(Fields(d.year, "", Read(toks, d, DDD), Read(t2, d, DD), if named then d.monthw else "",
                      if named then "" else Read(t3, d, MM), Read(t4, d, HH), Read(Without(t4, HH), d, MI),
                      Read(Without(Without(t4, HH), MI), d, SS), Spec(r, d), Printed(r, d) + z))
      && Within(r)
  {
    var t1 := Without(toks, YYYY);
    var t2, t3 := Without(t1, DDD), Dateless(toks);
    var named, t4 := Has(t3, MMM), Monthless(t3);
    var t5 := Without(t4, HH);
    var t6 := Without(t5, MI);
    CutYearAndWeekday(toks, d, z);
    CutDay(t2, d, z);
    CutMonth(t3, d, z);
    CutHours(t4, d, z);
    CutSeconds(t6, d, z);
    CutAllSteps(Spec(toks, d), Printed(toks, d) + z, CutTo(d.year, t1, d, z), CutTo(Read(toks, d, DDD), t2, d, z),
                CutTo(Read(t2, d, DD), t3, d, z), named, CutTo(if named then d.monthw else Read(t3, d, MM), t4, d, z),
                CutTo(Read(t4, d, HH), t5, d, z), CutTo(Read(t5, d, MI), t6, d, z),
                CutTo(Read(t6, d, SS), Without(t6, SS), d, z));
  }

  /** Each step still finds its own field. */
  lemma NothingCutTooSoon(toks: seq<Token>)
    requires Complete(toks)
    ensures var t2, t3 := Without(Without(toks, YYYY), DDD), Dateless(toks); var t4 := Monthless(t3);
      && Has(t2, DD) && (Has(t3, MMM) <==> Has(toks, MMM)) && (Has(t3, MMM) || Has(t3, MM))
      && Has(t4, HH) && Has(Without(t4, HH), MI) && Has(Without(Without(t4, HH), MI), SS)
  {
    HasWithout(toks, YYYY, DD);
    HasWithout(Without(toks, YYYY), DDD, DD);
    KeptByDate(toks, MMM); KeptByDate(toks, MM); KeptByDate(toks, HH); KeptByDate(toks, MI); KeptByDate(toks, SS);
    var t3 := Dateless(toks);
    var m := if Has(t3, MMM) then MMM else MM;
    KeptByMonth(t3, m, HH); KeptByMonth(t3, m, MI); KeptByMonth(t3, m, SS);
  }

  lemma EveryFieldRead(toks: seq<Token>, d: Stamp)
    requires Complete(toks)
    ensures var t2, t3 := Without(Without(toks, YYYY), DDD), Dateless(toks); var t4 := Monthless(t3);
      && Read(t2, d, DD) == d.day && Read(t4, d, HH) == d.hh
      && Read(Without(t4, HH), d, MI) == d.mm && Read(Without(Without(t4, HH), MI), d, SS) == d.ss
      && (Has(t3, MMM) <==> Has(toks, MMM)) && (!Has(t3, MMM) ==> Read(t3, d, MM) == d.month)
  {
    NothingCutTooSoon(toks);
  }

  /** The whole cutting phase on a printed date: every field is read back, and template and text
      are left with the same tokens. */
  lemma CutAllShow(toks: seq<Token>, d: Stamp, z: string)
    requires Template(toks) && Sized(d) && Complete(toks)
    ensures var r := Residue(toks); var named := Has(toks, MMM);
      && CutAll(Spec(toks, d), Printed(toks, d) + z)
         == Ok(Fields(d.year, "", Read(toks, d, DDD), d.day, if named then d.monthw else "", if named then "" else d.month,
                      d.hh, d.mm, d.ss, Spec(r, d), Printed(r, d) + z))
      && Within(r)
  {
    CutAllStepwise(toks, d, z);
    EveryFieldRead(toks, d);
  }

  // ---------------------------------------------------------------- the time zone left over

  /** The printed text from the first literal `c` on. */
  function From(toks: seq<Token>, c: char, d: Stamp): (s: string)
    ensures Lit(c) in toks ==> s != "" && s[0] == c
  {
    if toks == [] then "" else if toks[0] == Lit(c) then Printed(toks, d) else From(toks[1..], c, d)
  }

  /** What `parse` takes for the time zone of a date printed on this template. */
  function ZoneText(toks: seq<Token>, d: Stamp): string {
    var r := Residue(toks);
    if Lit('+') in r then From(r, '+', d)[1..]
    else if Lit('-') in r then From(r, '-', d)
    else ""
  }

  lemma {:induction false} FindSign(r: seq<Token>, d: Stamp, c: char)
    requires Within(r) && |d.month| == 2 && AllDigits(d.month) && c in "+-"
    ensures var p := Find(Printed(r, d), [c]);
      && Find(Spec(r, d), [c]) == p
      && (p == -1 <==> Lit(c) !in r)
      && (p != -1 ==> From(r, c, d) == Printed(r, d)[p..] && From(r, c, d) != "")
  {
    if r == [] {
    } else if r[0] == Lit(c) {
      var s, t := Printed(r, d), Spec(r, d);
      assert s[0..1] == [c] && t[0..1] == [c];
      FindIs(s, [c], 0);
      FindIs(t, [c], 0);
    } else {
      assert Within(r[1..]);
      FindSign(r[1..], d, c);
      SkipSignless(TextOf(r[0], d, ALL), Printed(r[1..], d), c);
      SkipSignless(TextOf(r[0], d, {}), Spec(r[1..], d), c);
      ShowsSign(r, d, c);
    }
  }

  lemma SkipSignless(t: string, rest: string, c: char)
    requires forall i :: 0 <= i < |t| ==> t[i] != c
    ensures Find(t + rest, [c]) == var n := Find(rest, [c]); if n == -1 then -1 else |t| + n
  {
    var s := t + rest;
    forall j | 0 <= j < |t| ensures !MatchAt(s, [c], j) {
      if j + 1 <= |s| { assert s[j..j + 1][0] == t[j]; }
    }
    SkipPrefix(t, rest, [c], "");
  }

  lemma ShowsSign(r: seq<Token>, d: Stamp, c: char)
    requires r != [] && Within(r) && |d.month| == 2 && AllDigits(d.month) && c in "+-" && r[0] != Lit(c)
    ensures forall i :: 0 <= i < |TextOf(r[0], d, ALL)| ==> TextOf(r[0], d, ALL)[i] != c
    ensures forall i :: 0 <= i < |TextOf(r[0], d, {})| ==> TextOf(r[0], d, {})[i] != c
    ensures |TextOf(r[0], d, ALL)| == |TextOf(r[0], d, {})|
  {
  }

  lemma ZoneOfResidue(toks: seq<Token>, d: Stamp)
    requires Within(Residue(toks)) && |d.month| == 2 && AllDigits(d.month)
    ensures var r := Residue(toks); Zone(Spec(r, d), Printed(r, d)) == Ok(ZoneText(toks, d))
  {
    var r := Residue(toks);
    FindSign(r, d, '+');
    FindSign(r, d, '-');
  }

  // ---------------------------------------------------------------- the round trip

  /** A date and time as the constructors and `setTime` leave it, with a four-digit year. */
  predicate Writable(c: Civil, h: int, mi: int, s: int) {
    Stable(c) && 1000 <= c.year <= 9999 && SetTimeTakes(h, mi, s)
  }

  lemma DigitsAreNotLower(t: string)
    requires AllDigits(t)
    ensures NoLower(t)
  {}

  lemma NumbersShape(c: Civil, h: int, mi: int, s: int)
    requires Writable(c, h, mi, s)
    ensures |Two(c.year)| == 4 && |Two(c.month)| == 2 && |Two(c.day)| == 2 && |Two(h)| == 2 && |Two(mi)| == 2 && |Two(s)| == 2
    ensures NoLower(Two(c.year)) && NoLower(Two(c.month)) && NoLower(Two(c.day)) && NoLower(Two(h)) && NoLower(Two(mi)) && NoLower(Two(s))
    ensures AllDigits(Two(c.month))
  {
    NumberShape(c.year); NumberShape(c.month); NumberShape(c.day); NumberShape(h); NumberShape(mi); NumberShape(s);
  }

  lemma NumberShape(n: nat)
    ensures AllDigits(Two(n)) && NoLower(Two(n))
    ensures n < 100 ==> |Two(n)| == 2
    ensures 1000 <= n < 10000 ==> |Two(n)| == 4
  {
    CastTwo(n);
    DigitsAreNotLower(Two(n));
  }

  lemma WritableShape(c: Civil, h: int, mi: int, s: int, tz: real)
    requires Writable(c, h, mi, s)
    ensures var d := Full(c, h, mi, s, tz);
      Sized(d) && Printable(d) && |d.month| == 2 && AllDigits(d.month)
  {
    var d := Full(c, h, mi, s, tz);
    NumbersShape(c, h, mi, s);
    NamesShape(c);
    FieldsShape(d);
  }

  lemma NamesShape(c: Civil)
    requires c.year >= 0 && Valid(c, GREGORIAN)
    ensures var month, day := MonthName(c.month), DayName(DayIndex(c.year, c.month, c.day));
      |month| == 3 && NoLower(month) && |day| == 3 && NoLower(day)
  {
    WeekdayIsOrdinal(c);
    GetMonOfName(c.month);
    MonthNameUpper(c.month);
    DayNameUpper(DayIndex(c.year, c.month, c.day));
  }

  lemma DayNameUpper(i: int)
    requires 0 <= i < 7
    ensures |DayName(i)| == 3 && NoLower(DayName(i))
  {
    DayNameShape(i);
  }

  lemma FieldsShape(d: Stamp)
    requires |d.year| == 4 && |d.dayw| == 3 && |d.day| == 2 && |d.monthw| == 3 && |d.month| == 2
    requires |d.hh| == 2 && |d.mm| == 2 && |d.ss| == 2
    requires NoLower(d.year) && NoLower(d.dayw) && NoLower(d.day) && NoLower(d.monthw) && NoLower(d.month)
    requires NoLower(d.hh) && NoLower(d.mm) && NoLower(d.ss)
    ensures Sized(d) && Printable(d)
  {
    forall f: Field ensures |Value(d, f)| == |Name(f)| && NoLower(Value(d, f)) {
      match f
      case YYYY => case DDD => case DD => case MMM => case MM => case HH => case MI => case SS =>
    }
  }

  lemma MonthNameUpper(m: int)
    requires 1 <= m <= 12
    ensures NoLower(MonthName(m))
  {
    GetMonOfName(m);
    var name := MonthName(m);
    assert ToUpper(name) == name;
    forall i | 0 <= i < |name| ensures !('a' <= name[i] <= 'z') { assert ToUpper(name)[i] == Upper(name[i]); }
  }

  lemma BuiltFromRead(c: Civil, f: Fields, now: Stamp)
    requires Stable(c) && c.year >= 1000
    requires f.yyyy == Two(c.year) && f.dd == Two(c.day)
    requires (f.mmm == MonthName(c.month) && f.mm == "") || (f.mmm == "" && f.mm == Two(c.month))
    ensures Built(f, now) == Ok(Full(c, 0, 0, 0, 0.0).(hh := now.hh, mm := now.mm, ss := now.ss))
  {
    CastTwo(c.year); CastTwo(c.month); CastTwo(c.day);
    MonthNameGiven(c.month);
    MadeByNameAgrees(c, now);
    MadeWrites(c, c, now);
  }

  lemma MonthNameGiven(m: int)
    requires 1 <= m <= 12
    ensures MonthName(m) != "" && Two(m) != ""
  {
    GetMonOfName(m);
    CastTwo(m);
  }

  lemma AssembledFromRead(c: Civil, h: int, mi: int, s: int, f: Fields, tzv: string, now: Stamp, strtod: string -> Result<real>)
    requires Writable(c, h, mi, s)
    requires f.yyyy == Two(c.year) && f.dd == Two(c.day) && f.hh == Two(h) && f.mi == Two(mi) && f.ss == Two(s)
    requires (f.mmm == MonthName(c.month) && f.mm == "") || (f.mmm == "" && f.mm == Two(c.month))
    requires f.ddd == "" || ToUpper(f.ddd) == DayName(DayIndex(c.year, c.month, c.day))
    ensures Assembled(f, tzv, now, strtod) == Zoned(Full(c, h, mi, s, 0.0), tzv, strtod)
  {
    var b := Full(c, 0, 0, 0, 0.0).(hh := now.hh, mm := now.mm, ss := now.ss);
    BuiltFromRead(c, f, now);
    TimeRead(h, b.hh);
    TimeRead(mi, b.mm);
    TimeRead(s, b.ss);
    AssembledFrom(f, b, tzv, now, strtod, h, mi, s);
    ZonedThenTimed(c, h, mi, s, b, tzv, strtod);
  }

  /** With the fields read, what is left of `parse` sets the zone and the time. */
  lemma AssembledFrom(f: Fields, b: Stamp, tzv: string, now: Stamp, strtod: string -> Result<real>, h: int, mi: int, s: int)
    requires Built(f, now) == Ok(b) && (f.ddd == "" || b.dayw == ToUpper(f.ddd))
    requires TimeField(f.hh, b.hh) == Ok(h) && TimeField(f.mi, b.mm) == Ok(mi) && TimeField(f.ss, b.ss) == Ok(s)
    ensures Assembled(f, tzv, now, strtod) ==
      var z := Zoned(b, tzv, strtod); if z.Ok? then Timed(z.value, h, mi, s) else z
  {
    var z := Zoned(b, tzv, strtod);
    if z.Ok? { assert z.value.(timeZoneOffset := 0.0) == b.(timeZoneOffset := 0.0); }
  }

  lemma ZonedThenTimed(c: Civil, h: int, mi: int, s: int, b: Stamp, tzv: string, strtod: string -> Result<real>)
    requires SetTimeTakes(h, mi, s) && b == Full(c, 0, 0, 0, 0.0).(hh := b.hh, mm := b.mm, ss := b.ss)
    ensures (var z := Zoned(b, tzv, strtod); if z.Ok? then Timed(z.value, h, mi, s) else z)
      == Zoned(Full(c, h, mi, s, 0.0), tzv, strtod)
  {}

  lemma WeekdayRead(c: Civil)
    requires c.year >= 0 && Valid(c, GREGORIAN)
    ensures var name := DayName(DayIndex(c.year, c.month, c.day)); ToUpper(name) == name
  {
    WeekdayIsOrdinal(c);
    DayNameShape(DayIndex(c.year, c.month, c.day));
  }

  lemma TimeRead(n: nat, current: string)
    ensures TimeField(Two(n), current) == Ok(n)
  {
    CastTwo(n);
  }

  /** Reading a printed date with any text behind it: the date and time come back, with the offset that
      `parse` makes of the text it takes for a time zone. */
  lemma ParseTail(toks: seq<Token>, c: Civil, h: int, mi: int, s: int, tz: real, z: string, now: Stamp, strtod: string -> Result<real>)
    requires Template(toks) && Complete(toks) && Writable(c, h, mi, s)
    ensures var d, r := Full(c, h, mi, s, tz), Residue(toks);
      Parsed(Spec(toks, d), Printed(toks, d) + z, now, strtod)
      == OnZone(Zone(Spec(r, d), Printed(r, d) + z), Full(c, h, mi, s, 0.0), strtod)
  {
    var d, r := Full(c, h, mi, s, tz), Residue(toks);
    WritableShape(c, h, mi, s, tz);
    CutAllShow(toks, d, z);
    var t := Zone(Spec(r, d), Printed(r, d) + z);
    if t.Ok? {
      WeekdayRead(c);
      AssembledFromRead(c, h, mi, s, CutAll(Spec(toks, d), Printed(toks, d) + z).value, t.value, now, strtod);
    }
  }

  /** The date with its offset set from the text found for it, or the exception of the search. */
  function OnZone(t: Result<string>, d: Stamp, strtod: string -> Result<real>): Result<Stamp> {
    var tzv :- t;
    Zoned(d, tzv, strtod)
  }

  /** Reading back what was printed: the very same date and time, or whatever the text that `parse`
      takes for a time zone makes of it. For every template, date, clock reading and strtod. */
  lemma ParsePrinted(toks: seq<Token>, c: Civil, h: int, mi: int, s: int, now: Stamp,
                     showFloat: real -> string, strtod: string -> Result<real>)
    requires Template(toks) && Complete(toks) && Writable(c, h, mi, s)
    ensures var d := Full(c, h, mi, s, 0.0);
      && Formatted(Spec(toks, d), d, showFloat) == Ok(Printed(toks, d))
      && Parsed(Spec(toks, d), Printed(toks, d), now, strtod) == Zoned(d, ZoneText(toks, d), strtod)
  {
    var d, r := Full(c, h, mi, s, 0.0), Residue(toks);
    WritableShape(c, h, mi, s, 0.0);
    FormatShows(toks, d, showFloat);
    assert Printed(toks, d) + "" == Printed(toks, d) && Printed(r, d) + "" == Printed(r, d);
    CutAllShow(toks, d, "");
    ZoneOfResidue(toks, d);
    ParseTail(toks, c, h, mi, s, 0.0, "", now, strtod);
  }

  /** No `+` or `-` among the literals. */
  predicate Signless(toks: seq<Token>) { Lit('+') !in toks && Lit('-') !in toks }

  lemma {:induction false} LiteralsStay(toks: seq<Token>, f: Field, t: Token)
    requires t.Lit?
    ensures t in Without(toks, f) <==> t in toks
  {
    if toks != [] { LiteralsStay(toks[1..], f, t); assert toks == [toks[0]] + toks[1..]; }
  }

  lemma ResidueLiterals(toks: seq<Token>, t: Token)
    requires t.Lit?
    ensures t in Residue(toks) <==> t in toks
  {
    var t1 := Without(toks, YYYY);
    var t2 := Without(t1, DDD);
    var t3 := Without(t2, DD);
    var m := if Has(t3, MMM) then MMM else MM;
    var t4 := Without(t3, m);
    LiteralsStay(toks, YYYY, t); LiteralsStay(t1, DDD, t); LiteralsStay(t2, DD, t); LiteralsStay(t3, m, t);
    LiteralsStay(t4, HH, t); LiteralsStay(Without(t4, HH), MI, t); LiteralsStay(Without(Without(t4, HH), MI), SS, t);
  }

  /** The inverse, on every template without a sign: all date and time fields come back, the weekday
      is checked and agrees, and the clock does not matter. */
  lemma RoundTrip(toks: seq<Token>, c: Civil, h: int, mi: int, s: int, now: Stamp,
                  showFloat: real -> string, strtod: string -> Result<real>)
    requires Template(toks) && Complete(toks) && Signless(toks) && Writable(c, h, mi, s)
    ensures var d := Full(c, h, mi, s, 0.0);
      var text := Formatted(Spec(toks, d), d, showFloat);
      text.Ok? && Parsed(Spec(toks, d), text.value, now, strtod) == Ok(d)
  {
    ParsePrinted(toks, c, h, mi, s, now, showFloat, strtod);
    ResidueLiterals(toks, Lit('+'));
    ResidueLiterals(toks, Lit('-'));
  }

  /** In general a printed date can be read back exactly when the text left from the first sign on is
      empty or a float, and then all date and time fields come back. */
  lemma ReadableExactly(toks: seq<Token>, c: Civil, h: int, mi: int, s: int, now: Stamp,
                        showFloat: real -> string, strtod: string -> Result<real>)
    requires Template(toks) && Complete(toks) && Writable(c, h, mi, s)
    ensures var d := Full(c, h, mi, s, 0.0);
      var r := Parsed(Spec(toks, d), Printed(toks, d), now, strtod);
      && (r.Ok? <==> ZoneText(toks, d) == "" || CastFloat(ZoneText(toks, d), strtod).Ok?)
      && (r.Ok? ==> r.value == d.(timeZoneOffset := r.value.timeZoneOffset))
      && (r.Throw? ==> r.message == "Invalid Timezone specified")
  {
    ParsePrinted(toks, c, h, mi, s, now, showFloat, strtod);
  }

  // ---------------------------------------------------------------- the weekday check

  /** With another text in place of the weekday all else is read as before. */
  lemma OtherWeekdayRead(toks: seq<Token>, c: Civil, h: int, mi: int, s: int, w: string)
    requires Template(toks) && Complete(toks) && Has(toks, DDD) && Writable(c, h, mi, s) && |w| == 3
    ensures var d := Full(c, h, mi, s, 0.0).(dayw := w); var r := CutAll(Spec(toks, d), Printed(toks, d));
      && r.Ok? && Zone(r.value.temp, r.value.str) == Ok(ZoneText(toks, d))
      && var f := r.value;
         && f.ddd == w && f.yyyy == Two(c.year) && f.dd == Two(c.day) && f.hh == Two(h) && f.mi == Two(mi) && f.ss == Two(s)
         && ((f.mmm == MonthName(c.month) && f.mm == "") || (f.mmm == "" && f.mm == Two(c.month)))
  {
    var d := Full(c, h, mi, s, 0.0).(dayw := w);
    OtherIsSized(c, h, mi, s, w);
    CutAllShow(toks, d, "");
    assert Printed(toks, d) + "" == Printed(toks, d) && Printed(Residue(toks), d) + "" == Printed(Residue(toks), d);
    ZoneOfResidue(toks, d);
  }

  lemma OtherIsSized(c: Civil, h: int, mi: int, s: int, w: string)
    requires Writable(c, h, mi, s) && |w| == 3
    ensures var d := Full(c, h, mi, s, 0.0).(dayw := w); Sized(d) && |d.month| == 2 && AllDigits(d.month)
  {
    var d, e := Full(c, h, mi, s, 0.0), Full(c, h, mi, s, 0.0).(dayw := w);
    WritableShape(c, h, mi, s, 0.0);
    forall f: Field ensures |Value(e, f)| == |Name(f)| { assert f != DDD ==> Value(e, f) == Value(d, f); }
  }

  lemma AssembledOnWrongDay(f: Fields, b: Stamp, tzv: string, now: Stamp, strtod: string -> Result<real>)
    requires Built(f, now) == Ok(b) && f.ddd != "" && b.dayw != ToUpper(f.ddd) && Zoned(b, tzv, strtod).Ok?
    ensures Assembled(f, tzv, now, strtod) == Throw("Invalid Day(ddd) specified")
  {}

  /** Whatever stands in the places of the weekday: the text is refused for it exactly when that is not,
      in any case of its letters, the name of the day's Gregorian weekday; else the date comes back. */
  lemma WeekdayCheckedExactly(toks: seq<Token>, c: Civil, h: int, mi: int, s: int, w: string, now: Stamp,
                              strtod: string -> Result<real>)
    requires Template(toks) && Complete(toks) && Has(toks, DDD) && Writable(c, h, mi, s) && |w| == 3
    requires var t := ZoneText(toks, Full(c, h, mi, s, 0.0).(dayw := w)); t == "" || CastFloat(t, strtod).Ok?
    ensures var d := Full(c, h, mi, s, 0.0); var v := d.(dayw := w);
      var r := Parsed(Spec(toks, v), Printed(toks, v), now, strtod);
      && (r == Throw("Invalid Day(ddd) specified") <==> !NamesWeekday(ToUpper(w), Ordinal(c) % 7))
      && (NamesWeekday(ToUpper(w), Ordinal(c) % 7) ==> r.Ok? && r.value == d.(timeZoneOffset := r.value.timeZoneOffset))
  {
    var v := Full(c, h, mi, s, 0.0).(dayw := w);
    OtherWeekdayRead(toks, c, h, mi, s, w);
    OwnWeekday(c, ToUpper(w));
    var f := CutAll(Spec(toks, v), Printed(toks, v)).value;
    if NamesWeekday(ToUpper(w), Ordinal(c) % 7) {
      AssembledFromRead(c, h, mi, s, f, ZoneText(toks, v), now, strtod);
    } else {
      BuiltFromRead(c, f, now);
      AssembledOnWrongDay(f, Full(c, 0, 0, 0, 0.0).(hh := now.hh, mm := now.mm, ss := now.ss), ZoneText(toks, v), now, strtod);
    }
  }

  lemma OwnWeekday(c: Civil, w: string)
    requires c.year >= 1 && Valid(c, GREGORIAN)
    ensures NamesWeekday(w, Ordinal(c) % 7) <==> w == DayName(DayIndex(c.year, c.month, c.day))
  {
    WeekdayIsOrdinal(c);
    DayNameNames(Ordinal(c) % 7);
  }

  // ---------------------------------------------------------------- what the literals alone decide

  function Lits(toks: seq<Token>): string {
    if toks == [] then "" else (if toks[0].Lit? then [toks[0].c] else "") + Lits(toks[1..])
  }

  lemma {:induction false} LitsWithout(toks: seq<Token>, f: Field)
    ensures Lits(Without(toks, f)) == Lits(toks)
  {
    if toks != [] {
      LitsWithout(toks[1..], f);
      var rest := Without(toks[1..], f);
      assert ([toks[0]] + rest)[1..] == rest && [] + rest == rest;
    }
  }

  lemma {:induction false} LitsAppend(a: seq<Token>, b: seq<Token>)
    ensures Lits(a + b) == Lits(a) + Lits(b)
  {
    if a == [] {
      assert a + b == b;
    } else {
      LitsAppend(a[1..], b);
      assert (a + b)[1..] == a[1..] + b && (a + b)[0] == a[0];
      ConcatAssoc(if a[0].Lit? then [a[0].c] else "", Lits(a[1..]), Lits(b));
    }
  }

  /** The part of the literals that `parse` takes for a time zone. */
  function SignText(lits: string): string {
    var p := Find(lits, "+");
    if p != -1 then lits[p + 1..]
    else
      var q := Find(lits, "-");
      if q != -1 then lits[q..] else ""
  }

  lemma ResidueLits(toks: seq<Token>)
    ensures Lits(Residue(toks)) == Lits(toks)
  {
    var t1 := Without(toks, YYYY);
    var t2 := Without(t1, DDD);
    var t3 := Without(t2, DD);
    var m := if Has(t3, MMM) then MMM else MM;
    var t4 := Without(t3, m);
    LitsWithout(toks, YYYY); LitsWithout(t1, DDD); LitsWithout(t2, DD); LitsWithout(t3, m);
    LitsWithout(t4, HH); LitsWithout(Without(t4, HH), MI); LitsWithout(Without(Without(t4, HH), MI), SS);
  }

  lemma ResidueHasNoMonth(toks: seq<Token>)
    requires !(Has(toks, MMM) && Has(toks, MM))
    ensures !Has(Residue(toks), MM)
  {
    var t3 := Without(Without(Without(toks, YYYY), DDD), DD);
    KeptByDate(toks, MMM);
    KeptByDate(toks, MM);
    var m := if Has(t3, MMM) then MMM else MM;
    var t4 := Without(t3, m);
    HasWithout(t3, m, MM);
    HasWithout(t4, HH, MM);
    HasWithout(Without(t4, HH), MI, MM);
    HasWithout(Without(Without(t4, HH), MI), SS, MM);
  }

  lemma {:induction false} LiteralsShow(r: seq<Token>, d: Stamp, done: set<Field>)
    requires forall i :: 0 <= i < |r| ==> r[i].Lit?
    ensures Show(r, d, done) == Lits(r)
  {
    if r != [] { LiteralsShow(r[1..], d, done); }
  }

  /** With the month spelt one way, only the literals are left of template and text. */
  lemma ResidueShows(toks: seq<Token>, d: Stamp)
    requires Within(Residue(toks)) && !(Has(toks, MMM) && Has(toks, MM))
    ensures Spec(Residue(toks), d) == Printed(Residue(toks), d) == Lits(toks)
  {
    var r := Residue(toks);
    ResidueHasNoMonth(toks);
    forall i | 0 <= i < |r| ensures r[i].Lit? {
      if r[i].Fld? { HasAt(r, i); assert false; }
    }
    LiteralsShow(r, d, {});
    LiteralsShow(r, d, ALL);
    ResidueLits(toks);
  }

  /** With the month spelt one way, the template's literals alone decide the time zone text. */
  lemma ZoneTextIsSignText(toks: seq<Token>, d: Stamp)
    requires Within(Residue(toks)) && |d.month| == 2 && AllDigits(d.month)
    requires !(Has(toks, MMM) && Has(toks, MM))
    ensures ZoneText(toks, d) == SignText(Lits(toks))
  {
    var r := Residue(toks);
    assert Printed(r, d) == Lits(toks) by { ResidueShows(toks, d); }
    FindSign(r, d, '+');
    FindSign(r, d, '-');
  }

  /** What a caller can check on the template beforehand: a printed date can be read back exactly when
      the literals from the first sign on are empty or a float. */
  lemma ReadableByLiterals(toks: seq<Token>, c: Civil, h: int, mi: int, s: int, now: Stamp, strtod: string -> Result<real>)
    requires Template(toks) && Complete(toks) && !(Has(toks, MMM) && Has(toks, MM)) && Writable(c, h, mi, s)
    ensures var d := Full(c, h, mi, s, 0.0);
      Parsed(Spec(toks, d), Printed(toks, d), now, strtod) == Zoned(d, SignText(Lits(toks)), strtod)
  {
    var d := Full(c, h, mi, s, 0.0);
    ParsePrinted(toks, c, h, mi, s, now, _ => "", strtod);
    WritableShape(c, h, mi, s, 0.0);
    CutAllShow(toks, d, "");
    ZoneTextIsSignText(toks, d);
  }

  // ---------------------------------------------------------------- dates with an offset

  lemma {:induction false} LitsHold(toks: seq<Token>, c: char)
    ensures c in Lits(toks) <==> Lit(c) in toks
  {
    if toks != [] {
      LitsHold(toks[1..], c);
      assert toks == [toks[0]] + toks[1..];
    }
  }

  /** Any offset: what `format` prints, and what `parse` makes of it, decided by the template's literals
      and the text appended for the offset. */
  lemma OffsetByLiterals(toks: seq<Token>, c: Civil, h: int, mi: int, s: int, tz: real, now: Stamp,
                         showFloat: real -> string, strtod: string -> Result<real>)
    requires Template(toks) && Complete(toks) && !(Has(toks, MMM) && Has(toks, MM)) && Writable(c, h, mi, s)
    ensures var d, z := Full(c, h, mi, s, tz), ZoneSuffix(tz, showFloat);
      && Formatted(Spec(toks, d), d, showFloat) == Ok(Printed(toks, d) + z)
      && Parsed(Spec(toks, d), Printed(toks, d) + z, now, strtod)
         == OnZone(Zone(Lits(toks), Lits(toks) + z), Full(c, h, mi, s, 0.0), strtod)
  {
    var d, z := Full(c, h, mi, s, tz), ZoneSuffix(tz, showFloat);
    WritableShape(c, h, mi, s, tz);
    FormatShows(toks, d, showFloat);
    CutAllShow(toks, d, z);
    ResidueShows(toks, d);
    ParseTail(toks, c, h, mi, s, tz, z, now, strtod);
  }

  lemma ZoneOfSuffix(lits: string, z: string)
    requires '+' !in lits && '-' !in lits && z != "" && z[0] in "+-"
    ensures Zone(lits, lits + z) == if '+' in z then Ok(lits + z) else Throw(OUT_OF_RANGE)
  {
    NotFoundChar(lits, '+');
    NotFoundChar(lits, '-');
    NotFoundChar(lits + z, '+');
    NotFoundChar(lits + z, '-');
    assert (lits + z)[|lits|] == z[0];
  }

  /** On a template without signs a date with an offset comes back exactly when a plus sign is printed for
      it and all the literals with that text behind them read as the offset; without a plus sign, as for
      every offset below zero that is printed with a minus only, the parse throws. */
  lemma OffsetRoundTrip(toks: seq<Token>, c: Civil, h: int, mi: int, s: int, tz: real, now: Stamp,
                        showFloat: real -> string, strtod: string -> Result<real>)
    requires Template(toks) && Complete(toks) && !(Has(toks, MMM) && Has(toks, MM)) && Signless(toks)
    requires Writable(c, h, mi, s) && tz != 0.0
    ensures var d, z := Full(c, h, mi, s, tz), ZoneSuffix(tz, showFloat);
      var r := Parsed(Spec(toks, d), Printed(toks, d) + z, now, strtod);
      && (r == Ok(d) <==> '+' in z && CastFloat(Lits(toks) + z, strtod) == Ok(tz))
      && ('+' !in z ==> r == Throw(OUT_OF_RANGE))
      && ('+' in z && CastFloat(Lits(toks) + z, strtod).Throw? ==> r == Throw(BAD_ZONE))
  {
    var lits, z := Lits(toks), ZoneSuffix(tz, showFloat);
    OffsetByLiterals(toks, c, h, mi, s, tz, now, showFloat, strtod);
    LitsHold(toks, '+');
    LitsHold(toks, '-');
    ZoneOfSuffix(lits, z);
    OffsetSet(c, h, mi, s, tz, lits + z, strtod);
  }

  lemma OffsetSet(c: Civil, h: int, mi: int, s: int, tz: real, t: string, strtod: string -> Result<real>)
    requires t != ""
    ensures var r := Zoned(Full(c, h, mi, s, 0.0), t, strtod);
      && (r == Ok(Full(c, h, mi, s, tz)) <==> CastFloat(t, strtod) == Ok(tz))
      && (CastFloat(t, strtod).Throw? ==> r == Throw(BAD_ZONE))
  {}

  // ---------------------------------------------------------------- the framework's own template

  /** A field, the literal after it, and the rest of a template. */
  function Block(f: Field, c: char, rest: seq<Token>): seq<Token> { [Fld(f), Lit(c)] + rest }

  lemma BlockShape(f: Field, c: char, rest: seq<Token>)
    requires Template(rest) && c !in FIELD_LETTERS
    ensures var b := Block(f, c, rest);
      && Template(b) && Lits(b) == [c] + Lits(rest)
      && forall g :: Has(b, g) <==> g == f || Has(rest, g)
  {
    var b := Block(f, c, rest);
    assert b[1..] == [Lit(c)] + rest && b[1..][1..] == rest;
    forall g ensures Has(b, g) <==> g == f || Has(rest, g) { assert Has(b[1..], g) <==> Has(rest, g); }
    forall i | 0 < i < |b| && b[i].Fld? ensures b[i - 1].Lit? {
      if i >= 3 { assert b[i] == rest[i - 2] && b[i - 1] == rest[i - 3]; }
    }
  }

  lemma BlockText(f: Field, c: char, rest: seq<Token>, d: Stamp)
    ensures Spec(Block(f, c, rest), d) == Name(f) + [c] + Spec(rest, d)
  {
    var b := Block(f, c, rest);
    assert b[1..] == [Lit(c)] + rest && b[1..][1..] == rest;
    assert Spec(b[1..], d) == [c] + Spec(rest, d);
    ConcatAssoc(Name(f), [c], Spec(rest, d));
  }

  const CLOCK: seq<Token> := Block(HH, ':', Block(MI, ':', [Fld(SS)]))

  /** The template "yyyy-mm-dd hh:mi:ss", which the framework itself serializes dates with. */
  const ISO: seq<Token> := Block(YYYY, '-', Block(MM, '-', Block(DD, ' ', CLOCK)))

  lemma ClockShape()
    ensures Lits(CLOCK) == "::" && Template(CLOCK) && (forall g :: Has(CLOCK, g) <==> g in {HH, MI, SS})
  {
    var s := [Fld(SS)];
    assert s[1..] == [];
    assert Lits(s) == "";
    assert forall g :: Has(s, g) <==> g == SS;
    BlockShape(MI, ':', s);
    BlockShape(HH, ':', Block(MI, ':', s));
  }

  lemma IsoShape()
    ensures Lits(ISO) == "-- ::" && Template(ISO) && Complete(ISO) && !Has(ISO, MMM)
  {
    ClockShape();
    var b1 := Block(DD, ' ', CLOCK);
    BlockShape(DD, ' ', CLOCK);
    assert Lits(b1) == " ::";
    DateShape(b1);
  }

  lemma DateShape(b: seq<Token>)
    requires Template(b) && Lits(b) == " ::" && !Has(b, MMM)
    requires Has(b, DD) && Has(b, HH) && Has(b, MI) && Has(b, SS)
    ensures var iso := Block(YYYY, '-', Block(MM, '-', b));
      Lits(iso) == "-- ::" && Template(iso) && Complete(iso) && !Has(iso, MMM)
  {
    BlockShape(MM, '-', b);
    assert Lits(Block(MM, '-', b)) == "- ::";
    BlockShape(YYYY, '-', Block(MM, '-', b));
  }

  lemma IsoText(d: Stamp)
    ensures Spec(ISO, d) == "yyyy-mm-dd hh:mi:ss"
  {
    ClockText(d);
    BlockText(DD, ' ', CLOCK, d);
    assert Spec(Block(DD, ' ', CLOCK), d) == "dd hh:mi:ss";
    BlockText(MM, '-', Block(DD, ' ', CLOCK), d);
    assert Spec(Block(MM, '-', Block(DD, ' ', CLOCK)), d) == "mm-dd hh:mi:ss";
    BlockText(YYYY, '-', Block(MM, '-', Block(DD, ' ', CLOCK)), d);
  }

  lemma IsoZone(strtod: string -> Result<real>)
    ensures SignText("-- ::") == "-- ::" && CastFloat("-- ::", strtod).Throw?
  {
    var lits := "-- ::";
    NotFoundChar(lits, '+');
    assert lits[0..1] == "-";
    FindIs(lits, "-", 0);
    assert lits[1..][0] == '-';
  }

  /** So what the framework writes it cannot read: the left-over "-- ::" is taken for a time zone, and
      every date printed on this template is refused. */
  lemma IsoNeverParses(c: Civil, h: int, mi: int, s: int, now: Stamp, strtod: string -> Result<real>)
    requires Writable(c, h, mi, s)
    ensures var d := Full(c, h, mi, s, 0.0);
      Parsed("yyyy-mm-dd hh:mi:ss", Printed(ISO, d), now, strtod) == Throw(BAD_ZONE)
  {
    var d := Full(c, h, mi, s, 0.0);
    IsoShape();
    IsoText(d);
    ReadableByLiterals(ISO, c, h, mi, s, now, strtod);
    IsoZone(strtod);
  }

  // ---------------------------------------------------------------- the logger's template

  /** The template "dd/mm/yyyy hh:mi:ss", which the logger writes dates with. */
  const LOGGED: seq<Token> := Block(DD, '/', Block(MM, '/', Block(YYYY, ' ', CLOCK)))

  lemma BlockSignless(f: Field, c: char, rest: seq<Token>)
    requires Signless(rest) && c != '+' && c != '-'
    ensures Signless(Block(f, c, rest))
  {}

  lemma LoggedShape()
    ensures Template(LOGGED) && Complete(LOGGED) && Signless(LOGGED)
  {
    ClockShape();
    BlockShape(YYYY, ' ', CLOCK);
    var b := Block(YYYY, ' ', CLOCK);
    BlockShape(MM, '/', b);
    BlockShape(DD, '/', Block(MM, '/', b));
    LoggedSignless();
  }

  lemma LoggedSignless()
    ensures Signless(LOGGED)
  {
    var s := [Fld(SS)];
    BlockSignless(MI, ':', s);
    BlockSignless(HH, ':', Block(MI, ':', s));
    BlockSignless(YYYY, ' ', CLOCK);
    BlockSignless(MM, '/', Block(YYYY, ' ', CLOCK));
    BlockSignless(DD, '/', Block(MM, '/', Block(YYYY, ' ', CLOCK)));
  }

  lemma ClockText(d: Stamp)
    ensures Spec(CLOCK, d) == "hh:mi:ss"
  {
    var s := [Fld(SS)];
    assert s[1..] == [];
    assert Spec(s[1..], d) == "" && TextOf(s[0], d, {}) == "ss";
    assert Spec(s, d) == "ss" + "" == "ss";
    BlockText(MI, ':', s, d);
    assert Spec(Block(MI, ':', s), d) == "mi:ss";
    BlockText(HH, ':', Block(MI, ':', s), d);
  }

  lemma LoggedText(d: Stamp)
    ensures Spec(LOGGED, d) == "dd/mm/yyyy hh:mi:ss"
  {
    ClockText(d);
    BlockText(YYYY, ' ', CLOCK, d);
    assert Spec(Block(YYYY, ' ', CLOCK), d) == "yyyy hh:mi:ss";
    BlockText(MM, '/', Block(YYYY, ' ', CLOCK), d);
    assert Spec(Block(MM, '/', Block(YYYY, ' ', CLOCK)), d) == "mm/yyyy hh:mi:ss";
    BlockText(DD, '/', Block(MM, '/', Block(YYYY, ' ', CLOCK)), d);
  }

  /** The logger's dates, on the other hand, all read back. */
  lemma LoggedRoundTrips(c: Civil, h: int, mi: int, s: int, now: Stamp,
                         showFloat: real -> string, strtod: string -> Result<real>)
    requires Writable(c, h, mi, s)
    ensures var d := Full(c, h, mi, s, 0.0);
      var text := Formatted("dd/mm/yyyy hh:mi:ss", d, showFloat);
      text.Ok? && Parsed("dd/mm/yyyy hh:mi:ss", text.value, now, strtod) == Ok(d)
  {
    LoggedShape();
    LoggedText(Full(c, h, mi, s, 0.0));
    RoundTrip(LOGGED, c, h, mi, s, now, showFloat, strtod);
  }

  /** With an offset, none of them does. */
  lemma LoggedLosesOffset(c: Civil, h: int, mi: int, s: int, tz: real, now: Stamp,
                          showFloat: real -> string, strtod: string -> Result<real>)
    requires Writable(c, h, mi, s) && tz != 0.0
    ensures var d := Full(c, h, mi, s, tz);
      var text := Formatted("dd/mm/yyyy hh:mi:ss", d, showFloat);
      text.Ok? && Parsed("dd/mm/yyyy hh:mi:ss", text.value, now, strtod).Throw?
  {
    var d, z := Full(c, h, mi, s, tz), ZoneSuffix(tz, showFloat);
    LoggedShape();
    LoggedLits();
    LoggedText(d);
    OffsetByLiterals(LOGGED, c, h, mi, s, tz, now, showFloat, strtod);
    OffsetRoundTrip(LOGGED, c, h, mi, s, tz, now, showFloat, strtod);
    SlashIsNoNumber("// ::", z, strtod);
  }

  lemma SlashIsNoNumber(lits: string, z: string, strtod: string -> Result<real>)
    requires lits == "// ::"
    ensures CastFloat(lits + z, strtod).Throw?
  {
    assert (lits + z)[0] == '/';
  }

  lemma LoggedLits()
    ensures Lits(LOGGED) == "// ::" && !Has(LOGGED, MMM)
  {
    ClockShape();
    BlockShape(YYYY, ' ', CLOCK);
    var b := Block(YYYY, ' ', CLOCK);
    assert Lits(b) == " ::";
    LoggedLitsFrom(b);
  }

  lemma LoggedLitsFrom(b: seq<Token>)
    requires Template(b) && Lits(b) == " ::" && !Has(b, MMM)
    ensures var t := Block(DD, '/', Block(MM, '/', b)); Lits(t) == "// ::" && !Has(t, MMM)
  {
    BlockShape(MM, '/', b);
    assert Lits(Block(MM, '/', b)) == "/ ::";
    BlockShape(DD, '/', Block(MM, '/', b));
  }
}
