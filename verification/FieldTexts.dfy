/** Texts in which every place of a template reads as it likes: which of them DateFormat::parse takes
    apart, and with which message it refuses the others. */
module FieldTexts {
  import opened Text
  import opened Dates
  import opened DateFormats
  import opened Templates

  // ---------------------------------------------------------------- a text place by place

  function Flat(parts: seq<string>): string {
    if parts == [] then "" else parts[0] + Flat(parts[1..])
  }

  function NameOf(t: Token): string {
    match t
    case Fld(f) => Name(f)
    case Lit(c) => [c]
  }

  /** One text for each token, as long as the token. */
  predicate Fits(toks: seq<Token>, parts: seq<string>) {
    |parts| == |toks| && forall i :: 0 <= i < |toks| ==> |parts[i]| == |NameOf(toks[i])|
  }

  /** What stands in the first place of a field. */
  function FirstText(toks: seq<Token>, parts: seq<string>, f: Field): string
    requires |parts| == |toks|
  {
    if toks == [] then "" else if toks[0] == Fld(f) then parts[0] else FirstText(toks[1..], parts[1..], f)
  }

  /** Every place of the field reads `v`. */
  predicate AllRead(toks: seq<Token>, parts: seq<string>, f: Field, v: string)
    requires |parts| == |toks|
  {
    toks == [] || ((toks[0] == Fld(f) ==> parts[0] == v) && AllRead(toks[1..], parts[1..], f, v))
  }

  lemma {:induction false} AllReadAt(toks: seq<Token>, parts: seq<string>, f: Field, v: string)
    requires |parts| == |toks|
    ensures AllRead(toks, parts, f, v) <==> forall i :: 0 <= i < |toks| && toks[i] == Fld(f) ==> parts[i] == v
  {
    if toks != [] {
      AllReadAt(toks[1..], parts[1..], f, v);
      if AllRead(toks, parts, f, v) {
        forall i | 0 <= i < |toks| && toks[i] == Fld(f) ensures parts[i] == v {
          if i > 0 { assert toks[1..][i - 1] == toks[i] && parts[1..][i - 1] == parts[i]; }
        }
      }
    }
  }

  /** Two places of the field read differently. */
  predicate Differ(toks: seq<Token>, parts: seq<string>, f: Field)
    requires |parts| == |toks|
  {
    !AllRead(toks, parts, f, FirstText(toks, parts, f))
  }

  /** The places of all other tokens. */
  function Others(toks: seq<Token>, parts: seq<string>, f: Field): seq<string>
    requires |parts| == |toks|
  {
    if toks == [] then [] else (if toks[0] == Fld(f) then [] else [parts[0]]) + Others(toks[1..], parts[1..], f)
  }

  lemma {:induction false} FlatAppend(a: seq<string>, b: seq<string>)
    ensures Flat(a + b) == Flat(a) + Flat(b)
  {
    if a == [] {
      assert a + b == b;
    } else {
      FlatAppend(a[1..], b);
      assert (a + b)[1..] == a[1..] + b && (a + b)[0] == a[0];
      ConcatAssoc(a[0], Flat(a[1..]), Flat(b));
    }
  }

  lemma {:induction false} SameLength(toks: seq<Token>, parts: seq<string>, d: Stamp)
    requires Fits(toks, parts)
    ensures |Flat(parts)| == |Spec(toks, d)|
  {
    if toks != [] { SameLength(toks[1..], parts[1..], d); }
  }

  lemma {:induction false} OthersAppend(a: seq<Token>, p: seq<string>, b: seq<Token>, q: seq<string>, f: Field)
    requires |p| == |a| && |q| == |b|
    ensures Others(a + b, p + q, f) == Others(a, p, f) + Others(b, q, f)
    ensures forall v :: AllRead(a + b, p + q, f, v) <==> AllRead(a, p, f, v) && AllRead(b, q, f, v)
  {
    if a == [] {
      assert a + b == b && p + q == q;
    } else {
      OthersAppend(a[1..], p[1..], b, q, f);
      assert (a + b)[1..] == a[1..] + b && (a + b)[0] == a[0];
      assert (p + q)[1..] == p[1..] + q && (p + q)[0] == p[0];
      ConcatAssoc(if a[0] == Fld(f) then [] else [p[0]], Others(a[1..], p[1..], f), Others(b, q, f));
    }
  }

  /** One place of the field taken out. */
  lemma PlaceOut(a: seq<Token>, p: seq<string>, x: string, b: seq<Token>, q: seq<string>, f: Field, d: Stamp)
    requires Fits(a, p) && Fits(b, q) && |x| == |Name(f)|
    ensures var toks, parts, rest, left := a + [Fld(f)] + b, p + [x] + q, a + b, p + q;
      && Fits(toks, parts) && Fits(rest, left) && Others(rest, left, f) == Others(toks, parts, f)
      && (forall v :: AllRead(toks, parts, f, v) <==> x == v && AllRead(rest, left, f, v))
      && Flat(parts) == Flat(p) + x + Flat(q) && Flat(left) == Flat(p) + Flat(q)
      && |Flat(p)| == |Spec(a, d)|
  {
    PlaceFits(a, p, x, b, q, f);
    PlaceOthers(a, p, x, b, q, f);
    PlaceFlat(p, x, q);
    SameLength(a, p, d);
  }

  lemma PlaceFits(a: seq<Token>, p: seq<string>, x: string, b: seq<Token>, q: seq<string>, f: Field)
    requires Fits(a, p) && Fits(b, q) && |x| == |Name(f)|
    ensures Fits(a + [Fld(f)] + b, p + [x] + q) && Fits(a + b, p + q)
  {}

  lemma WithPlace(a: seq<Token>, p: seq<string>, x: string, f: Field)
    requires |p| == |a|
    ensures Others(a + [Fld(f)], p + [x], f) == Others(a, p, f)
    ensures forall v :: AllRead(a + [Fld(f)], p + [x], f, v) <==> x == v && AllRead(a, p, f, v)
  {
    OthersAppend(a, p, [Fld(f)], [x], f);
    OnePlace(f, x);
  }

  lemma PlaceOthers(a: seq<Token>, p: seq<string>, x: string, b: seq<Token>, q: seq<string>, f: Field)
    requires |p| == |a| && |q| == |b|
    ensures var toks, parts, rest, left := a + [Fld(f)] + b, p + [x] + q, a + b, p + q;
      && Others(rest, left, f) == Others(toks, parts, f)
      && forall v :: AllRead(toks, parts, f, v) <==> x == v && AllRead(rest, left, f, v)
  {
    OthersAppend(a + [Fld(f)], p + [x], b, q, f);
    OthersAppend(a, p, b, q, f);
    WithPlace(a, p, x, f);
  }

  lemma PlaceFlat(p: seq<string>, x: string, q: seq<string>)
    ensures Flat(p + [x] + q) == Flat(p) + x + Flat(q) && Flat(p + q) == Flat(p) + Flat(q)
  {
    FlatAppend(p + [x], q);
    FlatAppend(p, [x]);
    FlatAppend(p, q);
    assert [x][1..] == [] && x + "" == x;
  }

  lemma OnePlace(f: Field, x: string)
    ensures Flat([x]) == x && Others([Fld(f)], [x], f) == []
    ensures forall v :: AllRead([Fld(f)], [x], f, v) <==> x == v
  {
    assert [x][1..] == [] && [Fld(f)][1..] == [];
    assert x + "" == x;
  }

  // ---------------------------------------------------------------- cutting one field

  lemma CutPlace(value: string, toks: seq<Token>, parts: seq<string>, i: nat, d: Stamp, f: Field, pat: string, msg: string)
    requires Fits(toks, parts) && i < |toks| && toks[i] == Fld(f) && Name(f) == pat && |value| == |pat|
    requires Find(Spec(toks, d), pat) == |Spec(toks[..i], d)|
    ensures var rest, left := toks[..i] + toks[i + 1..], parts[..i] + parts[i + 1..];
      && Fits(rest, left) && Others(rest, left, f) == Others(toks, parts, f)
      && (forall v :: AllRead(toks, parts, f, v) <==> parts[i] == v && AllRead(rest, left, f, v))
      && CutLoop(value, Spec(toks, d), Flat(parts), pat, msg)
         == (if parts[i] == value then CutLoop(value, Spec(rest, d), Flat(left), pat, msg) else Throw(msg))
      && Substr(Flat(parts), Find(Spec(toks, d), pat), |pat|) == Ok(parts[i])
  {
    var a, b, p, x, q := toks[..i], toks[i + 1..], parts[..i], parts[i], parts[i + 1..];
    assert toks == a + [Fld(f)] + b && parts == p + [x] + q;
    PlaceOut(a, p, x, b, q, f, d);
    CutBetween(value, a, p, x, b, q, f, d, pat, msg);
  }

  lemma CutBetween(value: string, a: seq<Token>, p: seq<string>, x: string, b: seq<Token>, q: seq<string>, f: Field, d: Stamp,
                   pat: string, msg: string)
    requires |value| == |x| == |pat| && Name(f) == pat && |Flat(p)| == |Spec(a, d)|
    requires Find(Spec(a + [Fld(f)] + b, d), pat) == |Spec(a, d)|
    ensures var str := Flat(p + [x] + q);
      && CutLoop(value, Spec(a + [Fld(f)] + b, d), str, pat, msg)
         == (if x == value then CutLoop(value, Spec(a + b, d), Flat(p + q), pat, msg) else Throw(msg))
      && Substr(str, |Spec(a, d)|, |pat|) == Ok(x)
  {
    PlaceFlat(p, x, q);
    Split3(a, b, f, d, {});
    Slices(Flat(p), x, Flat(q));
    Slices(Spec(a, d), Name(f), Spec(b, d));
    CutPlaceOut(value, Spec(a + [Fld(f)] + b, d), Flat(p + [x] + q), Spec(a + b, d), Flat(p + q), pat, msg, |Spec(a, d)|, x);
  }

  lemma CutPlaceOut(value: string, ytemp: string, str: string, ytemp': string, str': string, pat: string, msg: string, p: nat, x: string)
    requires pat != "" && Find(ytemp, pat) == p && |value| == |pat|
    requires p + |pat| <= |str| && str[p..p + |pat|] == x
    requires ytemp[..p] + "" + ytemp[p + |pat|..] == ytemp' && str[..p] + str[p + |pat|..] == str'
    ensures CutLoop(value, ytemp, str, pat, msg) == if x == value then CutLoop(value, ytemp', str', pat, msg) else Throw(msg)
    ensures Substr(str, p, |pat|) == Ok(x)
  {
    assert Substr(str, p, |pat|) == Ok(x);
    if x == value { CutLoopUnfolds(value, ytemp, str, ytemp', str', pat, msg, p); }
  }

  lemma LacksOne(toks: seq<Token>, i: nat, gone: set<Field>)
    requires i < |toks| && Lacks(toks, gone)
    ensures Lacks(toks[..i] + toks[i + 1..], gone)
  {
    var rest := toks[..i] + toks[i + 1..];
    forall g | g in gone ensures !Has(rest, g) { if Has(rest, g) { HasMore(toks, i, g); assert false; } }
  }

  /** What the loop makes of the text. */
  predicate LoopEnds(value: string, toks: seq<Token>, parts: seq<string>, d: Stamp, f: Field, pat: string, msg: string)
    requires |parts| == |toks| && pat != ""
  {
    CutLoop(value, Spec(toks, d), Flat(parts), pat, msg)
    == if AllRead(toks, parts, f, value) then Ok(Cut(value, Spec(Without(toks, f), d), Flat(Others(toks, parts, f))))
       else Throw(msg)
  }

  /** One round of it. */
  lemma LoopGoesOn(value: string, toks: seq<Token>, parts: seq<string>, i: nat, d: Stamp, f: Field, pat: string, msg: string)
    requires Fits(toks, parts) && i < |toks| && toks[i] == Fld(f) && Name(f) == pat && |value| == |pat|
    requires Find(Spec(toks, d), pat) == |Spec(toks[..i], d)|
    requires LoopEnds(value, toks[..i] + toks[i + 1..], parts[..i] + parts[i + 1..], d, f, pat, msg)
    ensures LoopEnds(value, toks, parts, d, f, pat, msg)
  {
    var a, b := toks[..i], toks[i + 1..];
    assert toks == a + [Fld(f)] + b;
    WithoutMiddle(a, b, f);
    CutPlace(value, toks, parts, i, d, f, pat, msg);
  }

  lemma OneLess(toks: seq<Token>, parts: seq<string>, i: nat, f: Field, gone: set<Field>)
    requires Template(toks) && Fits(toks, parts) && i < |toks| && toks[i] == Fld(f) && Lacks(toks, gone)
    ensures var rest, left := toks[..i] + toks[i + 1..], parts[..i] + parts[i + 1..];
      && Template(rest) && Fits(rest, left) && Lacks(rest, gone) && |rest| < |toks| && Without(rest, f) == Without(toks, f)
  {
    var a, b := toks[..i], toks[i + 1..];
    assert toks == a + [Fld(f)] + b;
    TemplateWithoutOne(a, b, f);
    WithoutMiddle(a, b, f);
    LacksOne(toks, i, gone);
  }

  lemma {:induction false} CutLoopPlaces(value: string, toks: seq<Token>, parts: seq<string>, d: Stamp, f: Field,
                                         pat: string, k: char, gone: set<Field>, msg: string)
    requires Template(toks) && Fits(toks, parts) && Lacks(toks, gone) && Searchable(f, pat, k, gone) && |value| == |pat|
    ensures LoopEnds(value, toks, parts, d, f, pat, msg)
    ensures Template(Without(toks, f)) && Lacks(Without(toks, f), gone + {f})
    decreases |toks|
  {
    SearchableIsSole(toks, d, f, pat, k, gone);
    var i := FindShow(toks, d, pat, k, f);
    HoldsWithout(toks, f);
    if i == |toks| {
      NoPlaces(toks, parts, f);
    } else {
      OneLess(toks, parts, i, f, gone);
      CutLoopPlaces(value, toks[..i] + toks[i + 1..], parts[..i] + parts[i + 1..], d, f, pat, k, gone, msg);
      LoopGoesOn(value, toks, parts, i, d, f, pat, msg);
    }
  }

  lemma {:induction false} NoPlaces(toks: seq<Token>, parts: seq<string>, f: Field)
    requires |parts| == |toks| && !Has(toks, f)
    ensures Without(toks, f) == toks && Others(toks, parts, f) == parts && FirstText(toks, parts, f) == ""
    ensures forall v :: AllRead(toks, parts, f, v)
  {
    if toks != [] { NoPlaces(toks[1..], parts[1..], f); }
  }

  lemma {:induction false} FirstTextAt(toks: seq<Token>, parts: seq<string>, f: Field, i: nat)
    requires |parts| == |toks| && i < |toks| && toks[i] == Fld(f) && forall j :: 0 <= j < i ==> toks[j] != Fld(f)
    ensures FirstText(toks, parts, f) == parts[i]
  {
    if i > 0 { FirstTextAt(toks[1..], parts[1..], f, i - 1); }
  }

  /** One field: absent, or the same at all its places and cut out, or refused. */
  lemma CutFieldPlaces(toks: seq<Token>, parts: seq<string>, d: Stamp, f: Field, pat: string, k: char, gone: set<Field>, msg: string)
    requires Template(toks) && Fits(toks, parts) && Lacks(toks, gone) && Searchable(f, pat, k, gone)
    ensures CutField(Spec(toks, d), Flat(parts), pat, msg)
         == if Differ(toks, parts, f) then Throw(msg)
            else Ok(Cut(FirstText(toks, parts, f), Spec(Without(toks, f), d), Flat(Others(toks, parts, f))))
    ensures Find(Spec(toks, d), pat) != -1 <==> Has(toks, f)
    ensures Template(Without(toks, f)) && Lacks(Without(toks, f), gone + {f})
  {
    SearchableIsSole(toks, d, f, pat, k, gone);
    HoldsWithout(toks, f);
    var i := FindShow(toks, d, pat, k, f);
    if i == |toks| {
      NoPlaces(toks, parts, f);
    } else {
      FirstTextAt(toks, parts, f, i);
      CutPlace(parts[i], toks, parts, i, d, f, pat, msg);
      CutLoopPlaces(parts[i], toks, parts, d, f, pat, k, gone, msg);
    }
  }

  // ---------------------------------------------------------------- all fields

  /** Cutting one field leaves the places of the others as they are. */
  lemma {:induction false} OthersKeep(toks: seq<Token>, parts: seq<string>, f: Field, g: Field)
    requires Fits(toks, parts) && f != g
    ensures Fits(Without(toks, f), Others(toks, parts, f))
    ensures var t, p := Without(toks, f), Others(toks, parts, f);
      FirstText(t, p, g) == FirstText(toks, parts, g) && forall v :: AllRead(t, p, g, v) <==> AllRead(toks, parts, g, v)
  {
    if toks != [] {
      OthersKeep(toks[1..], parts[1..], f, g);
      var t, p := Without(toks[1..], f), Others(toks[1..], parts[1..], f);
      if toks[0] == Fld(f) {
        assert [] + t == t && [] + p == p;
      } else {
        assert ([toks[0]] + t)[1..] == t && ([parts[0]] + p)[1..] == p;
      }
    }
  }

  lemma KeptPlaces(toks: seq<Token>, parts: seq<string>, f: Field)
    requires Fits(toks, parts)
    ensures var t, p := Without(toks, f), Others(toks, parts, f);
      && Fits(t, p)
      && forall g :: g != f ==> FirstText(t, p, g) == FirstText(toks, parts, g) && (Differ(t, p, g) <==> Differ(toks, parts, g))
  {
    OthersKeep(toks, parts, f, if f == YYYY then DD else YYYY);
    forall g | g != f
      ensures var t, p := Without(toks, f), Others(toks, parts, f);
        FirstText(t, p, g) == FirstText(toks, parts, g) && (Differ(t, p, g) <==> Differ(toks, parts, g))
    {
      OthersKeep(toks, parts, f, g);
    }
  }

  /** The message for a field whose places differ. */
  function Many(f: Field): string {
    match f
    case YYYY => "Multiple instances with different year(yyyy) values found"
    case DDD => "Multiple instances with different day(ddd) values found"
    case DD => "Multiple instances with different day(dd) values found"
    case MMM => "Multiple instances with different month(mmm) values found"
    case MM => "Multiple instances with different month(mm) values found"
    case HH => "Multiple instances with different hours(hh) values found"
    case MI => "Multiple instances with different minutes(mi) values found"
    case SS => "Multiple instances with different seconds(ss) values found"
  }

  /** The month that is looked for: by name if the template has it, else by number. */
  function MonthField(toks: seq<Token>): Field { if Has(toks, MMM) then MMM else MM }

  /** What comes of one cut: refused, or a value and what is left of template and text. */
  datatype Seen = Seen(bad: bool, msg: string, value: string, temp: string, str: string)

  predicate Came(r: Result<Cut>, c: Seen) {
    if c.bad then r == Throw(c.msg) else r == Ok(Cut(c.value, c.temp, c.str))
  }

  /** The same in terms of the whole template. */
  function SeenOf(toks: seq<Token>, parts: seq<string>, f: Field, t: seq<Token>, p: seq<string>, d: Stamp): Seen
    requires |parts| == |toks|
  {
    Seen(Differ(toks, parts, f), Many(f), FirstText(toks, parts, f), Spec(t, d), Flat(p))
  }

  predicate CutsTo(r: Result<Cut>, toks: seq<Token>, parts: seq<string>, f: Field, t: seq<Token>, p: seq<string>, d: Stamp)
    requires |parts| == |toks|
  {
    Came(r, SeenOf(toks, parts, f, t, p, d))
  }

  /** The places of `toks` that are left in `t`: all but those of `gone`. */
  ghost predicate Left(toks: seq<Token>, parts: seq<string>, t: seq<Token>, p: seq<string>, gone: set<Field>) {
    && Fits(toks, parts) && Fits(t, p) && Template(t) && Lacks(t, gone)
    && (forall g :: g !in gone ==> (Has(t, g) <==> Has(toks, g)))
    && forall g :: g !in gone ==> FirstText(t, p, g) == FirstText(toks, parts, g) && (Differ(t, p, g) <==> Differ(toks, parts, g))
  }

  lemma CutOne(toks: seq<Token>, parts: seq<string>, t: seq<Token>, p: seq<string>, gone: set<Field>, d: Stamp,
               f: Field, pat: string, k: char, msg: string) returns (u: seq<Token>, q: seq<string>)
    requires Left(toks, parts, t, p, gone) && f !in gone && Searchable(f, pat, k, gone) && msg == Many(f)
    ensures Left(toks, parts, u, q, gone + {f})
    ensures CutsTo(CutField(Spec(t, d), Flat(p), pat, msg), toks, parts, f, u, q, d)
    ensures Find(Spec(t, d), pat) != -1 <==> Has(toks, f)
  {
    u, q := Without(t, f), Others(t, p, f);
    CutFieldPlaces(t, p, d, f, pat, k, gone, msg);
    KeptPlaces(t, p, f);
    HoldsWithout(t, f);
  }

  /** The month by name, or by number when there is no name to look for. */
  lemma CutTheMonth(toks: seq<Token>, parts: seq<string>, t: seq<Token>, p: seq<string>, d: Stamp)
    returns (u: seq<Token>, q: seq<string>)
    requires Left(toks, parts, t, p, {YYYY, DDD, DD})
    ensures var named := Find(Spec(t, d), "mmm") != -1; var m := MonthField(toks);
      && (named <==> m == MMM)
      && CutsTo(if named then CutField(Spec(t, d), Flat(p), "mmm", MANY_MMM) else CutField(Spec(t, d), Flat(p), "mm", MANY_MM),
                toks, parts, m, u, q, d)
    ensures Fits(u, q) && Left(toks, parts, u, q, if Has(toks, MMM) then {YYYY, DDD, DD, MMM} else {YYYY, DDD, DD, MMM, MM})
  {
    u, q := CutOne(toks, parts, t, p, {YYYY, DDD, DD}, d, MMM, "mmm", 'm', MANY_MMM);
    if !Has(toks, MMM) {
      u, q := CutTheNumber(toks, parts, t, p, d);
    }
  }

  lemma CutTheNumber(toks: seq<Token>, parts: seq<string>, t: seq<Token>, p: seq<string>, d: Stamp)
    returns (u: seq<Token>, q: seq<string>)
    requires Left(toks, parts, t, p, {YYYY, DDD, DD}) && !Has(toks, MMM)
    ensures CutsTo(CutField(Spec(t, d), Flat(p), "mm", MANY_MM), toks, parts, MM, u, q, d)
    ensures Fits(u, q) && Left(toks, parts, u, q, {YYYY, DDD, DD, MMM, MM})
  {
    NotThere(toks, parts, t, p);
    u, q := CutOne(toks, parts, t, p, {YYYY, DDD, DD, MMM}, d, MM, "mm", 'm', MANY_MM);
    assert {YYYY, DDD, DD, MMM} + {MM} == {YYYY, DDD, DD, MMM, MM};
  }

  lemma NotThere(toks: seq<Token>, parts: seq<string>, t: seq<Token>, p: seq<string>)
    requires Left(toks, parts, t, p, {YYYY, DDD, DD}) && !Has(toks, MMM)
    ensures Left(toks, parts, t, p, {YYYY, DDD, DD, MMM})
  {}

  /** `CutAll` from what each of its cuts comes to. */
  lemma CutAllChain(spec: string, str: string, y: Result<Cut>, w: Result<Cut>, d: Result<Cut>, named: bool, m: Result<Cut>,
                    h: Result<Cut>, i: Result<Cut>, s: Result<Cut>)
    requires Find(spec, "yyyy") != -1 && y == CutField(spec, str, "yyyy", MANY_YYYY)
    requires y.Ok? ==> w == CutField(y.value.temp, y.value.str, "ddd", MANY_DDD)
    requires y.Ok? && w.Ok? ==> d == CutField(w.value.temp, w.value.str, "dd", MANY_DD)
    requires y.Ok? && w.Ok? && d.Ok? ==>
      && (named <==> Find(d.value.temp, "mmm") != -1)
      && m == if named then CutField(d.value.temp, d.value.str, "mmm", MANY_MMM) else CutField(d.value.temp, d.value.str, "mm", MANY_MM)
    requires y.Ok? && w.Ok? && d.Ok? && m.Ok? ==> h == CutField(m.value.temp, m.value.str, "hh", MANY_HH)
    requires y.Ok? && w.Ok? && d.Ok? && m.Ok? && h.Ok? ==> i == CutField(h.value.temp, h.value.str, "mi", MANY_MI)
    requires y.Ok? && w.Ok? && d.Ok? && m.Ok? && h.Ok? && i.Ok? ==> s == CutField(i.value.temp, i.value.str, "ss", MANY_SS)
    ensures CutAll(spec, str)
         == if y.Throw? then Throw(y.message) else if w.Throw? then Throw(w.message) else if d.Throw? then Throw(d.message)
            else if m.Throw? then Throw(m.message) else if h.Throw? then Throw(h.message) else if i.Throw? then Throw(i.message)
            else if s.Throw? then Throw(s.message)
            else Ok(Fields(y.value.value, "", w.value.value, d.value.value, if named then m.value.value else "",
                           if named then "" else m.value.value, h.value.value, i.value.value, s.value.value,
                           s.value.temp, s.value.str))
  {}

  lemma TimeSearchable(gone: set<Field>)
    requires gone == {YYYY, DDD, DD, MMM} || gone == {YYYY, DDD, DD, MMM, MM}
    ensures Searchable(HH, "hh", 'h', gone) && Searchable(MI, "mi", 'i', gone + {HH}) && Searchable(SS, "ss", 's', gone + {HH} + {MI})
  {}

  lemma CutTheTime(toks: seq<Token>, parts: seq<string>, t: seq<Token>, p: seq<string>, d: Stamp)
    returns (t1: seq<Token>, p1: seq<string>, t2: seq<Token>, p2: seq<string>, t3: seq<Token>, p3: seq<string>)
    requires Left(toks, parts, t, p, if Has(toks, MMM) then {YYYY, DDD, DD, MMM} else {YYYY, DDD, DD, MMM, MM})
    ensures CutsTo(CutField(Spec(t, d), Flat(p), "hh", MANY_HH), toks, parts, HH, t1, p1, d)
    ensures CutsTo(CutField(Spec(t1, d), Flat(p1), "mi", MANY_MI), toks, parts, MI, t2, p2, d)
    ensures CutsTo(CutField(Spec(t2, d), Flat(p2), "ss", MANY_SS), toks, parts, SS, t3, p3, d)
  {
    var gone := if Has(toks, MMM) then {YYYY, DDD, DD, MMM} else {YYYY, DDD, DD, MMM, MM};
    TimeSearchable(gone);
    t1, p1, t2, p2, t3, p3 := CutTime(toks, parts, t, p, gone, d);
  }

  lemma CutTime(toks: seq<Token>, parts: seq<string>, t: seq<Token>, p: seq<string>, gone: set<Field>, d: Stamp)
    returns (t1: seq<Token>, p1: seq<string>, t2: seq<Token>, p2: seq<string>, t3: seq<Token>, p3: seq<string>)
    requires Left(toks, parts, t, p, gone) && HH !in gone && MI !in gone && SS !in gone
    requires Searchable(HH, "hh", 'h', gone)
    requires Searchable(MI, "mi", 'i', gone + {HH}) && Searchable(SS, "ss", 's', gone + {HH} + {MI})
    ensures CutsTo(CutField(Spec(t, d), Flat(p), "hh", MANY_HH), toks, parts, HH, t1, p1, d)
    ensures CutsTo(CutField(Spec(t1, d), Flat(p1), "mi", MANY_MI), toks, parts, MI, t2, p2, d)
    ensures CutsTo(CutField(Spec(t2, d), Flat(p2), "ss", MANY_SS), toks, parts, SS, t3, p3, d)
  {
    t1, p1 := CutOne(toks, parts, t, p, gone, d, HH, "hh", 'h', MANY_HH);
    t2, p2, t3, p3 := CutMinutes(toks, parts, t1, p1, gone + {HH}, d);
  }

  lemma CutMinutes(toks: seq<Token>, parts: seq<string>, t: seq<Token>, p: seq<string>, gone: set<Field>, d: Stamp)
    returns (t1: seq<Token>, p1: seq<string>, t2: seq<Token>, p2: seq<string>)
    requires Left(toks, parts, t, p, gone) && MI !in gone && SS !in gone
    requires Searchable(MI, "mi", 'i', gone) && Searchable(SS, "ss", 's', gone + {MI})
    ensures CutsTo(CutField(Spec(t, d), Flat(p), "mi", MANY_MI), toks, parts, MI, t1, p1, d)
    ensures CutsTo(CutField(Spec(t1, d), Flat(p1), "ss", MANY_SS), toks, parts, SS, t2, p2, d)
  {
    t1, p1 := CutOne(toks, parts, t, p, gone, d, MI, "mi", 'i', MANY_MI);
    t2, p2 := CutOne(toks, parts, t1, p1, gone + {MI}, d, SS, "ss", 's', MANY_SS);
  }

  lemma CutDate(toks: seq<Token>, parts: seq<string>, d: Stamp)
    returns (t1: seq<Token>, p1: seq<string>, t2: seq<Token>, p2: seq<string>, t3: seq<Token>, p3: seq<string>)
    requires Template(toks) && Fits(toks, parts)
    ensures CutsTo(CutField(Spec(toks, d), Flat(parts), "yyyy", MANY_YYYY), toks, parts, YYYY, t1, p1, d)
    ensures Find(Spec(toks, d), "yyyy") != -1 <==> Has(toks, YYYY)
    ensures CutsTo(CutField(Spec(t1, d), Flat(p1), "ddd", MANY_DDD), toks, parts, DDD, t2, p2, d)
    ensures CutsTo(CutField(Spec(t2, d), Flat(p2), "dd", MANY_DD), toks, parts, DD, t3, p3, d)
    ensures Left(toks, parts, t3, p3, {YYYY, DDD, DD})
  {
    t1, p1 := CutOne(toks, parts, toks, parts, {}, d, YYYY, "yyyy", 'y', MANY_YYYY);
    assert {} + {YYYY} == {YYYY};
    t2, p2, t3, p3 := CutDays(toks, parts, t1, p1, d);
  }

  lemma CutDays(toks: seq<Token>, parts: seq<string>, t: seq<Token>, p: seq<string>, d: Stamp)
    returns (t1: seq<Token>, p1: seq<string>, t2: seq<Token>, p2: seq<string>)
    requires Left(toks, parts, t, p, {YYYY})
    ensures CutsTo(CutField(Spec(t, d), Flat(p), "ddd", MANY_DDD), toks, parts, DDD, t1, p1, d)
    ensures CutsTo(CutField(Spec(t1, d), Flat(p1), "dd", MANY_DD), toks, parts, DD, t2, p2, d)
    ensures Left(toks, parts, t2, p2, {YYYY, DDD, DD})
  {
    t1, p1 := CutOne(toks, parts, t, p, {YYYY}, d, DDD, "ddd", 'd', MANY_DDD);
    assert {YYYY} + {DDD} == {YYYY, DDD};
    t2, p2 := CutOne(toks, parts, t1, p1, {YYYY, DDD}, d, DD, "dd", 'd', MANY_DD);
    assert {YYYY, DDD} + {DD} == {YYYY, DDD, DD};
  }

  /** The first cut that is refused decides. */
  lemma FirstRefusal(spec: string, str: string, y: Seen, w: Seen, d: Seen, named: bool, m: Seen, h: Seen, i: Seen, s: Seen)
    requires Find(spec, "yyyy") != -1 && Came(CutField(spec, str, "yyyy", MANY_YYYY), y)
    requires Came(CutField(y.temp, y.str, "ddd", MANY_DDD), w) && Came(CutField(w.temp, w.str, "dd", MANY_DD), d)
    requires named <==> Find(d.temp, "mmm") != -1
    requires Came(if named then CutField(d.temp, d.str, "mmm", MANY_MMM) else CutField(d.temp, d.str, "mm", MANY_MM), m)
    requires Came(CutField(m.temp, m.str, "hh", MANY_HH), h) && Came(CutField(h.temp, h.str, "mi", MANY_MI), i)
    requires Came(CutField(i.temp, i.str, "ss", MANY_SS), s)
    ensures CutAll(spec, str) == Outcome(y, w, d, named, m, h, i, s)
  {
    CutAllChain(spec, str, CutField(spec, str, "yyyy", MANY_YYYY), CutField(y.temp, y.str, "ddd", MANY_DDD),
                CutField(w.temp, w.str, "dd", MANY_DD), named,
                if named then CutField(d.temp, d.str, "mmm", MANY_MMM) else CutField(d.temp, d.str, "mm", MANY_MM),
                CutField(m.temp, m.str, "hh", MANY_HH), CutField(h.temp, h.str, "mi", MANY_MI),
                CutField(i.temp, i.str, "ss", MANY_SS));
  }

  function Outcome(y: Seen, w: Seen, d: Seen, named: bool, m: Seen, h: Seen, i: Seen, s: Seen): Result<Fields> {
    if y.bad then Throw(y.msg) else if w.bad then Throw(w.msg) else if d.bad then Throw(d.msg)
    else if m.bad then Throw(m.msg) else if h.bad then Throw(h.msg) else if i.bad then Throw(i.msg)
    else if s.bad then Throw(s.msg)
    else Ok(Fields(y.value, "", w.value, d.value, if named then m.value else "", if named then "" else m.value,
                   h.value, i.value, s.value, s.temp, s.str))
  }

  predicate SeenAs(c: Seen, toks: seq<Token>, parts: seq<string>, f: Field)
    requires |parts| == |toks|
  {
    c.bad == Differ(toks, parts, f) && c.msg == Many(f) && c.value == FirstText(toks, parts, f)
  }

  lemma CutAllSeen(toks: seq<Token>, parts: seq<string>, d: Stamp)
    returns (y: Seen, w: Seen, dd: Seen, m: Seen, h: Seen, i: Seen, s: Seen)
    requires Template(toks) && Fits(toks, parts) && Has(toks, YYYY)
    ensures CutAll(Spec(toks, d), Flat(parts)) == Outcome(y, w, dd, Has(toks, MMM), m, h, i, s)
    ensures SeenAs(y, toks, parts, YYYY) && SeenAs(w, toks, parts, DDD) && SeenAs(dd, toks, parts, DD)
    ensures SeenAs(m, toks, parts, MonthField(toks)) && SeenAs(h, toks, parts, HH)
    ensures SeenAs(i, toks, parts, MI) && SeenAs(s, toks, parts, SS)
  {
    var t1, p1, t2, p2, t3, p3 := CutDate(toks, parts, d);
    var t4, p4 := CutTheMonth(toks, parts, t3, p3, d);
    var t5, p5, t6, p6, t7, p7 := CutTheTime(toks, parts, t4, p4, d);
    y, w, dd := SeenOf(toks, parts, YYYY, t1, p1, d), SeenOf(toks, parts, DDD, t2, p2, d), SeenOf(toks, parts, DD, t3, p3, d);
    m, h := SeenOf(toks, parts, MonthField(toks), t4, p4, d), SeenOf(toks, parts, HH, t5, p5, d);
    i, s := SeenOf(toks, parts, MI, t6, p6, d), SeenOf(toks, parts, SS, t7, p7, d);
    FirstRefusal(Spec(toks, d), Flat(parts), y, w, dd, Has(toks, MMM), m, h, i, s);
  }

  /** Whatever stands in the places of a template with a year: the text is taken apart exactly when no
      field that is looked for reads differently at two places; else the first of them, in the order of the
      cuts, decides the message. */
  lemma CutAllPlaces(toks: seq<Token>, parts: seq<string>, d: Stamp)
    requires Template(toks) && Fits(toks, parts) && Has(toks, YYYY)
    ensures var r, m := CutAll(Spec(toks, d), Flat(parts)), MonthField(toks);
      if Differ(toks, parts, YYYY) then r == Throw("Multiple instances with different year(yyyy) values found")
      else if Differ(toks, parts, DDD) then r == Throw("Multiple instances with different day(ddd) values found")
      else if Differ(toks, parts, DD) then r == Throw("Multiple instances with different day(dd) values found")
      else if Differ(toks, parts, m) then
        r == Throw(if m == MMM then "Multiple instances with different month(mmm) values found"
                   else "Multiple instances with different month(mm) values found")
      else if Differ(toks, parts, HH) then r == Throw("Multiple instances with different hours(hh) values found")
      else if Differ(toks, parts, MI) then r == Throw("Multiple instances with different minutes(mi) values found")
      else if Differ(toks, parts, SS) then r == Throw("Multiple instances with different seconds(ss) values found")
      else
        && r.Ok? && r.value.yyyy == FirstText(toks, parts, YYYY) && r.value.yy == ""
        && r.value.ddd == FirstText(toks, parts, DDD) && r.value.dd == FirstText(toks, parts, DD)
        && r.value.mmm == (if m == MMM then FirstText(toks, parts, MMM) else "")
        && r.value.mm == (if m == MMM then "" else FirstText(toks, parts, MM))
        && r.value.hh == FirstText(toks, parts, HH) && r.value.mi == FirstText(toks, parts, MI)
        && r.value.ss == FirstText(toks, parts, SS)
  {
    var y, w, dd, m, h, i, s := CutAllSeen(toks, parts, d);
  }

  lemma ParsedRefuses(spec: string, str: string, now: Stamp, strtod: string -> Result<real>)
    requires CutAll(spec, str).Throw?
    ensures Parsed(spec, str, now, strtod) == Throw(CutAll(spec, str).message)
  {}

  /** Then `parse` refuses the text with that message, whatever the values are. */
  lemma DifferingRefused(toks: seq<Token>, parts: seq<string>, d: Stamp, now: Stamp, strtod: string -> Result<real>)
    requires Template(toks) && Fits(toks, parts) && Has(toks, YYYY)
    requires exists f :: f in {YYYY, DDD, DD, MonthField(toks), HH, MI, SS} && Differ(toks, parts, f)
    ensures var r := Parsed(Spec(toks, d), Flat(parts), now, strtod);
      r.Throw? && exists f :: f in {YYYY, DDD, DD, MonthField(toks), HH, MI, SS} && Differ(toks, parts, f) && r.message == Many(f)
  {
    CutAllPlaces(toks, parts, d);
    ParsedRefuses(Spec(toks, d), Flat(parts), now, strtod);
  }
}
