/** Templates that leave fields out: which exception DateFormat::parse throws for a missing date field, and
    what it puts in for a missing time field. */
module PartialTemplates {
  import opened Text
  import opened Decimal
  import opened Calendar
  import opened Dates
  import opened DateFormats
  import opened Templates

  // ---------------------------------------------------------------- the cuts on any template

  lemma {:induction false} NoYearLetter(toks: seq<Token>, d: Stamp)
    requires Template(toks) && !Has(toks, YYYY)
    ensures 'y' !in Spec(toks, d)
  {
    if toks != [] {
      assert Template(toks[1..]);
      NoYearLetter(toks[1..], d);
      if toks[0].Fld? { OnlyYearHasY(toks[0].f); } else { assert 'y' in FIELD_LETTERS by { assert FIELD_LETTERS[0] == 'y'; } }
    }
  }

  lemma OnlyYearHasY(f: Field)
    requires f != YYYY
    ensures 'y' !in Name(f)
  {
    match f
    case DDD => case DD => case MMM => case MM => case HH => case MI => case SS =>
  }

  lemma NoShortYear(spec: string)
    requires 'y' !in spec
    ensures Find(spec, "yyyy") == -1 && Find(spec, "yy") == -1
  {
    FirstCharOccurs(spec, "yyyy");
    FirstCharOccurs(spec, "yy");
  }

  lemma FirstCharOccurs(s: string, pat: string)
    requires pat != ""
    ensures Find(s, pat) == -1 || pat[0] in s
  {
    var i := Find(s, pat);
    if i != -1 { assert s[i..i + |pat|][0] == s[i]; }
  }

  /** The year, or neither form of it. */
  lemma CutYear(toks: seq<Token>, d: Stamp)
    requires Template(toks) && Sized(d)
    ensures var long := Find(Spec(toks, d), "yyyy") != -1; var t := Without(toks, YYYY);
      && (long <==> Has(toks, YYYY)) && Template(t) && Lacks(t, {YYYY})
      && (if long then CutField(Spec(toks, d), Printed(toks, d), "yyyy", MANY_YYYY)
          else CutField(Spec(toks, d), Printed(toks, d), "yy", MANY_YY))
         == Ok(Cut(Read(toks, d, YYYY), Spec(t, d), Printed(t, d)))
  {
    CutFieldShow(toks, d, YYYY, "yyyy", 'y', {}, MANY_YYYY);
    if !Has(toks, YYYY) {
      NoYearLetter(toks, d);
      NoShortYear(Spec(toks, d));
      WithoutNothing(toks, YYYY);
    }
  }

  lemma CutAllFrom(spec: string, str: string, long: bool, y: Cut, w: Cut, d: Cut, named: bool, m: Cut, h: Cut, i: Cut, s: Cut)
    requires long <==> Find(spec, "yyyy") != -1
    requires (if long then CutField(spec, str, "yyyy", MANY_YYYY) else CutField(spec, str, "yy", MANY_YY)) == Ok(y)
    requires CutField(y.temp, y.str, "ddd", MANY_DDD) == Ok(w)
    requires CutField(w.temp, w.str, "dd", MANY_DD) == Ok(d)
    requires named <==> Find(d.temp, "mmm") != -1
    requires (if named then CutField(d.temp, d.str, "mmm", MANY_MMM) else CutField(d.temp, d.str, "mm", MANY_MM)) == Ok(m)
    requires CutField(m.temp, m.str, "hh", MANY_HH) == Ok(h)
    requires CutField(h.temp, h.str, "mi", MANY_MI) == Ok(i)
    requires CutField(i.temp, i.str, "ss", MANY_SS) == Ok(s)
    ensures CutAll(spec, str)
         == Ok(Fields(if long then y.value else "", if long then "" else y.value, w.value, d.value,
                      if named then m.value else "", if named then "" else m.value, h.value, i.value, s.value, s.temp, s.str))
  {}

  lemma ReadLater(toks: seq<Token>, d: Stamp)
    ensures var t1, t3 := Without(toks, YYYY), Dateless(toks); var t4 := Monthless(t3);
      && Read(t1, d, DDD) == Read(toks, d, DDD) && Read(Without(t1, DDD), d, DD) == Read(toks, d, DD)
      && (Has(t3, MMM) <==> Has(toks, MMM)) && Read(t3, d, MM) == Read(toks, d, MM)
      && Read(t4, d, HH) == Read(toks, d, HH) && Read(Without(t4, HH), d, MI) == Read(toks, d, MI)
      && Read(Without(Without(t4, HH), MI), d, SS) == Read(toks, d, SS)
  {
    HasWithout(toks, YYYY, DDD);
    HasWithout(toks, YYYY, DD);
    HasWithout(Without(toks, YYYY), DDD, DD);
    KeptByDate(toks, MMM); KeptByDate(toks, MM); KeptByDate(toks, HH); KeptByDate(toks, MI); KeptByDate(toks, SS);
    var t3 := Dateless(toks);
    var m := if Has(t3, MMM) then MMM else MM;
    KeptByMonth(t3, m, HH); KeptByMonth(t3, m, MI); KeptByMonth(t3, m, SS);
  }

  /** The cutting phase on a printed date: every field the template has is read, the others are empty. */
  lemma CutAllOfAny(toks: seq<Token>, d: Stamp)
    requires Template(toks) && Sized(d)
    ensures CutAll(Spec(toks, d), Printed(toks, d)) == Ok(FieldsOf(toks, d)) && Within(Residue(toks))
  {
    var t1, t2, t3 := Without(toks, YYYY), Without(Without(toks, YYYY), DDD), Dateless(toks);
    var t4 := Monthless(t3);
    var t5, t6 := Without(t4, HH), Without(Without(t4, HH), MI);
    CutYear(toks, d);
    CutFieldShow(t1, d, DDD, "ddd", 'd', {YYYY}, MANY_DDD);
    NothingBehind(t2, d);
    CutDay(t2, d, "");
    CutMonth(t3, d, "");
    CutHours(t4, d, "");
    CutSeconds(t6, d, "");
    ReadLater(toks, d);
    NothingBehind(t3, d); NothingBehind(t4, d); NothingBehind(t5, d); NothingBehind(t6, d); NothingBehind(Without(t6, SS), d);
    CutAllFrom(Spec(toks, d), Printed(toks, d), Has(toks, YYYY), CutOf(Read(toks, d, YYYY), t1, d), CutOf(Read(t1, d, DDD), t2, d),
               CutOf(Read(t2, d, DD), t3, d), Has(t3, MMM), CutOf(if Has(t3, MMM) then d.monthw else Read(t3, d, MM), t4, d),
               CutOf(Read(t4, d, HH), t5, d), CutOf(Read(t5, d, MI), t6, d), CutOf(Read(t6, d, SS), Without(t6, SS), d));
  }

  function CutOf(value: string, toks: seq<Token>, d: Stamp): Cut { Cut(value, Spec(toks, d), Printed(toks, d)) }

  lemma NothingBehind(toks: seq<Token>, d: Stamp)
    ensures Printed(toks, d) + "" == Printed(toks, d)
  {}

  /** What the cuts make of a printed date. */
  function FieldsOf(toks: seq<Token>, d: Stamp): Fields {
    var named := Has(toks, MMM);
    Fields(Read(toks, d, YYYY), "", Read(toks, d, DDD), Read(toks, d, DD), if named then d.monthw else "",
           if named then "" else Read(toks, d, MM), Read(toks, d, HH), Read(toks, d, MI), Read(toks, d, SS),
           Spec(Residue(toks), d), Printed(Residue(toks), d))
  }

  // ---------------------------------------------------------------- missing date fields

  lemma ParsedBy(spec: string, str: string, f: Fields, tzv: string, now: Stamp, strtod: string -> Result<real>)
    requires CutAll(spec, str) == Ok(f) && Zone(f.temp, f.str) == Ok(tzv)
    ensures Parsed(spec, str, now, strtod) == Assembled(f, tzv, now, strtod)
  {}

  lemma ParseOfAny(toks: seq<Token>, c: Civil, h: int, mi: int, s: int, now: Stamp, strtod: string -> Result<real>)
    requires Template(toks) && Writable(c, h, mi, s)
    ensures var d := Full(c, h, mi, s, 0.0);
      Parsed(Spec(toks, d), Printed(toks, d), now, strtod) == Assembled(FieldsOf(toks, d), ZoneText(toks, d), now, strtod)
  {
    var d := Full(c, h, mi, s, 0.0);
    WritableShape(c, h, mi, s, 0.0);
    CutAllOfAny(toks, d);
    ZoneOfResidue(toks, d);
    ParsedBy(Spec(toks, d), Printed(toks, d), FieldsOf(toks, d), ZoneText(toks, d), now, strtod);
  }

  lemma FieldsAre(toks: seq<Token>, c: Civil, h: int, mi: int, s: int)
    ensures var f := FieldsOf(toks, Full(c, h, mi, s, 0.0));
      && f.yyyy == (if Has(toks, YYYY) then Two(c.year) else "") && f.yy == ""
      && f.ddd == (if Has(toks, DDD) then DayName(DayIndex(c.year, c.month, c.day)) else "")
      && f.dd == (if Has(toks, DD) then Two(c.day) else "")
      && f.mmm == (if Has(toks, MMM) then MonthName(c.month) else "")
      && f.mm == (if !Has(toks, MMM) && Has(toks, MM) then Two(c.month) else "")
      && f.hh == (if Has(toks, HH) then Two(h) else "") && f.mi == (if Has(toks, MI) then Two(mi) else "")
      && f.ss == (if Has(toks, SS) then Two(s) else "")
  {}

  lemma BuiltWithout(f: Fields, now: Stamp)
    ensures f.yy == "" && (f.yyyy == "" || f.dd == "") ==> Built(f, now) == Throw("Invalid Date year/day specified")
    ensures f.yyyy != "" && f.dd != "" && f.mmm == "" && f.mm == "" && CastInt(f.yyyy).Ok? ==>
              Built(f, now) == Throw("Invalid Date month specified")
  {}

  lemma NotEmpty(n: nat)
    ensures Two(n) != "" && CastInt(Two(n)) == Ok(n)
  {
    CastTwo(n);
  }

  /** A printed date is refused for its year or day exactly when the template lacks one of them, and for its
      month exactly when it has those and no month: on every template with separated fields. */
  lemma MissingDateFields(toks: seq<Token>, c: Civil, h: int, mi: int, s: int, now: Stamp, strtod: string -> Result<real>)
    requires Template(toks) && Writable(c, h, mi, s)
    ensures var d := Full(c, h, mi, s, 0.0); var r := Parsed(Spec(toks, d), Printed(toks, d), now, strtod);
      && (!Has(toks, YYYY) || !Has(toks, DD) ==> r == Throw("Invalid Date year/day specified"))
      && (Has(toks, YYYY) && Has(toks, DD) && !Has(toks, MMM) && !Has(toks, MM) ==> r == Throw("Invalid Date month specified"))
  {
    var f := FieldsOf(toks, Full(c, h, mi, s, 0.0));
    ParseOfAny(toks, c, h, mi, s, now, strtod);
    FieldsAre(toks, c, h, mi, s);
    NotEmpty(c.year);
    NotEmpty(c.day);
    BuiltWithout(f, now);
  }

  // ---------------------------------------------------------------- missing time fields

  /** What a missing time field is taken to be when the clock shows `n`: the number becomes a character,
      and the character is cast. */
  function Guessed(n: nat): Result<int> {
    if n == 0 then Ok(0) else if 48 <= n <= 57 then Ok(n - 48) else Throw("Conversion exception - string to int")
  }

  lemma GuessedIs(n: nat)
    requires n < 60
    ensures TimeField("", Two(n)) == Guessed(n)
  {
    CastTwo(n);
    OneCharRead(OneChar(n), n);
  }

  lemma OneCharRead(s: string, n: nat)
    requires n < 60 && s == [n as char]
    ensures CastInt(s) == Guessed(n)
  {
    if n == 0 {
      assert CStr(s) == "";
    } else if 48 <= n <= 57 {
      assert AllDigits(s) && s[..0] == "";
      CastDigits(s);
      assert DigitsVal(s) == 10 * DigitsVal(s[..0]) + DigitVal(s[0]);
    } else if CastInt(s).Ok? {
      var blank, sign, digits := CastIsNumeral(s);
      OneCharNumeral(s, blank, sign, digits);
    }
  }

  lemma OneCharNumeral(s: string, blank: string, sign: string, digits: string)
    requires |s| == 1 && s == blank + sign + digits && digits != "" && AllDigits(digits)
    ensures IsDigit(s[0])
  {
    assert |digits| == 1 && blank == "" && sign == "" && s == digits;
  }

  /** The time a template without some of the time fields gives: its own where it has the field, else the
      guess from the clock; or the failure of the first guess. */
  function TimeFrom(toks: seq<Token>, f: Field, own: int, shown: nat): Result<int> {
    if Has(toks, f) then Ok(own) else Guessed(shown)
  }

  lemma FieldFrom(toks: seq<Token>, f: Field, own: int, shown: nat, text: string, current: string)
    requires shown < 60 && current == Two(shown) && own >= 0 && text == (if Has(toks, f) then Two(own) else "")
    ensures var r := TimeFrom(toks, f, own, shown);
      TimeField(text, current) == r && if r.Ok? then r.value == own || 0 <= r.value <= 9 else r.message == BAD_INT
  {
    if Has(toks, f) { TimeRead(own, current); NotEmpty(own); } else { GuessedIs(shown); }
  }

  /** A template with a date but not all of the time, and no signs: the date comes back, with a time that is
      its own where the template has the field and a guess from the clock elsewhere. When the clock shows
      neither 0 nor 48 to 57 for a missing field, as for every missing hour but the one after midnight, the
      text is refused. */
  lemma MissingTimeFields(toks: seq<Token>, c: Civil, h: int, mi: int, s: int, now: Stamp, nh: nat, nm: nat, ns: nat,
                          strtod: string -> Result<real>)
    requires Template(toks) && Has(toks, YYYY) && Has(toks, DD) && (Has(toks, MMM) || Has(toks, MM)) && Signless(toks)
    requires Writable(c, h, mi, s) && nh < 24 && nm < 60 && ns < 60 && now.hh == Two(nh) && now.mm == Two(nm) && now.ss == Two(ns)
    ensures var d := Full(c, h, mi, s, 0.0); var r := Parsed(Spec(toks, d), Printed(toks, d), now, strtod);
      var x, y, z := TimeFrom(toks, HH, h, nh), TimeFrom(toks, MI, mi, nm), TimeFrom(toks, SS, s, ns);
      r == if x.Ok? && y.Ok? && z.Ok? then Ok(Full(c, x.value, y.value, z.value, 0.0))
           else Throw("Conversion exception - string to int")
  {
    ParseOfAny(toks, c, h, mi, s, now, strtod);
    NoZone(toks, Full(c, h, mi, s, 0.0));
    TimePutIn(toks, c, h, mi, s, FieldsOf(toks, Full(c, h, mi, s, 0.0)), now, nh, nm, ns, strtod);
  }

  lemma TimePutIn(toks: seq<Token>, c: Civil, h: int, mi: int, s: int, f: Fields, now: Stamp, nh: nat, nm: nat, ns: nat,
                  strtod: string -> Result<real>)
    requires Has(toks, YYYY) && Has(toks, DD) && (Has(toks, MMM) || Has(toks, MM)) && f == FieldsOf(toks, Full(c, h, mi, s, 0.0))
    requires Writable(c, h, mi, s) && nh < 24 && nm < 60 && ns < 60 && now.hh == Two(nh) && now.mm == Two(nm) && now.ss == Two(ns)
    ensures var x, y, z := TimeFrom(toks, HH, h, nh), TimeFrom(toks, MI, mi, nm), TimeFrom(toks, SS, s, ns);
      Assembled(f, "", now, strtod)
      == if x.Ok? && y.Ok? && z.Ok? then Ok(Full(c, x.value, y.value, z.value, 0.0)) else Throw(BAD_INT)
  {
    DatePutIn(toks, c, h, mi, s, f, now);
    var x, y, z := TimesPutIn(toks, c, h, mi, s, f, now, nh, nm, ns);
    TimedAfter(c, f, now, strtod, x, y, z);
  }

  lemma TimesPutIn(toks: seq<Token>, c: Civil, h: int, mi: int, s: int, f: Fields, now: Stamp, nh: nat, nm: nat, ns: nat)
    returns (x: Result<int>, y: Result<int>, z: Result<int>)
    requires SetTimeTakes(h, mi, s) && f == FieldsOf(toks, Full(c, h, mi, s, 0.0))
    requires nh < 24 && nm < 60 && ns < 60 && now.hh == Two(nh) && now.mm == Two(nm) && now.ss == Two(ns)
    ensures x == TimeFrom(toks, HH, h, nh) && y == TimeFrom(toks, MI, mi, nm) && z == TimeFrom(toks, SS, s, ns)
    ensures TimeField(f.hh, now.hh) == x && TimeField(f.mi, now.mm) == y && TimeField(f.ss, now.ss) == z
    ensures (x.Ok? ==> 0 <= x.value <= 24) && (y.Ok? ==> 0 <= y.value <= 60) && (z.Ok? ==> 0 <= z.value <= 60)
    ensures (x.Throw? ==> x.message == BAD_INT) && (y.Throw? ==> y.message == BAD_INT) && (z.Throw? ==> z.message == BAD_INT)
  {
    FieldsAre(toks, c, h, mi, s);
    FieldFrom(toks, HH, h, nh, f.hh, now.hh);
    FieldFrom(toks, MI, mi, nm, f.mi, now.mm);
    FieldFrom(toks, SS, s, ns, f.ss, now.ss);
    x, y, z := TimeFrom(toks, HH, h, nh), TimeFrom(toks, MI, mi, nm), TimeFrom(toks, SS, s, ns);
  }

  lemma DatePutIn(toks: seq<Token>, c: Civil, h: int, mi: int, s: int, f: Fields, now: Stamp)
    requires Has(toks, YYYY) && Has(toks, DD) && (Has(toks, MMM) || Has(toks, MM)) && f == FieldsOf(toks, Full(c, h, mi, s, 0.0))
    requires Writable(c, h, mi, s)
    ensures Built(f, now) == Ok(Full(c, 0, 0, 0, 0.0).(hh := now.hh, mm := now.mm, ss := now.ss))
    ensures f.ddd == "" || ToUpper(f.ddd) == DayName(DayIndex(c.year, c.month, c.day))
  {
    FieldsAre(toks, c, h, mi, s);
    BuiltFromRead(c, f, now);
    WeekdayRead(c);
  }

  lemma NoZone(toks: seq<Token>, d: Stamp)
    requires Signless(toks)
    ensures ZoneText(toks, d) == ""
  {
    ResidueLiterals(toks, Lit('+'));
    ResidueLiterals(toks, Lit('-'));
  }

  lemma TimedAfter(c: Civil, f: Fields, now: Stamp, strtod: string -> Result<real>, x: Result<int>, y: Result<int>, z: Result<int>)
    requires Built(f, now) == Ok(Full(c, 0, 0, 0, 0.0).(hh := now.hh, mm := now.mm, ss := now.ss))
    requires f.ddd == "" || ToUpper(f.ddd) == DayName(DayIndex(c.year, c.month, c.day))
    requires TimeField(f.hh, now.hh) == x && TimeField(f.mi, now.mm) == y && TimeField(f.ss, now.ss) == z
    requires (x.Ok? ==> 0 <= x.value <= 24) && (y.Ok? ==> 0 <= y.value <= 60) && (z.Ok? ==> 0 <= z.value <= 60)
    requires (x.Throw? ==> x.message == BAD_INT) && (y.Throw? ==> y.message == BAD_INT) && (z.Throw? ==> z.message == BAD_INT)
    ensures Assembled(f, "", now, strtod)
         == if x.Ok? && y.Ok? && z.Ok? then Ok(Full(c, x.value, y.value, z.value, 0.0)) else Throw(BAD_INT)
  {}
}
