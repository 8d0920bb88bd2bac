/** DateFormat.cpp: printing a date by a chain of replacements on the template, and reading one back by
    finding each field in the template and cutting it out of template and text together. */
module DateFormats {
  import opened Text
  import opened Decimal
  import opened Calendar
  import opened Dates

  // ---------------------------------------------------------------- format

  /** What `format` returns; `showFloat` prints a float as CastUtil does. */
  function Formatted(spec: string, d: Stamp, showFloat: real -> string): Result<string> {
    var t1 := Replaced(spec, "hh", d.hh);
    var t2 := Replaced(t1, "mi", d.mm);
    var t3 := Replaced(t2, "ss", d.ss);
    var t4 := Replaced(t3, "ns", IntToStr(d.nanoseconds));
    var t5 := Replaced(t4, "ddd", d.dayw);
    var t6 := Replaced(t5, "dd", d.day);
    var t7 := Replaced(t6, "mmm", d.monthw);
    var t8 := Replaced(t7, "mm", d.month);
    var t9 := Replaced(t8, "yyyy", d.year);
    var yy :- SubstrFrom(d.year, 2);
    Ok(Replaced(t9, "yy", yy) + ZoneSuffix(d.timeZoneOffset, showFloat))
  }

  function ZoneSuffix(tz: real, showFloat: real -> string): string {
    if tz > 0.0 then "+" + showFloat(tz)
    else if tz < 0.0 then "-" + showFloat(tz)
    else ""
  }

  // ---------------------------------------------------------------- parse

  /** The value of one field, and template and text with the field cut out of both. */
  datatype Cut = Cut(value: string, temp: string, str: string)

  /** Cuts every occurrence of a field, insisting that all of them read the same. */
  function CutLoop(value: string, ytemp: string, str: string, pat: string, msg: string): Result<Cut>
    requires pat != ""
    decreases |ytemp|
  {
    var p := Find(ytemp, pat);
    if p == -1 then Ok(Cut(value, ytemp, str))
    else
      var again :- Substr(str, p, |pat|);
      if value != again then Throw(msg)
      else
        var tail :- SubstrFrom(str, p + |pat|);
        CutLoop(value, ReplaceFirst(ytemp, pat, ""), str[..p] + tail, pat, msg)
  }

  lemma CutLoopStep(value: string, ytemp: string, str: string, pat: string, msg: string)
    requires pat != "" && Find(ytemp, pat) != -1
    requires Substr(str, Find(ytemp, pat), |pat|) == Ok(value) && SubstrFrom(str, Find(ytemp, pat) + |pat|).Ok?
    ensures var p := Find(ytemp, pat);
      CutLoop(value, ytemp, str, pat, msg) ==
        CutLoop(value, ReplaceFirst(ytemp, pat, ""), str[..p] + SubstrFrom(str, p + |pat|).value, pat, msg)
    ensures |ReplaceFirst(ytemp, pat, "")| < |ytemp|
  {}

  function CutField(temp: string, str: string, pat: string, msg: string): Result<Cut>
    requires pat != ""
  {
    var p := Find(temp, pat);
    if p == -1 then Ok(Cut("", temp, str))
    else
      var value :- Substr(str, p, |pat|);
      CutLoop(value, temp, str, pat, msg)
  }

  const MANY_YYYY := "Multiple instances with different year(yyyy) values found"
  const MANY_YY := "Multiple instances with different year(yy) values found"
  const MANY_DDD := "Multiple instances with different day(ddd) values found"
  const MANY_DD := "Multiple instances with different day(dd) values found"
  const MANY_MMM := "Multiple instances with different month(mmm) values found"
  const MANY_MM := "Multiple instances with different month(mm) values found"
  const MANY_HH := "Multiple instances with different hours(hh) values found"
  const MANY_MI := "Multiple instances with different minutes(mi) values found"
  const MANY_SS := "Multiple instances with different seconds(ss) values found"

  datatype Fields = Fields(yyyy: string, yy: string, ddd: string, dd: string, mmm: string, mm: string,
                           hh: string, mi: string, ss: string, temp: string, str: string)

  function CutAll(spec: string, strdate: string): Result<Fields> {
    var long := Find(spec, "yyyy") != -1;
    var y :- if long then CutField(spec, strdate, "yyyy", MANY_YYYY) else CutField(spec, strdate, "yy", MANY_YY);
    var w :- CutField(y.temp, y.str, "ddd", MANY_DDD);
    var d :- CutField(w.temp, w.str, "dd", MANY_DD);
    var named := Find(d.temp, "mmm") != -1;
    var m :- if named then CutField(d.temp, d.str, "mmm", MANY_MMM) else CutField(d.temp, d.str, "mm", MANY_MM);
    var h :- CutField(m.temp, m.str, "hh", MANY_HH);
    var i :- CutField(h.temp, h.str, "mi", MANY_MI);
    var s :- CutField(i.temp, i.str, "ss", MANY_SS);
    Ok(Fields(if long then y.value else "", if long then "" else y.value, w.value, d.value,
              if named then m.value else "", if named then "" else m.value,
              h.value, i.value, s.value, s.temp, s.str))
  }

  /** The time zone text: looked for in what is left of the text, located by what is left of the template. */
  function Zone(temp: string, str: string): Result<string> {
    if Find(str, "+") != -1 then SubstrFrom(str, Find(temp, "+") + 1)
    else if Find(str, "-") != -1 then SubstrFrom(str, Find(temp, "-"))
    else Ok("")
  }

  function Built(f: Fields, now: Stamp): Result<Stamp> {
    if (f.yyyy != "" || f.yy != "") && f.dd != "" then
      var y :- CastInt(if f.yyyy != "" then f.yyyy else f.yy);
      if f.mmm != "" then
        var d :- CastInt(f.dd);
        MadeByName(y, f.mmm, d, now)
      else if f.mm != "" then
        var m :- CastInt(f.mm);
        var d :- CastInt(f.dd);
        Made(y, m, d, now)
      else Throw("Invalid Date month specified")
    else Throw("Invalid Date year/day specified")
  }

  /** Whether strtod finds a number to read at all: after blanks and one sign comes a digit, a point,
      or the first letter of "inf" or "nan". */
  predicate StartsNumber(s: string) {
    var t := SkipSpaces(s);
    var u := if t != "" && t[0] in "+-" then t[1..] else t;
    u != "" && (IsDigit(u[0]) || u[0] in ".iInN")
  }

  /** lexical_cast<float>; `strtod` is the library's reading of a text that does start a number. */
  function CastFloat(s: string, strtod: string -> Result<real>): Result<real> {
    if s == "" then Ok(0.0)
    else if !StartsNumber(s) then Throw("Conversion exception - string to double")
    else strtod(s)
  }

  /** The cast of a time zone text: 0 for the empty one; what strtod reads where, behind blanks and at most
      one sign, a digit, a point or the first letter of "inf" or "nan" begins a number; else an exception. */
  lemma CastFloatExactly(blank: string, sign: string, rest: string, strtod: string -> Result<real>)
    requires Blank(blank) && (sign == "" || sign == "+" || sign == "-")
    requires rest == "" || (!(rest[0] == ' ' || 9 <= rest[0] as int <= 13) && (sign == "" ==> rest[0] != '+' && rest[0] != '-'))
    ensures var s := blank + sign + rest;
      CastFloat(s, strtod)
      == if s == "" then Ok(0.0)
         else if rest != "" && ('0' <= rest[0] <= '9' || rest[0] in ['.', 'i', 'I', 'n', 'N']) then strtod(s)
         else Throw("Conversion exception - string to double")
  {
    var s, t := blank + sign + rest, sign + rest;
    assert s == blank + t;
    SpacesSkipped(blank, t);
    if sign == "" { assert t == rest; } else { assert t[0] in "+-" && t[1..] == rest; }
  }

  const BAD_ZONE := "Invalid Timezone specified"

  function Zoned(s: Stamp, tzv: string, strtod: string -> Result<real>): Result<Stamp> {
    if tzv == "" then Ok(s)
    else match CastFloat(tzv, strtod)
      case Ok(v) => Ok(s.(timeZoneOffset := v))
      case Throw(_) => Throw(BAD_ZONE)
  }

  /** A missing time field is assigned an int, which std::string takes as one character. */
  function OneChar(n: int): string { [(n % 256) as char] }

  function TimeField(text: string, current: string): Result<int> {
    if text != "" then CastInt(text)
    else
      var n :- CastInt(current);
      CastInt(OneChar(n))
  }

  /** The second half of `parse`: build the date, set its zone, check the weekday, set the time. */
  function Assembled(f: Fields, tzv: string, now: Stamp, strtod: string -> Result<real>): Result<Stamp> {
    var b :- Built(f, now);
    var z :- Zoned(b, tzv, strtod);
    if f.ddd != "" && z.dayw != ToUpper(f.ddd) then Throw("Invalid Day(ddd) specified")
    else
      var h :- TimeField(f.hh, z.hh);
      var mi :- TimeField(f.mi, z.mm);
      var s :- TimeField(f.ss, z.ss);
      Timed(z, h, mi, s)
  }

  function Parsed(spec: string, strdate: string, now: Stamp, strtod: string -> Result<real>): Result<Stamp> {
    var f :- CutAll(spec, strdate);
    var tzv :- Zone(f.temp, f.str);
    Assembled(f, tzv, now, strtod)
  }

  // ---------------------------------------------------------------- the class

  class DateFormat {
    var formatspec: string

    constructor (format: string)
      ensures formatspec == format
    {
      formatspec := format;
    }

    method Format(date: Date, showFloat: real -> string) returns (r: Result<string>)
      ensures r == Formatted(formatspec, date.View(), showFloat)
    {
      var temp := formatspec;
      temp := ReplaceAll(temp, "hh", date.hh);
      temp := ReplaceAll(temp, "mi", date.mm);
      temp := ReplaceAll(temp, "ss", date.ss);
      temp := ReplaceAll(temp, "ns", IntToStr(date.nanoseconds));
      temp := ReplaceAll(temp, "ddd", date.dayw);
      temp := ReplaceAll(temp, "dd", date.day);
      temp := ReplaceAll(temp, "mmm", date.monthw);
      temp := ReplaceAll(temp, "mm", date.month);
      temp := ReplaceAll(temp, "yyyy", date.year);
      var yy :- SubstrFrom(date.year, 2);
      temp := ReplaceAll(temp, "yy", yy);
      if date.timeZoneOffset > 0.0 {
        temp := temp + ("+" + showFloat(date.timeZoneOffset));
      } else if date.timeZoneOffset < 0.0 {
        temp := temp + ("-" + showFloat(date.timeZoneOffset));
      } else {
        temp := temp + "";
      }
      return Ok(temp);
    }

    /** One block of `parse`: while the field occurs in the template, compare and cut. */
    static method CutOut(temp: string, text: string, pat: string, msg: string) returns (r: Result<Cut>)
      requires pat != ""
      ensures r == CutField(temp, text, pat, msg)
    {
      if Find(temp, pat) == -1 { return Ok(Cut("", temp, text)); }
      var strdate := text;
      var value :- Substr(strdate, Find(temp, pat), |pat|);
      var ytemp := temp;
      while Find(ytemp, pat) != -1
        invariant CutLoop(value, ytemp, strdate, pat, msg) == CutField(temp, text, pat, msg)
        decreases |ytemp|
      {
        var p := Find(ytemp, pat);
        var again :- Substr(strdate, p, |pat|);
        if value != again { return Throw(msg); }
        var tail :- SubstrFrom(strdate, p + |pat|);
        CutLoopStep(value, ytemp, strdate, pat, msg);
        strdate := strdate[..p] + tail;
        ytemp := ReplaceFirst(ytemp, pat, "");
      }
      return Ok(Cut(value, ytemp, strdate));
    }

    method Cuts(text: string) returns (r: Result<Fields>)
      ensures r == CutAll(formatspec, text)
    {
      var yyyy, yy, mmm, mm := "", "", "", "";
      var r1: Result<Cut>;
      if Find(formatspec, "yyyy") != -1 {
        r1 := CutOut(formatspec, text, "yyyy", MANY_YYYY);
        if r1.Ok? { yyyy := r1.value.value; }
      } else {
        r1 := CutOut(formatspec, text, "yy", MANY_YY);
        if r1.Ok? { yy := r1.value.value; }
      }
      var y :- r1;
      var r2 := CutOut(y.temp, y.str, "ddd", MANY_DDD);
      var w :- r2;
      var r3 := CutOut(w.temp, w.str, "dd", MANY_DD);
      var d :- r3;
      var r4: Result<Cut>;
      if Find(d.temp, "mmm") != -1 {
        r4 := CutOut(d.temp, d.str, "mmm", MANY_MMM);
        if r4.Ok? { mmm := r4.value.value; }
      } else {
        r4 := CutOut(d.temp, d.str, "mm", MANY_MM);
        if r4.Ok? { mm := r4.value.value; }
      }
      var m :- r4;
      var r5 := CutOut(m.temp, m.str, "hh", MANY_HH);
      var h :- r5;
      var r6 := CutOut(h.temp, h.str, "mi", MANY_MI);
      var i :- r6;
      var r7 := CutOut(i.temp, i.str, "ss", MANY_SS);
      var s :- r7;
      return Ok(Fields(yyyy, yy, w.value, d.value, mmm, mm, h.value, i.value, s.value, s.temp, s.str));
    }

    static method Build(f: Fields, now: Stamp) returns (r: Result<Date>)
      ensures match Built(f, now)
        case Ok(v) => r.Ok? && fresh(r.value) && r.value.View() == v
        case Throw(e) => r == Throw(e)
    {
      if (f.yyyy != "" || f.yy != "") && f.dd != "" {
        var y :- CastInt(if f.yyyy != "" then f.yyyy else f.yy);
        if f.mmm != "" {
          var d :- CastInt(f.dd);
          r := Date.MakeByName(y, f.mmm, d, now);
        } else if f.mm != "" {
          var m :- CastInt(f.mm);
          var d :- CastInt(f.dd);
          r := Date.Make(y, m, d, now);
        } else {
          return Throw("Invalid Date month specified");
        }
      } else {
        return Throw("Invalid Date year/day specified");
      }
    }

    method Parse(strdate: string, now: Stamp, strtod: string -> Result<real>) returns (r: Result<Date>)
      ensures match Parsed(formatspec, strdate, now, strtod)
        case Ok(v) => r.Ok? && fresh(r.value) && r.value.View() == v
        case Throw(e) => r == Throw(e)
    {
      var cuts := Cuts(strdate);
      var f :- cuts;
      var tzv :- Zone(f.temp, f.str);
      var built := Build(f, now);
      var date :- built;
      if tzv != "" {
        var cast := CastFloat(tzv, strtod);
        if cast.Throw? { return Throw(BAD_ZONE); }
        date.timeZoneOffset := cast.value;
      }
      if f.ddd != "" && date.dayw != ToUpper(f.ddd) { return Throw("Invalid Day(ddd) specified"); }
      var h :- TimeField(f.hh, date.hh);
      var mi :- TimeField(f.mi, date.mm);
      var s :- TimeField(f.ss, date.ss);
      var done := date.SetTime(h, mi, s);
      var _ :- done;
      return Ok(date);
    }
  }
}
