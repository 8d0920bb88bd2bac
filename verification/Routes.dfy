/** The route selection of ControllerHandler::handle: path templates with {param} segments, tried in
    the order of the route table, and the values their parameters are bound to. */
module Routes {
  import opened Text

  /** An entry of the route table: the path template and the HTTP method of the function behind it. */
  datatype Route = Route(path: string, verb: string)

  /** What the search leaves in the response. */
  datatype Status = Untouched | NotFound | InvalidMethod

  datatype Verdict = Selected(route: nat) | WrongMethod | Unmatched

  type Bindings = map<string, string>

  // ---------------------------------------------------------------- one segment

  predicate IsParam(seg: string) { Find(seg, "{") != -1 && Find(seg, "}") != -1 && |seg| > 2 }

  /** The text before the first brace, between the braces and behind the first closing one. Where the
      closing brace comes first, the negative length turns into a huge one and takes all the rest. */
  function Prefix(seg: string): string
    requires IsParam(seg)
  {
    seg[..Find(seg, "{")]
  }

  function Suffix(seg: string): string
    requires IsParam(seg)
  {
    seg[Find(seg, "}") + 1..]
  }

  function Name(seg: string): string
    requires IsParam(seg)
  {
    var st, close := Find(seg, "{") + 1, Find(seg, "}");
    if close < st then seg[st..] else seg[st..close]
  }

  /** substr with a length that may have been negative before it became unsigned. */
  function Cut(s: string, pos: nat, n: int): Result<string> {
    if n < 0 then SubstrFrom(s, pos) else Substr(s, pos, n)
  }

  /** The value a parameter segment takes from a segment of the URL. */
  function Extracted(seg: string, value: string): Result<string>
    requires IsParam(seg)
  {
    var pref, suff := Prefix(seg), Suffix(seg);
    if pref == "" then Ok(value)
    else Cut(value, Find(value, pref) + |pref|, |value| - |pref| - |suff|)
  }

  /** A segment of a URL that fills the parameter of a template's segment with `v`. */
  function Filled(seg: string, v: string): string
    requires IsParam(seg)
  {
    Prefix(seg) + v + Suffix(seg)
  }

  /** Reading a parameter back gives what was filled in just when the segment has text in front of it or
      none behind it. */
  lemma ExtractedFilled(seg: string, v: string)
    requires IsParam(seg)
    ensures Extracted(seg, Filled(seg, v)) == Ok(v) <==> Prefix(seg) != "" || Suffix(seg) == ""
  {
    var pref, suff, value := Prefix(seg), Suffix(seg), Filled(seg, v);
    if pref != "" {
      assert value[..|pref|] == pref;
      FindIs(value, pref, 0);
      assert value[|pref|..|pref| + |v|] == v;
    } else {
      assert |value| == |v| + |suff|;
      if suff == "" { assert value == v; }
    }
  }

  /** A value is refused, with an exception, just when the prefix is nowhere in it and it is shorter than
      the prefix less one. */
  lemma ExtractionThrows(seg: string, value: string)
    requires IsParam(seg)
    ensures Extracted(seg, value).Throw? <==> !Occurs(value, Prefix(seg)) && |value| < |Prefix(seg)| - 1
  {
    var pref := Prefix(seg);
    var k := Find(value, pref);
    if k == -1 {
      assert !Occurs(value, pref);
    } else {
      assert MatchAt(value, pref, k);
    }
  }

  /** A segment with one pair of braces: what is in front, between and behind. */
  lemma ParamParts(pre: string, n: string, suf: string)
    requires '{' !in pre && '}' !in pre && '}' !in n
    ensures var seg := pre + "{" + n + "}" + suf;
      && (IsParam(seg) <==> pre != "" || n != "" || suf != "")
      && (IsParam(seg) ==> Name(seg) == n && Prefix(seg) == pre && Suffix(seg) == suf)
  {
    var seg := pre + "{" + n + "}" + suf;
    var k := |pre| + 1 + |n|;
    FoundChar(seg, '{', |pre|);
    FoundChar(seg, '}', k);
    assert seg[..|pre|] == pre && seg[|pre| + 1..k] == n && seg[k + 1..] == suf;
  }

  /** With the closing brace in front, the name is all that stands behind the opening one. */
  lemma ReversedParts(pre: string, mid: string, rest: string)
    requires '{' !in pre && '}' !in pre && '{' !in mid
    ensures var seg := pre + "}" + mid + "{" + rest;
      && (IsParam(seg) <==> pre != "" || mid != "" || rest != "")
      && (IsParam(seg) ==> Name(seg) == rest && Prefix(seg) == pre + "}" + mid && Suffix(seg) == mid + "{" + rest)
  {
    var seg := pre + "}" + mid + "{" + rest;
    var k := |pre| + 1 + |mid|;
    FoundChar(seg, '}', |pre|);
    FoundChar(seg, '{', k);
    assert seg[..k] == pre + "}" + mid && seg[|pre| + 1..] == mid + "{" + rest && seg[k + 1..] == rest;
  }

  lemma NoBraces(seg: string)
    requires '{' !in seg || '}' !in seg
    ensures !IsParam(seg)
  {
    NotFoundChar(seg, '{');
    NotFoundChar(seg, '}');
  }

  lemma FoundChar(s: string, c: char, i: nat)
    requires i < |s| && s[i] == c && c !in s[..i]
    ensures Find(s, [c]) == i
  {
    assert s[i..i + 1] == [c];
    forall j | 0 <= j < i ensures !MatchAt(s, [c], j) { assert s[j..j + 1][0] == s[..i][j]; }
    FindIs(s, [c], i);
  }

  /** What a parameter takes when its prefix first stands `|a|` characters into the value: what follows
      it, as many characters as the value has besides prefix and suffix, or all if that is below zero. */
  lemma ExtractedBehind(pre: string, n: string, suf: string, a: string, rest: string)
    requires '{' !in pre && '}' !in pre && '}' !in n && pre != ""
    requires Find(a + pre + rest, pre) == |a|
    ensures var seg := pre + "{" + n + "}" + suf; var len := |a| + |rest| - |suf|;
      IsParam(seg) && Extracted(seg, a + pre + rest) == Ok(if 0 <= len < |rest| then rest[..len] else rest)
  {
    ParamParts(pre, n, suf);
    var value, k := a + pre + rest, |a| + |pre|;
    var len := |a| + |rest| - |suf|;
    assert value[k..] == rest;
    assert Extracted(pre + "{" + n + "}" + suf, value) == Cut(value, k, len);
    if 0 <= len < |rest| { assert value[k..k + len] == rest[..len]; }
    if len >= |rest| { assert value[k..|value|] == rest; }
  }

  /** Without a prefix it takes the whole value. */
  lemma ExtractedWhole(n: string, suf: string, value: string)
    requires '}' !in n && n + suf != ""
    ensures var seg := "{" + n + "}" + suf; IsParam(seg) && Extracted(seg, value) == Ok(value)
  {
    ParamParts("", n, suf);
    assert "" + "{" == "{";
  }

  // ---------------------------------------------------------------- one template

  /** The segments of a template against those of a URL of the same length: whether all match, and what
      the map of values has become. */
  function Walk(tmpl: seq<string>, url: seq<string>, values: Bindings): Result<(bool, Bindings)>
    requires |tmpl| == |url|
  {
    if tmpl == [] then Ok((true, values))
    else if IsParam(tmpl[0]) then
      var v :- Extracted(tmpl[0], url[0]);
      Walk(tmpl[1..], url[1..], values[Name(tmpl[0]) := v])
    else if url[0] != tmpl[0] then Ok((false, values))
    else Walk(tmpl[1..], url[1..], values)
  }

  predicate SegmentFits(seg: string, part: string) { IsParam(seg) || part == seg }

  /** Segment for segment, a template fits a URL. */
  predicate Fits(tmpl: seq<string>, url: seq<string>) {
    |tmpl| == |url| && forall i :: 0 <= i < |tmpl| ==> SegmentFits(tmpl[i], url[i])
  }

  /** Some parameter segment that the comparison reaches throws. */
  predicate Breaks(tmpl: seq<string>, url: seq<string>) {
    |tmpl| == |url| &&
    exists i: nat | i < |tmpl| :: BreaksAt(tmpl, url, i)
  }

  lemma FitsStep(tmpl: seq<string>, url: seq<string>)
    requires |tmpl| == |url| && tmpl != []
    ensures Fits(tmpl, url) == (SegmentFits(tmpl[0], url[0]) && Fits(tmpl[1..], url[1..]))
  {
    if SegmentFits(tmpl[0], url[0]) && Fits(tmpl[1..], url[1..]) {
      forall i | 0 <= i < |tmpl| ensures SegmentFits(tmpl[i], url[i]) {
        if i > 0 { assert SegmentFits(tmpl[1..][i - 1], url[1..][i - 1]); }
      }
    }
  }

  predicate BreaksAt(tmpl: seq<string>, url: seq<string>, i: nat)
    requires |tmpl| == |url| && i < |tmpl|
  {
    IsParam(tmpl[i]) && Extracted(tmpl[i], url[i]).Throw? && Fits(tmpl[..i], url[..i])
  }

  lemma BreaksAtTail(tmpl: seq<string>, url: seq<string>, i: nat)
    requires |tmpl| == |url| && i + 1 < |tmpl|
    ensures BreaksAt(tmpl, url, i + 1) == (SegmentFits(tmpl[0], url[0]) && BreaksAt(tmpl[1..], url[1..], i))
  {
    FitsStep(tmpl[..i + 1], url[..i + 1]);
    assert tmpl[..i + 1][1..] == tmpl[1..][..i];
    assert url[..i + 1][1..] == url[1..][..i];
  }

  lemma BreaksStep(tmpl: seq<string>, url: seq<string>)
    requires |tmpl| == |url| && tmpl != []
    ensures Breaks(tmpl, url) <==>
      || (IsParam(tmpl[0]) && Extracted(tmpl[0], url[0]).Throw?)
      || (SegmentFits(tmpl[0], url[0]) && Breaks(tmpl[1..], url[1..]))
  {
    assert BreaksAt(tmpl, url, 0) == (IsParam(tmpl[0]) && Extracted(tmpl[0], url[0]).Throw?);
    forall i: nat | i + 1 < |tmpl|
      ensures BreaksAt(tmpl, url, i + 1) == (SegmentFits(tmpl[0], url[0]) && BreaksAt(tmpl[1..], url[1..], i))
    {
      BreaksAtTail(tmpl, url, i);
    }
    if SegmentFits(tmpl[0], url[0]) && Breaks(tmpl[1..], url[1..]) {
      var i: nat :| i < |tmpl[1..]| && BreaksAt(tmpl[1..], url[1..], i);
      assert BreaksAt(tmpl, url, i + 1);
    }
    if Breaks(tmpl, url) {
      var i: nat :| i < |tmpl| && BreaksAt(tmpl, url, i);
      if i > 0 { assert BreaksAt(tmpl[1..], url[1..], i - 1); }
    }
  }

  /** The comparison throws just when a segment breaks it, and else says whether the template fits. */
  lemma {:induction false} WalkFits(tmpl: seq<string>, url: seq<string>, values: Bindings)
    requires |tmpl| == |url|
    ensures Walk(tmpl, url, values).Throw? <==> Breaks(tmpl, url)
    ensures Walk(tmpl, url, values).Ok? ==> Walk(tmpl, url, values).value.0 == Fits(tmpl, url)
    decreases |tmpl|
  {
    if tmpl != [] {
      FitsStep(tmpl, url);
      BreaksStep(tmpl, url);
      if IsParam(tmpl[0]) {
        var e := Extracted(tmpl[0], url[0]);
        if e.Ok? { WalkFits(tmpl[1..], url[1..], values[Name(tmpl[0]) := e.value]); }
      } else if url[0] == tmpl[0] {
        WalkFits(tmpl[1..], url[1..], values);
      }
    }
  }

  /** The values a template takes from a URL, up to the first segment that does not match. */
  function Taken(tmpl: seq<string>, url: seq<string>): Bindings
    requires |tmpl| == |url|
  {
    if tmpl == [] then map[]
    else if IsParam(tmpl[0]) then
      match Extracted(tmpl[0], url[0])
      case Ok(v) => map[Name(tmpl[0]) := v] + Taken(tmpl[1..], url[1..])
      case Throw(_) => map[]
    else if url[0] != tmpl[0] then map[]
    else Taken(tmpl[1..], url[1..])
  }

  /** The comparison adds what it takes to what the map held before. */
  lemma {:induction false} WalkTakes(tmpl: seq<string>, url: seq<string>, values: Bindings)
    requires |tmpl| == |url| && Walk(tmpl, url, values).Ok?
    ensures Walk(tmpl, url, values).value.1 == values + Taken(tmpl, url)
    decreases |tmpl|
  {
    if tmpl != [] {
      if IsParam(tmpl[0]) {
        var v := Extracted(tmpl[0], url[0]).value;
        WalkTakes(tmpl[1..], url[1..], values[Name(tmpl[0]) := v]);
        AddOne(values, Name(tmpl[0]), v, Taken(tmpl[1..], url[1..]));
      } else if url[0] == tmpl[0] {
        WalkTakes(tmpl[1..], url[1..], values);
      }
    }
  }

  lemma AddOne(values: Bindings, n: string, v: string, more: Bindings)
    ensures values[n := v] + more == values + (map[n := v] + more)
  {}

  predicate Names(tmpl: seq<string>, i: nat, n: string) { i < |tmpl| && IsParam(tmpl[i]) && Name(tmpl[i]) == n }

  /** The last parameter of its name decides the value. */
  predicate LastOfName(tmpl: seq<string>, i: nat) {
    i < |tmpl| && IsParam(tmpl[i]) && forall j :: i < j < |tmpl| ==> !Names(tmpl, j, Name(tmpl[i]))
  }

  lemma NamesTail(tmpl: seq<string>, i: nat, n: string)
    requires tmpl != []
    ensures Names(tmpl[1..], i, n) == Names(tmpl, i + 1, n)
  {}

  /** A name is bound just when some parameter has it. */
  lemma {:induction false} TakenNames(tmpl: seq<string>, url: seq<string>, n: string)
    requires |tmpl| == |url| && Fits(tmpl, url) && !Breaks(tmpl, url)
    ensures n in Taken(tmpl, url) <==> exists i :: 0 <= i < |tmpl| && Names(tmpl, i, n)
    decreases |tmpl|
  {
    if tmpl != [] {
      FitsStep(tmpl, url);
      BreaksStep(tmpl, url);
      TakenNames(tmpl[1..], url[1..], n);
      forall i: nat | i < |tmpl| - 1 ensures Names(tmpl[1..], i, n) == Names(tmpl, i + 1, n) { NamesTail(tmpl, i, n); }
      if exists i :: 0 <= i < |tmpl| && Names(tmpl, i, n) {
        var i :| 0 <= i < |tmpl| && Names(tmpl, i, n);
        assert i > 0 ==> Names(tmpl[1..], i - 1, n);
      }
      if n in Taken(tmpl[1..], url[1..]) {
        var i :| 0 <= i < |tmpl[1..]| && Names(tmpl[1..], i, n);
        assert Names(tmpl, i + 1, n);
      }
      assert IsParam(tmpl[0]) && Name(tmpl[0]) == n ==> Names(tmpl, 0, n);
    }
  }

  lemma {:induction false} TakenLast(tmpl: seq<string>, url: seq<string>, i: nat)
    requires |tmpl| == |url| && Fits(tmpl, url) && !Breaks(tmpl, url) && LastOfName(tmpl, i)
    ensures var n := Name(tmpl[i]); n in Taken(tmpl, url) && Extracted(tmpl[i], url[i]) == Ok(Taken(tmpl, url)[n])
    decreases |tmpl|
  {
    var t, u, n := tmpl[1..], url[1..], Name(tmpl[i]);
    FitsStep(tmpl, url);
    BreaksStep(tmpl, url);
    if i > 0 {
      assert t[i - 1] == tmpl[i] && u[i - 1] == url[i];
      forall j | i - 1 < j < |t| ensures !Names(t, j, n) { NamesTail(tmpl, j, n); }
      TakenLast(t, u, i - 1);
    } else {
      forall j: nat | j < |t| ensures !Names(t, j, n) { NamesTail(tmpl, j, n); }
      TakenNames(t, u, n);
    }
  }

  // ---------------------------------------------------------------- the route table

  function Template(r: Route): seq<string> { Pieces(r.path, "/") }

  /** The loop over the table from its `k`-th entry on, with the values bound so far. */
  function Choose(routes: seq<Route>, k: nat, url: seq<string>, verb: string, values: Bindings): Result<(Verdict, Bindings)>
    requires k <= |routes|
    decreases |routes| - k
  {
    if k == |routes| then Ok((Unmatched, values))
    else
      var tmpl := Template(routes[k]);
      if |tmpl| != |url| then Choose(routes, k + 1, url, verb, values)
      else
        var w :- Walk(tmpl, url, values);
        if !w.0 then Choose(routes, k + 1, url, verb, w.1)
        else Ok((if ToUpper(routes[k].verb) == ToUpper(verb) then Selected(k) else WrongMethod, w.1))
  }

  predicate RouteFits(routes: seq<Route>, i: nat, url: seq<string>)
    requires i < |routes|
  {
    Fits(Template(routes[i]), url)
  }

  predicate RouteBreaks(routes: seq<Route>, i: nat, url: seq<string>)
    requires i < |routes|
  {
    Breaks(Template(routes[i]), url)
  }

  /** No entry from the `k`-th to the one before the `i`-th fits. */
  predicate NoneFits(routes: seq<Route>, k: nat, i: nat, url: seq<string>)
    requires i <= |routes|
  {
    forall j :: k <= j < i ==> !RouteFits(routes, j, url)
  }

  predicate FirstFit(routes: seq<Route>, k: nat, i: nat, url: seq<string>) {
    k <= i < |routes| && RouteFits(routes, i, url) && NoneFits(routes, k, i, url)
  }

  /** Some entry throws before any fits. */
  predicate SomeBreaks(routes: seq<Route>, k: nat, url: seq<string>) {
    exists i :: k <= i < |routes| && RouteBreaks(routes, i, url) && NoneFits(routes, k, i, url)
  }

  /** The verdict the first fitting entry calls for. */
  ghost predicate Due(routes: seq<Route>, k: nat, url: seq<string>, verb: string, v: Verdict) {
    match v
    case Selected(i) => FirstFit(routes, k, i, url) && ToUpper(routes[i].verb) == ToUpper(verb)
    case WrongMethod => exists i: nat | k <= i < |routes| :: FirstFit(routes, k, i, url) && ToUpper(routes[i].verb) != ToUpper(verb)
    case Unmatched => NoneFits(routes, k, |routes|, url)
  }

  lemma NoneFitsStep(routes: seq<Route>, k: nat, i: nat, url: seq<string>)
    requires k < i <= |routes|
    ensures NoneFits(routes, k, i, url) == (!RouteFits(routes, k, url) && NoneFits(routes, k + 1, i, url))
  {}

  lemma DueLater(routes: seq<Route>, k: nat, url: seq<string>, verb: string, v: Verdict)
    requires k < |routes| && !RouteFits(routes, k, url)
    requires Due(routes, k + 1, url, verb, v)
    ensures Due(routes, k, url, verb, v)
  {
    match v
    case Selected(i) => NoneFitsStep(routes, k, i, url);
    case WrongMethod =>
      var i: nat :| k + 1 <= i < |routes| && FirstFit(routes, k + 1, i, url) && ToUpper(routes[i].verb) != ToUpper(verb);
      NoneFitsStep(routes, k, i, url);
      assert FirstFit(routes, k, i, url);
    case Unmatched => NoneFitsStep(routes, k, |routes|, url);
  }

  lemma SomeBreaksStep(routes: seq<Route>, k: nat, url: seq<string>)
    requires k < |routes|
    ensures SomeBreaks(routes, k, url) <==>
      RouteBreaks(routes, k, url) || (!RouteFits(routes, k, url) && SomeBreaks(routes, k + 1, url))
  {
    if RouteBreaks(routes, k, url) { assert NoneFits(routes, k, k, url); }
    if !RouteFits(routes, k, url) && SomeBreaks(routes, k + 1, url) {
      var i :| k + 1 <= i < |routes| && RouteBreaks(routes, i, url) && NoneFits(routes, k + 1, i, url);
      NoneFitsStep(routes, k, i, url);
    }
    if SomeBreaks(routes, k, url) && !RouteBreaks(routes, k, url) {
      var i :| k <= i < |routes| && RouteBreaks(routes, i, url) && NoneFits(routes, k, i, url);
      NoneFitsStep(routes, k, i, url);
    }
  }

  /** What an entry adds to the map, whether it is selected or not. */
  function TakenBy(r: Route, url: seq<string>): Bindings {
    if |Template(r)| == |url| then Taken(Template(r), url) else map[]
  }

  /** One turn of the loop. */
  lemma ChooseStep(routes: seq<Route>, k: nat, url: seq<string>, verb: string, values: Bindings)
    requires k < |routes|
    ensures var r := Choose(routes, k, url, verb, values); var next := values + TakenBy(routes[k], url);
      if RouteBreaks(routes, k, url) then r.Throw?
      else if RouteFits(routes, k, url) then
        r == Ok((if ToUpper(routes[k].verb) == ToUpper(verb) then Selected(k) else WrongMethod, next))
      else r == Choose(routes, k + 1, url, verb, next)
  {
    var tmpl := Template(routes[k]);
    if |tmpl| == |url| {
      WalkFits(tmpl, url, values);
      if !RouteBreaks(routes, k, url) { WalkTakes(tmpl, url, values); }
    } else {
      assert values + map[] == values;
    }
  }

  /** The search throws just when some entry throws before any fits; otherwise its verdict is the one the
      first fitting entry calls for. */
  lemma {:induction false} ChoiceIsDue(routes: seq<Route>, k: nat, url: seq<string>, verb: string, values: Bindings)
    requires k <= |routes|
    ensures var r := Choose(routes, k, url, verb, values);
      && (r.Throw? <==> SomeBreaks(routes, k, url))
      && (r.Ok? ==> Due(routes, k, url, verb, r.value.0))
    decreases |routes| - k
  {
    if k < |routes| {
      ChooseStep(routes, k, url, verb, values);
      SomeBreaksStep(routes, k, url);
      if RouteFits(routes, k, url) {
        assert FirstFit(routes, k, k, url);
      } else if !RouteBreaks(routes, k, url) {
        var next := values + TakenBy(routes[k], url);
        ChoiceIsDue(routes, k + 1, url, verb, next);
        var r := Choose(routes, k + 1, url, verb, next);
        if r.Ok? { DueLater(routes, k, url, verb, r.value.0); }
      }
    }
  }

  /** What the entries before the `i`-th have left in the map. */
  function Leftover(routes: seq<Route>, k: nat, i: nat, url: seq<string>, values: Bindings): Bindings
    requires k <= i <= |routes|
    decreases i - k
  {
    if k == i then values else Leftover(routes, k + 1, i, url, values + TakenBy(routes[k], url))
  }

  /** The selected entry's own values come on top of what the rejected entries left. */
  lemma {:induction false} ChoiceValues(routes: seq<Route>, k: nat, i: nat, url: seq<string>, verb: string, values: Bindings)
    requires k <= i < |routes| && FirstFit(routes, k, i, url) && !SomeBreaks(routes, k, url)
    ensures Choose(routes, k, url, verb, values) ==
      Ok((if ToUpper(routes[i].verb) == ToUpper(verb) then Selected(i) else WrongMethod,
          Leftover(routes, k, i, url, values) + TakenBy(routes[i], url)))
    decreases i - k
  {
    ChooseStep(routes, k, url, verb, values);
    SomeBreaksStep(routes, k, url);
    if k < i {
      NoneFitsStep(routes, k, i, url);
      ChoiceValues(routes, k + 1, i, url, verb, values + TakenBy(routes[k], url));
    }
  }

  /** Every parameter of the selected entry holds what its own segment of the URL gives, whatever the
      entries before it have bound to the same name. */
  lemma SelectedValue(routes: seq<Route>, i: nat, url: seq<string>, verb: string, values: Bindings, p: nat)
    requires FirstFit(routes, 0, i, url) && !SomeBreaks(routes, 0, url)
    requires LastOfName(Template(routes[i]), p)
    ensures var seg := Template(routes[i])[p]; var r := Choose(routes, 0, url, verb, values);
      r.Ok? && Name(seg) in r.value.1 && Extracted(seg, url[p]) == Ok(r.value.1[Name(seg)])
  {
    ChoiceValues(routes, 0, i, url, verb, values);
    FirstDoesNotBreak(routes, 0, i, url);
    TakenLast(Template(routes[i]), url, p);
  }

  lemma FirstDoesNotBreak(routes: seq<Route>, k: nat, i: nat, url: seq<string>)
    requires FirstFit(routes, k, i, url) && !SomeBreaks(routes, k, url)
    ensures !RouteBreaks(routes, i, url)
  {
    assert NoneFits(routes, k, i, url);
  }

  /** The map holds the selected entry's values and nothing else just when the rejected ones have bound
      no other name. */
  lemma NothingLeftOver(routes: seq<Route>, i: nat, url: seq<string>, verb: string)
    requires FirstFit(routes, 0, i, url) && !SomeBreaks(routes, 0, url)
    ensures var r := Choose(routes, 0, url, verb, map[]);
      r.Ok? && (r.value.1 == TakenBy(routes[i], url) <==>
        Leftover(routes, 0, i, url, map[]).Keys <= TakenBy(routes[i], url).Keys)
  {
    ChoiceValues(routes, 0, i, url, verb, map[]);
    Overlaid(Leftover(routes, 0, i, url, map[]), TakenBy(routes[i], url));
  }

  lemma Overlaid(m: Bindings, own: Bindings)
    ensures m + own == own <==> m.Keys <= own.Keys
  {
    if m + own == own {
      forall n | n in m.Keys ensures n in own.Keys { assert n in m + own; }
    }
  }

  lemma FirstUnique(routes: seq<Route>, k: nat, i: nat, j: nat, url: seq<string>)
    requires FirstFit(routes, k, i, url)
    ensures FirstFit(routes, k, j, url) ==> i == j
    ensures !NoneFits(routes, k, |routes|, url)
  {
    assert RouteFits(routes, i, url);
  }

  /** Only one verdict can be due. */
  lemma DueUnique(routes: seq<Route>, k: nat, url: seq<string>, verb: string, v: Verdict, w: Verdict)
    requires Due(routes, k, url, verb, v) && Due(routes, k, url, verb, w)
    ensures v == w
  {
    forall i: nat, j: nat | FirstFit(routes, k, i, url) && FirstFit(routes, k, j, url) ensures i == j {
      FirstUnique(routes, k, i, j, url);
    }
    forall i: nat | FirstFit(routes, k, i, url) ensures !NoneFits(routes, k, |routes|, url) {
      FirstUnique(routes, k, i, i, url);
    }
  }

  /** Where nothing throws, a verdict is given if and only if it is due. */
  lemma VerdictExactly(routes: seq<Route>, url: seq<string>, verb: string, values: Bindings, v: Verdict)
    requires !SomeBreaks(routes, 0, url)
    ensures var r := Choose(routes, 0, url, verb, values);
      r.Ok? && (r.value.0 == v <==> Due(routes, 0, url, verb, v))
  {
    ChoiceIsDue(routes, 0, url, verb, values);
    var w := Choose(routes, 0, url, verb, values).value.0;
    if Due(routes, 0, url, verb, v) { DueUnique(routes, 0, url, verb, v, w); }
  }

  // ---------------------------------------------------------------- a URL made from a template

  function Part(seg: string, v: string): string { if IsParam(seg) then Filled(seg, v) else seg }

  /** The segments of a URL that fills the parameters of a template. */
  function Instance(tmpl: seq<string>, vs: seq<string>): (url: seq<string>)
    requires |vs| == |tmpl|
    ensures |url| == |tmpl| && forall i :: 0 <= i < |tmpl| ==> url[i] == Part(tmpl[i], vs[i])
  {
    seq(|tmpl|, i requires 0 <= i < |tmpl| => Part(tmpl[i], vs[i]))
  }

  predicate NoSlash(s: string) { '/' !in s }

  lemma InstanceFits(tmpl: seq<string>, vs: seq<string>)
    requires |vs| == |tmpl|
    ensures Fits(tmpl, Instance(tmpl, vs)) && !Breaks(tmpl, Instance(tmpl, vs))
  {
    var url := Instance(tmpl, vs);
    forall i: nat | i < |tmpl| ensures SegmentFits(tmpl[i], url[i]) && !BreaksAt(tmpl, url, i) {
      if IsParam(tmpl[i]) { FilledAccepted(tmpl[i], vs[i]); }
    }
  }

  lemma FilledAccepted(seg: string, v: string)
    requires IsParam(seg)
    ensures Extracted(seg, Filled(seg, v)).Ok?
  {
    ExtractionThrows(seg, Filled(seg, v));
    assert MatchAt(Filled(seg, v), Prefix(seg), 0);
  }

  /** Split at its slashes, the URL falls into the segments it was made of. */
  lemma InstanceSplits(path: string, vs: seq<string>)
    requires |vs| == |Pieces(path, "/")| && forall i :: 0 <= i < |vs| ==> NoSlash(vs[i])
    ensures var url := Instance(Pieces(path, "/"), vs); Pieces(Join(url, "/"), "/") == url
  {
    var tmpl := Pieces(path, "/");
    var url := Instance(tmpl, vs);
    forall u | u in url ensures '/' !in u {
      var i :| 0 <= i < |url| && url[i] == u;
      assert NoSlash(vs[i]);
      PiecesLack(path, "/", i);
      NotFoundChar(tmpl[i], '/');
    }
    PiecesJoin(url, "/", '/');
  }

  lemma NothingBreaks(routes: seq<Route>, i: nat, url: seq<string>)
    requires i < |routes| && RouteFits(routes, i, url)
    requires forall j :: 0 <= j <= i ==> !RouteBreaks(routes, j, url)
    ensures !SomeBreaks(routes, 0, url)
  {
    forall j: nat | j < |routes| && RouteBreaks(routes, j, url) ensures !NoneFits(routes, 0, j, url) {
      assert j > i;
      assert RouteFits(routes, i, url);
    }
  }

  /** A URL made from a template selects that template, unless an earlier one fits it or throws; and a
      parameter then holds the value put in for it just when it has text in front of it in its segment
      or none behind it. */
  lemma FilledUrl(routes: seq<Route>, i: nat, vs: seq<string>, verb: string)
    requires i < |routes| && |vs| == |Template(routes[i])|
    requires forall p :: 0 <= p < |vs| ==> NoSlash(vs[p])
    requires var url := Instance(Template(routes[i]), vs);
      forall j :: 0 <= j < i ==> !RouteFits(routes, j, url) && !RouteBreaks(routes, j, url)
    ensures var tmpl := Template(routes[i]); var path := Join(Instance(tmpl, vs), "/");
      var r := Choose(routes, 0, Pieces(path, "/"), verb, map[]);
      && r.Ok? && r.value.0 == (if ToUpper(routes[i].verb) == ToUpper(verb) then Selected(i) else WrongMethod)
      && forall p: nat :: LastOfName(tmpl, p) ==>
           && Name(tmpl[p]) in r.value.1
           && (r.value.1[Name(tmpl[p])] == vs[p] <==> Prefix(tmpl[p]) != "" || Suffix(tmpl[p]) == "")
  {
    var tmpl := Template(routes[i]);
    var url := Instance(tmpl, vs);
    InstanceSplits(routes[i].path, vs);
    InstanceFits(tmpl, vs);
    assert FirstFit(routes, 0, i, url);
    NothingBreaks(routes, i, url);
    ChoiceValues(routes, 0, i, url, verb, map[]);
    forall p: nat | LastOfName(tmpl, p)
      ensures var r := Choose(routes, 0, url, verb, map[]);
        && Name(tmpl[p]) in r.value.1
        && (r.value.1[Name(tmpl[p])] == vs[p] <==> Prefix(tmpl[p]) != "" || Suffix(tmpl[p]) == "")
    {
      SelectedValue(routes, i, url, verb, map[], p);
      ExtractedFilled(tmpl[p], vs[p]);
    }
  }

  // ---------------------------------------------------------------- templates as they are written

  /** A segment of a template: plain text, or a name in braces with text around them. */
  datatype Segment = Plain(text: string) | Param(pre: string, name: string, suf: string)

  predicate Written(seg: Segment) {
    match seg
    case Plain(t) => '/' !in t && ('{' !in t || '}' !in t)
    case Param(pre, n, suf) =>
      && '/' !in pre && '/' !in n && '/' !in suf && n != ""
      && '{' !in pre && '}' !in pre && '}' !in n
  }

  function TextOf(seg: Segment): string {
    match seg
    case Plain(t) => t
    case Param(pre, n, suf) => pre + "{" + n + "}" + suf
  }

  /** The segment with a value in place of the braces and the name. */
  function FilledIn(seg: Segment, v: string): string {
    match seg
    case Plain(t) => t
    case Param(pre, _, suf) => pre + v + suf
  }

  function Texts(segs: seq<Segment>): (r: seq<string>)
    ensures |r| == |segs| && forall i :: 0 <= i < |segs| ==> r[i] == TextOf(segs[i])
  {
    seq(|segs|, i requires 0 <= i < |segs| => TextOf(segs[i]))
  }

  function AllFilledIn(segs: seq<Segment>, vs: seq<string>): (r: seq<string>)
    requires |vs| == |segs|
    ensures |r| == |segs| && forall i :: 0 <= i < |segs| ==> r[i] == FilledIn(segs[i], vs[i])
  {
    seq(|segs|, i requires 0 <= i < |segs| => FilledIn(segs[i], vs[i]))
  }

  predicate AllWritten(segs: seq<Segment>) { forall i :: 0 <= i < |segs| ==> Written(segs[i]) }

  /** The last parameter of its name. */
  predicate LastNamed(segs: seq<Segment>, p: nat) {
    p < |segs| && segs[p].Param? && forall q :: p < q < |segs| && segs[q].Param? ==> segs[q].name != segs[p].name
  }

  lemma SegmentParts(seg: Segment, v: string)
    requires Written(seg)
    ensures var t := TextOf(seg);
      && (IsParam(t) <==> seg.Param?) && Part(t, v) == FilledIn(seg, v) && '/' !in t
      && (seg.Param? ==> Name(t) == seg.name && Prefix(t) == seg.pre && Suffix(t) == seg.suf)
  {
    match seg
    case Plain(t) => NoBraces(t);
    case Param(pre, n, suf) => ParamParts(pre, n, suf);
  }

  lemma LastIsLast(segs: seq<Segment>, p: nat)
    requires AllWritten(segs) && LastNamed(segs, p)
    ensures LastOfName(Texts(segs), p)
  {
    var tmpl := Texts(segs);
    SegmentParts(segs[p], "");
    forall q | p < q < |tmpl| ensures !Names(tmpl, q, Name(tmpl[p])) { SegmentParts(segs[q], ""); }
  }

  /** The value of a parameter of the selected entry, by the name that stands in its braces. */
  lemma SelectedWritten(routes: seq<Route>, i: nat, segs: seq<Segment>, url: seq<string>, verb: string, values: Bindings,
                        p: nat, v: string)
    requires FirstFit(routes, 0, i, url) && !SomeBreaks(routes, 0, url)
    requires AllWritten(segs) && Pieces(routes[i].path, "/") == Texts(segs) && LastNamed(segs, p)
    requires url[p] == segs[p].pre + v + segs[p].suf
    ensures var r := Choose(routes, 0, url, verb, values);
      && r.Ok? && segs[p].name in r.value.1
      && (r.value.1[segs[p].name] == v <==> segs[p].pre != "" || segs[p].suf == "")
  {
    LastIsLast(segs, p);
    SegmentParts(segs[p], v);
    SelectedValue(routes, i, url, verb, values, p);
    ExtractedFilled(Template(routes[i])[p], v);
  }

  lemma TextsSplit(segs: seq<Segment>)
    requires AllWritten(segs) && segs != []
    ensures Pieces(Join(Texts(segs), "/"), "/") == Texts(segs)
  {
    forall t | t in Texts(segs) ensures '/' !in t {
      var i :| 0 <= i < |segs| && Texts(segs)[i] == t;
      SegmentParts(segs[i], "");
    }
    PiecesJoin(Texts(segs), "/", '/');
  }

  lemma FilledInIsInstance(segs: seq<Segment>, vs: seq<string>)
    requires AllWritten(segs) && |vs| == |segs|
    ensures AllFilledIn(segs, vs) == Instance(Texts(segs), vs)
  {
    forall i | 0 <= i < |segs| ensures AllFilledIn(segs, vs)[i] == Instance(Texts(segs), vs)[i] { SegmentParts(segs[i], vs[i]); }
  }

  /** A path written segment by segment, and a URL with values in place of its parameters: unless an
      earlier entry fits or throws, the entry is found, and each name in braces is bound to the value put in
      for it just when there is text in front of the braces or none behind them. */
  lemma WrittenUrl(routes: seq<Route>, i: nat, segs: seq<Segment>, vs: seq<string>, verb: string, p: nat)
    requires i < |routes| && segs != [] && AllWritten(segs) && routes[i].path == Join(Texts(segs), "/")
    requires |vs| == |segs| && (forall q :: 0 <= q < |vs| ==> '/' !in vs[q]) && LastNamed(segs, p)
    requires forall j :: 0 <= j < i ==> !RouteFits(routes, j, AllFilledIn(segs, vs)) && !RouteBreaks(routes, j, AllFilledIn(segs, vs))
    ensures var r := Choose(routes, 0, Pieces(Join(AllFilledIn(segs, vs), "/"), "/"), verb, map[]);
      && r.Ok? && r.value.0 == (if ToUpper(routes[i].verb) == ToUpper(verb) then Selected(i) else WrongMethod)
      && segs[p].name in r.value.1
      && (r.value.1[segs[p].name] == vs[p] <==> segs[p].pre != "" || segs[p].suf == "")
  {
    TextsSplit(segs);
    FilledInIsInstance(segs, vs);
    LastIsLast(segs, p);
    SegmentParts(segs[p], vs[p]);
    assert forall q :: 0 <= q < |vs| ==> NoSlash(vs[q]);
    FilledUrl(routes, i, vs, verb);
  }

  // ---------------------------------------------------------------- the loops of handle

  /** The inner loop: one template's segments against those of the URL. */
  method MatchSegments(tmpl: seq<string>, url: seq<string>, values: Bindings) returns (r: Result<(bool, Bindings)>)
    requires |tmpl| == |url|
    ensures r == Walk(tmpl, url, values)
  {
    var fflag := true;
    var mapOfValues := values;
    var i := 0;
    assert tmpl[0..] == tmpl && url[0..] == url;
    while i < |tmpl| && fflag
      invariant 0 <= i <= |tmpl|
      invariant Walk(tmpl, url, values) ==
        if fflag then Walk(tmpl[i..], url[i..], mapOfValues) else Ok((false, mapOfValues))
      decreases |tmpl| - i, fflag
    {
      assert tmpl[i..][1..] == tmpl[i + 1..] && url[i..][1..] == url[i + 1..];
      if IsParam(tmpl[i]) {
        var paramvalue :- Extracted(tmpl[i], url[i]);
        mapOfValues := mapOfValues[Name(tmpl[i]) := paramvalue];
        i := i + 1;
      } else if url[i] != tmpl[i] {
        fflag := false;
      } else {
        i := i + 1;
      }
    }
    return Ok((fflag, mapOfValues));
  }

  /** The status after the search: a rejected entry leaves "not found" behind, which a later match does
      not take back. */
  function StatusAfter(v: Verdict, n: nat): Status {
    match v
    case Selected(i) => if i == 0 then Untouched else NotFound
    case WrongMethod => InvalidMethod
    case Unmatched => if n == 0 then Untouched else NotFound
  }

  /** "Not found" stays behind exactly when the first entry of the table does not fit and the search does not
      end at a wrong method, even if a later entry is then selected. */
  lemma StatusExactly(routes: seq<Route>, url: seq<string>, verb: string)
    requires !SomeBreaks(routes, 0, url)
    ensures var r := Choose(routes, 0, url, verb, map[]);
      && r.Ok?
      && (StatusAfter(r.value.0, |routes|) == InvalidMethod <==> r.value.0 == WrongMethod)
      && (StatusAfter(r.value.0, |routes|) == NotFound <==> r.value.0 != WrongMethod && routes != [] && !RouteFits(routes, 0, url))
  {
    ChoiceIsDue(routes, 0, url, verb, map[]);
    var v := Choose(routes, 0, url, verb, map[]).value.0;
    if routes != [] && RouteFits(routes, 0, url) {
      assert FirstFit(routes, 0, 0, url);
      if v.Selected? { FirstUnique(routes, 0, 0, v.route, url); } else { FirstUnique(routes, 0, 0, 0, url); }
    }
  }

  /** The search of handle over the route table. */
  method Select(routes: seq<Route>, pthwofile: string, verb: string)
    returns (r: Result<(Verdict, Bindings)>, status: Status)
    ensures r == Choose(routes, 0, Pieces(pthwofile, "/"), verb, map[])
    ensures r.Ok? ==> status == StatusAfter(r.value.0, |routes|)
  {
    ghost var url := Pieces(pthwofile, "/");
    var mapOfValues: Bindings := map[];
    status := Untouched;
    var it := 0;
    while it < |routes|
      invariant 0 <= it <= |routes|
      invariant Choose(routes, 0, url, verb, map[]) == Choose(routes, it, url, verb, mapOfValues)
      invariant status == if it == 0 then Untouched else NotFound
    {
      var resturlparts := Split(routes[it].path, "/");
      var urlparts := Split(pthwofile, "/");
      var flag := |urlparts| == |resturlparts|;
      if flag {
        var m := MatchSegments(resturlparts, urlparts, mapOfValues);
        var w :- m;
        flag, mapOfValues := w.0, w.1;
      }
      var lhs, rhs := ToUpper(routes[it].verb), ToUpper(verb);
      if flag && lhs == rhs {
        return Ok((Selected(it), mapOfValues)), status;
      } else if flag {
        return Ok((WrongMethod, mapOfValues)), InvalidMethod;
      } else {
        status := NotFound;
      }
      it := it + 1;
    }
    return Ok((Unmatched, mapOfValues)), status;
  }
}
