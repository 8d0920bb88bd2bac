/** The string routines the other modules stand on: the leftmost searches and replacements of
    StringUtil, the checked substring of std::string, and the decimal casts of CastUtil. */
module Text {

  /** A value, or the message of the exception the C++ code throws. */
  datatype Result<+T> = Ok(value: T) | Throw(message: string) {
    predicate IsFailure() { Throw? }
    function PropagateFailure<U>(): Result<U> requires Throw? { Throw(message) }
    function Extract(): T requires Ok? { value }
  }

  const OUT_OF_RANGE := "std::out_of_range"
  const BAD_INT := "Conversion exception - string to int"

  // ---------------------------------------------------------------- searching

  predicate MatchAt(s: string, pat: string, i: int) {
    0 <= i && i + |pat| <= |s| && s[i..i + |pat|] == pat
  }

  predicate Occurs(s: string, pat: string) {
    exists i | 0 <= i <= |s| :: MatchAt(s, pat, i)
  }

  /** std::string::find from a position; -1 stands for npos. */
  function FindFrom(s: string, pat: string, start: nat): (r: int)
    requires start <= |s|
    ensures r == -1 || (start <= r && MatchAt(s, pat, r))
    ensures forall j :: start <= j < (if r == -1 then |s| + 1 else r) ==> !MatchAt(s, pat, j)
    decreases |s| - start
  {
    if MatchAt(s, pat, start) then start
    else if start == |s| then -1
    else FindFrom(s, pat, start + 1)
  }

  function Find(s: string, pat: string): (r: int)
    ensures r == -1 || MatchAt(s, pat, r)
    ensures forall j :: 0 <= j < (if r == -1 then |s| + 1 else r) ==> !MatchAt(s, pat, j)
  {
    FindFrom(s, pat, 0)
  }

  /** The leftmost match is the only value `Find` can return. */
  lemma FindIs(s: string, pat: string, i: nat)
    requires MatchAt(s, pat, i)
    requires forall j :: 0 <= j < i ==> !MatchAt(s, pat, j)
    ensures Find(s, pat) == i
  {
    var r := Find(s, pat);
    assert i <= |s|;
  }

  /** std::string::substr(pos, n): throws past the end, and is cut short at the end. */
  function Substr(s: string, pos: int, n: int): Result<string>
    requires n >= 0
  {
    if pos < 0 || pos > |s| then Throw(OUT_OF_RANGE)
    else Ok(s[pos..if pos + n < |s| then pos + n else |s|])
  }

  function SubstrFrom(s: string, pos: int): Result<string> {
    if pos < 0 || pos > |s| then Throw(OUT_OF_RANGE) else Ok(s[pos..])
  }

  // ---------------------------------------------------------------- replacing

  function ReplaceFirst(s: string, pat: string, with: string): string {
    var i := Find(s, pat);
    if i == -1 then s else s[..i] + with + s[i + |pat|..]
  }

  /** The left-to-right, non-overlapping replacement. */
  function Replaced(s: string, pat: string, with: string): string {
    if pat == "" || |s| < |pat| then s
    else if pat <= s then with + Replaced(s[|pat|..], pat, with)
    else [s[0]] + Replaced(s[1..], pat, with)
  }

  lemma {:induction false} ReplacedSkip(s: string, pat: string, with: string, k: nat)
    requires pat != "" && k <= |s|
    requires forall j :: 0 <= j < k ==> !MatchAt(s, pat, j)
    ensures Replaced(s, pat, with) == s[..k] + Replaced(s[k..], pat, with)
    decreases k
  {
    if k == 0 {
      assert s[0..] == s;
    } else if |s| < |pat| {
      assert s == s[..k] + s[k..];
    } else {
      assert !MatchAt(s, pat, 0);
      var t := s[1..];
      forall j | 0 <= j < k - 1 ensures !MatchAt(t, pat, j) {
        assert !MatchAt(s, pat, j + 1);
        if j + |pat| <= |t| { assert t[j..j + |pat|] == s[j + 1..j + 1 + |pat|]; }
      }
      ReplacedSkip(t, pat, with, k - 1);
      assert t[k - 1..] == s[k..] && s[..k] == [s[0]] + t[..k - 1];
      Prepend(Replaced(s, pat, with), Replaced(t, pat, with), [s[0]], t[..k - 1], Replaced(s[k..], pat, with), s[..k]);
    }
  }

  lemma Prepend<T>(x: seq<T>, y: seq<T>, head: seq<T>, mid: seq<T>, tail: seq<T>, done: seq<T>)
    requires x == head + y && y == mid + tail && done == head + mid
    ensures x == done + tail
  {}

  lemma ReplacedNone(s: string, pat: string, with: string)
    requires !Occurs(s, pat)
    ensures Replaced(s, pat, with) == s
  {
    if pat != "" {
      ReplacedSkip(s, pat, with, |s|);
      assert Replaced(s[|s|..], pat, with) == "" && s[..|s|] == s;
    }
  }

  /** A replacement that hits something and shrinks what it hits makes the string shorter. */
  lemma {:induction false} ReplacedShorter(s: string, pat: string, with: string)
    requires |with| < |pat|
    ensures |Replaced(s, pat, with)| <= |s|
    ensures Occurs(s, pat) ==> |Replaced(s, pat, with)| < |s|
    decreases |s|
  {
    if |s| >= |pat| {
      if pat <= s {
        ReplacedShorter(s[|pat|..], pat, with);
      } else {
        ReplacedShorter(s[1..], pat, with);
        if Occurs(s, pat) {
          var i :| 0 <= i <= |s| && MatchAt(s, pat, i);
          assert i > 0;
          assert s[1..][i - 1..i - 1 + |pat|] == s[i..i + |pat|];
          assert MatchAt(s[1..], pat, i - 1);
        }
      }
    }
  }

  lemma ReplacedAtHit(s: string, pat: string, with: string, k: nat)
    requires pat != "" && k == Find(s, pat)
    ensures Replaced(s, pat, with) == s[..k] + with + Replaced(s[k + |pat|..], pat, with)
  {
    var rest := s[k + |pat|..];
    ReplacedSkip(s, pat, with, k);
    MatchSplits(s, pat, k);
    ReplacedLead(s[k..], pat, with, rest);
    Regroup3(Replaced(s, pat, with), s[..k], Replaced(s[k..], pat, with), with, Replaced(rest, pat, with));
  }

  lemma MatchSplits(s: string, pat: string, k: nat)
    requires MatchAt(s, pat, k)
    ensures s[k..] == pat + s[k + |pat|..]
  {
    assert s[k..k + |pat|] == pat;
  }

  lemma ReplacedLead(t: string, pat: string, with: string, rest: string)
    requires pat != "" && t == pat + rest
    ensures Replaced(t, pat, with) == with + Replaced(rest, pat, with)
  {
    assert t[|pat|..] == rest;
  }

  lemma Regroup3(x: string, a: string, y: string, w: string, r: string)
    requires x == a + y && y == w + r
    ensures x == a + w + r
  {}

  /** Searching from a position is searching what lies behind it. */
  lemma {:induction false} FindFromShift(done: string, rest: string, pat: string)
    ensures FindFrom(done + rest, pat, |done|) == var k := Find(rest, pat); if k == -1 then -1 else |done| + k
  {
    var s := done + rest;
    forall j: nat ensures MatchAt(rest, pat, j) == MatchAt(s, pat, |done| + j) { MatchShift(done, rest, pat, j); }
    var r, k := FindFrom(s, pat, |done|), Find(rest, pat);
    if r != -1 {
      var j := r - |done|;
      assert MatchAt(s, pat, |done| + j);
      forall i | 0 <= i < j ensures !MatchAt(rest, pat, i) { assert !MatchAt(s, pat, |done| + i); }
      FindIs(rest, pat, j);
    } else {
      assert k >= 0 ==> !MatchAt(s, pat, |done| + k);
    }
  }

  lemma MatchShift(done: string, rest: string, pat: string, j: nat)
    ensures MatchAt(rest, pat, j) == MatchAt(done + rest, pat, |done| + j)
  {
    if j + |pat| <= |rest| { assert rest[j..j + |pat|] == (done + rest)[|done| + j..|done| + j + |pat|]; }
  }

  /** What the loop of `ReplaceAll` will leave: everything before `start` is finished. */
  ghost function Pending(str: string, ths: string, with: string, start: nat): string
    requires start <= |str|
  {
    str[..start] + Replaced(str[start..], ths, with)
  }

  lemma ReplaceStep(str: string, ths: string, with: string, start: nat, pos: int)
    requires ths != "" && start <= |str| && pos == FindFrom(str, ths, start) && pos != -1
    ensures var str' := str[..pos] + with + str[pos + |ths|..];
      Pending(str, ths, with, start) == Pending(str', ths, with, pos + |with|)
  {
    var done, rest, k := str[..start], str[start..], pos - start;
    FoundBehind(str, ths, start);
    PendingAt(str, ths, with, start, done, rest);
    PendingSpliced(str, ths, with, start, k, pos);
    SameGoal(done, rest, ths, with, k, Pending(str, ths, with, start),
             Pending(str[..pos] + with + str[pos + |ths|..], ths, with, pos + |with|));
  }

  lemma SameGoal(done: string, rest: string, ths: string, with: string, k: nat, x: string, y: string)
    requires ths != "" && k == Find(rest, ths)
    requires x == done + Replaced(rest, ths, with)
    requires y == (done + rest[..k] + with) + Replaced(rest[k + |ths|..], ths, with)
    ensures x == y
  {
    ReplacedAtHit(rest, ths, with, k);
    Regroup(x, y, done, rest[..k], with, Replaced(rest, ths, with), Replaced(rest[k + |ths|..], ths, with));
  }

  lemma FoundBehind(str: string, ths: string, start: nat)
    requires start <= |str|
    ensures FindFrom(str, ths, start) == var k := Find(str[start..], ths); if k == -1 then -1 else start + k
  {
    FindFromShift(str[..start], str[start..], ths);
    assert str[..start] + str[start..] == str;
  }

  lemma PendingSpliced(str: string, ths: string, with: string, start: nat, k: nat, pos: nat)
    requires pos == start + k && pos + |ths| <= |str|
    ensures Pending(str[..pos] + with + str[pos + |ths|..], ths, with, pos + |with|) ==
      (str[..start] + str[start..][..k] + with) + Replaced(str[start..][k + |ths|..], ths, with)
  {
    SpliceBorder(str, start, k, pos, |ths|, with);
    PendingAt(str[..pos] + with + str[pos + |ths|..], ths, with, pos + |with|,
              str[..start] + str[start..][..k] + with, str[start..][k + |ths|..]);
  }

  lemma PendingAt(str: string, ths: string, with: string, start: nat, done: string, rest: string)
    requires start <= |str| && str[..start] == done && str[start..] == rest
    ensures Pending(str, ths, with, start) == done + Replaced(rest, ths, with)
  {}

  lemma Regroup(x: string, y: string, done: string, head: string, with: string, r: string, tail: string)
    requires x == done + r && r == head + with + tail && y == (done + head + with) + tail
    ensures x == y
  {}

  /** Splicing moves the border between what is finished and what is not. */
  lemma SpliceBorder(str: string, start: nat, k: nat, pos: nat, n: nat, with: string)
    requires pos == start + k && pos + n <= |str|
    ensures var str', border := str[..pos] + with + str[pos + n..], pos + |with|;
      && str'[..border] == str[..start] + str[start..][..k] + with
      && str'[border..] == str[start..][k + n..]
  {
    var str', border := str[..pos] + with + str[pos + n..], pos + |with|;
    assert str[..start] + str[start..][..k] == str[..pos];
    assert str[start..][k + n..] == str[pos + n..];
  }

  lemma Append<T>(x: seq<T>, y: seq<T>, done: seq<T>, head: seq<T>, tail: seq<T>)
    requires x == (done + head) + tail && y == head + tail
    ensures x == done + y
  {}

  lemma ConcatAssoc<T>(a: seq<T>, b: seq<T>, c: seq<T>)
    ensures a + (b + c) == (a + b) + c
  {}

  /** StringUtil::replaceAll: search from `startPos`, splice, step over the inserted text. */
  method ReplaceAll(s: string, ths: string, with: string) returns (str: string)
    ensures str == Replaced(s, ths, with)
  {
    str := s;
    if ths == "" { return; }
    var startPos: nat := 0;
    assert str[..0] + Replaced(str[0..], ths, with) == Replaced(s, ths, with) by { assert str[0..] == s; }
    var pos := FindFrom(str, ths, startPos);
    while pos != -1
      invariant startPos <= |str| && pos == FindFrom(str, ths, startPos)
      invariant Pending(str, ths, with, startPos) == Replaced(s, ths, with)
      decreases |str| - startPos
    {
      ReplaceStep(str, ths, with, startPos, pos);
      str := str[..pos] + with + str[pos + |ths|..];
      startPos := pos + |with|;
      pos := FindFrom(str, ths, startPos);
    }
    Finished(str, ths, with, startPos);
  }

  lemma Finished(str: string, ths: string, with: string, start: nat)
    requires start <= |str| && FindFrom(str, ths, start) == -1
    ensures Pending(str, ths, with, start) == str
  {
    var rest := str[start..];
    FoundBehind(str, ths, start);
    assert !Occurs(rest, ths);
    ReplacedNone(rest, ths, with);
  }

  // ---------------------------------------------------------------- upper case

  /** toupper in the C locale. */
  function Upper(c: char): char {
    if 'a' <= c <= 'z' then 'A' + (c - 'a') else c
  }

  function ToUpper(s: string): string {
    seq(|s|, i requires 0 <= i < |s| => Upper(s[i]))
  }

  const SMALL := "abcdefghijklmnopqrstuvwxyz"
  const CAPITAL := "ABCDEFGHIJKLMNOPQRSTUVWXYZ"

  lemma UpperLetter(k: int)
    requires 0 <= k < 26
    ensures Upper(SMALL[k]) == CAPITAL[k]
  {}

  lemma UpperOther(c: char)
    ensures c !in SMALL ==> Upper(c) == c
  {
    if 'a' <= c <= 'z' { assert SMALL[(c - 'a') as int] == c; }
  }

  /** Every small letter turns into the capital at its place in the alphabet, and nothing else changes. */
  lemma ToUpperExactly(s: string, i: nat)
    requires i < |s|
    ensures |ToUpper(s)| == |s|
    ensures forall k :: 0 <= k < 26 && s[i] == "abcdefghijklmnopqrstuvwxyz"[k] ==> ToUpper(s)[i] == "ABCDEFGHIJKLMNOPQRSTUVWXYZ"[k]
    ensures s[i] !in "abcdefghijklmnopqrstuvwxyz" ==> ToUpper(s)[i] == s[i]
  {
    forall k | 0 <= k < 26 ensures Upper(SMALL[k]) == CAPITAL[k] { UpperLetter(k); }
    UpperOther(s[i]);
  }

  // ---------------------------------------------------------------- splitting

  /** The texts between the occurrences of a delimiter, cut off from the left. */
  function Pieces(s: string, d: string): (r: seq<string>)
    requires d != ""
    ensures |r| >= 1
    decreases |s|
  {
    var i := Find(s, d);
    if i == -1 then [s] else [s[..i]] + Pieces(s[i + |d|..], d)
  }

  lemma PiecesStep(s: string, d: string)
    requires d != "" && Find(s, d) != -1
    ensures var i := Find(s, d); var r := Pieces(s, d);
      r[0] == s[..i] && r[1..] == Pieces(s[i + |d|..], d) && s == s[..i] + d + s[i + |d|..]
  {
    var i := Find(s, d);
    assert s[i..i + |d|] == d;
  }

  /** No piece holds the delimiter. */
  lemma {:induction false} PiecesLack(s: string, d: string, k: nat)
    requires d != "" && k < |Pieces(s, d)|
    ensures Find(Pieces(s, d)[k], d) == -1
    decreases |s|
  {
    var i := Find(s, d);
    if i != -1 {
      PiecesStep(s, d);
      if k == 0 { NoneBefore(s, d, i); } else { PiecesLack(s[i + |d|..], d, k - 1); }
    }
  }

  lemma NoneBefore(s: string, d: string, i: nat)
    requires d != "" && i <= |s| && forall j :: 0 <= j < i ==> !MatchAt(s, d, j)
    ensures Find(s[..i], d) == -1
  {
    var j := Find(s[..i], d);
    if j != -1 {
      assert s[j..j + |d|] == s[..i][j..j + |d|];
      assert MatchAt(s, d, j);
    }
  }

  lemma NotFoundChar(s: string, c: char)
    ensures var i := Find(s, [c]); if i == -1 then c !in s else s[i] == c && c !in s[..i]
  {
    forall k | 0 <= k < |s| && s[k] == c ensures MatchAt(s, [c], k) {
      assert s[k..k + 1] == [c];
    }
    var i := Find(s, [c]);
    if i != -1 { assert s[i..i + 1] == [c]; assert s[i..i+1][0] == s[i]; }
  }

  function Join(ps: seq<string>, d: string): string
    requires |ps| >= 1
  {
    if |ps| == 1 then ps[0] else ps[0] + d + Join(ps[1..], d)
  }

  lemma {:induction false} JoinPieces(s: string, d: string)
    requires d != ""
    ensures Join(Pieces(s, d), d) == s
    decreases |s|
  {
    var i := Find(s, d);
    if i != -1 {
      PiecesStep(s, d);
      JoinPieces(s[i + |d|..], d);
    }
  }

  lemma CharInMatch(s: string, d: string, j: nat, q: nat)
    requires MatchAt(s, d, j) && q < |d|
    ensures j + q < |s| && s[j + q] == d[q]
  {
    assert s[j..j + |d|][q] == d[q];
  }

  /** Behind a text without one of the delimiter's characters the delimiter is found where it was put. */
  lemma FirstDelimiter(p: string, d: string, rest: string, c: char)
    requires c in d && c !in p
    ensures Find(p + d + rest, d) == |p|
  {
    var s := p + d + rest;
    assert s[|p|..|p| + |d|] == d;
    forall j | 0 <= j < |p| ensures !MatchAt(s, d, j) { NoEarlyMatch(p, d, rest, c, j); }
    FindIs(s, d, |p|);
  }

  lemma NoEarlyMatch(p: string, d: string, rest: string, c: char, j: nat)
    requires c in d && c !in p && j < |p|
    ensures !MatchAt(p + d + rest, d, j)
  {
    var q := Find(d, [c]);
    NotFoundChar(d, c);
    CharOfJoin(p, d, rest, j + q);
    if j + q >= |p| { CharBefore(d, q, c, j + q - |p|); }
    if MatchAt(p + d + rest, d, j) { CharInMatch(p + d + rest, d, j, q); }
  }

  lemma CharOfJoin(p: string, d: string, rest: string, k: nat)
    requires k < |p| + |d|
    ensures (p + d + rest)[k] == if k < |p| then p[k] else d[k - |p|]
  {}

  lemma CharBefore(d: string, q: nat, c: char, k: nat)
    requires k < q <= |d| && c !in d[..q]
    ensures d[k] != c
  {
    assert d[..q][k] == d[k];
  }

  lemma NoDelimiter(p: string, d: string, c: char)
    requires c in d && c !in p
    ensures Find(p, d) == -1
  {
    var j, q := Find(p, d), Find(d, [c]);
    NotFoundChar(d, c);
    if j != -1 { CharInMatch(p, d, j, q); }
  }

  /** Pieces that all lack one of the delimiter's characters survive being joined and split. */
  lemma {:induction false} PiecesJoin(ps: seq<string>, d: string, c: char)
    requires |ps| >= 1 && c in d && forall i :: 0 <= i < |ps| ==> c !in ps[i]
    ensures Pieces(Join(ps, d), d) == ps
    decreases |ps|
  {
    if |ps| == 1 {
      NoDelimiter(ps[0], d, c);
    } else {
      var rest := Join(ps[1..], d);
      FirstDelimiter(ps[0], d, rest, c);
      PiecesStep(ps[0] + d + rest, d);
      assert (ps[0] + d + rest)[|ps[0]| + |d|..] == rest && (ps[0] + d + rest)[..|ps[0]|] == ps[0];
      PiecesJoin(ps[1..], d, c);
      assert ps == [ps[0]] + ps[1..];
    }
  }

  /** StringUtil::splitInternal. */
  method Split(input: string, d: string) returns (output: seq<string>)
    requires d != ""
    ensures output == Pieces(input, d)
  {
    output := [];
    var temp := input;
    var start := Find(temp, d);
    while start != -1
      invariant start == Find(temp, d)
      invariant output + Pieces(temp, d) == Pieces(input, d)
      decreases |temp|
    {
      ghost var before := output;
      output := output + [if start != 0 then temp[..start] else ""];
      SplitStep(before, output, temp, d);
      if |temp| > start + |d| {
        temp := temp[start + |d|..];
        start := Find(temp, d);
      } else {
        assert temp[start + |d|..] == "";
        temp := temp[start..];
        assert temp == d;
        break;
      }
    }
    if start != -1 {
      FindIs(temp, d, 0);
      assert ReplaceFirst(temp, d, "") == "";
    }
    temp := ReplaceFirst(temp, d, "");
    output := output + [temp];
  }

  lemma SplitStep(done: seq<string>, more: seq<string>, temp: string, d: string)
    requires d != "" && Find(temp, d) != -1 && more == done + [temp[..Find(temp, d)]]
    ensures done + Pieces(temp, d) == more + Pieces(temp[Find(temp, d) + |d|..], d)
  {
    PiecesStep(temp, d);
    MoveOver(done, temp[..Find(temp, d)], Pieces(temp[Find(temp, d) + |d|..], d), Pieces(temp, d), more);
  }

  lemma MoveOver(done: seq<string>, x: string, rest: seq<string>, todo: seq<string>, more: seq<string>)
    requires todo == [x] + rest && more == done + [x]
    ensures done + todo == more + rest
  {}
}
