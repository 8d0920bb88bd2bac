/** The percent-encoding of CryptoHandler.cpp: a one-pass encoder, and a decoder that rewrites the
    whole string once for each of twenty codes. */
module UrlCodec {
  import opened Text

  const COUNT := 20

  /** The escaped characters, in the order in which the decoder treats them. */
  function Plain(k: nat): char
    requires k < COUNT
  {
    "%=: ^&`{}|][\"<>\\#?/+"[k]
  }

  function Code(k: nat): string
    requires k < COUNT
  {
    ["%25", "%3D", "%3A", "%20", "%5E", "%26", "%60", "%7B", "%7D", "%7C",
     "%5D", "%5B", "%22", "%3C", "%3E", "%5C", "%23", "%3F", "%2F", "%2B"][k]
  }

  /** The place of a character in that order; COUNT for a character that is never escaped. */
  function Rank(c: char): (r: nat)
    ensures r <= COUNT && (r < COUNT ==> Plain(r) == c)
    ensures forall j :: 0 <= j < r ==> Plain(j) != c
  {
    RankFrom(c, 0)
  }

  function RankFrom(c: char, k: nat): (r: nat)
    requires k <= COUNT
    ensures k <= r <= COUNT && (r < COUNT ==> Plain(r) == c)
    ensures forall j :: k <= j < r ==> Plain(j) != c
    decreases COUNT - k
  {
    if k == COUNT || Plain(k) == c then k else RankFrom(c, k + 1)
  }

  function HexDigit(d: nat): char
    requires d < 16
  {
    if d < 10 then '0' + d as char else 'A' + (d - 10) as char
  }

  predicate IsHex(c: char) { '0' <= c <= '9' || 'A' <= c <= 'F' }

  /** Every code is a percent sign and the character's number in upper-case hexadecimal, as section 2.1
      of RFC 3986 asks. */
  lemma CodeIsHex(k: nat)
    requires k < COUNT
    ensures var n := Plain(k) as int; n < 256 && Code(k) == ['%', HexDigit(n / 16), HexDigit(n % 16)]
    ensures !IsHex(Plain(k))
  {}

  lemma CodeShape(k: nat)
    requires k < COUNT
    ensures var c := Code(k); |c| == 3 && c[0] == '%' && IsHex(c[1]) && IsHex(c[2])
    ensures !IsHex(Plain(k))
  {
    CodeIsHex(k);
  }

  lemma RankPlain(k: nat)
    requires k < COUNT
    ensures Rank(Plain(k)) == k
  {
    var r := Rank(Plain(k));
    assert r <= k;
    PlainsDiffer(r, k);
  }

  lemma PlainsDiffer(j: nat, k: nat)
    requires j < COUNT && k < COUNT
    ensures Plain(j) == Plain(k) ==> j == k
  {}

  lemma CodesDiffer(j: nat, k: nat)
    requires j < COUNT && k < COUNT && j != k
    ensures Code(j) != Code(k)
  {
    PlainsDiffer(j, k);
    CodeIsHex(j);
    CodeIsHex(k);
    HexPair(Plain(j) as int, Plain(k) as int);
  }

  lemma HexPair(m: nat, n: nat)
    requires m < 256 && n < 256 && m != n
    ensures HexDigit(m / 16) != HexDigit(n / 16) || HexDigit(m % 16) != HexDigit(n % 16)
  {}

  // ---------------------------------------------------------------- encoding and decoding

  /** A character, escaped if its rank is `k` or more. */
  function Shown(c: char, k: nat): string {
    if k <= Rank(c) < COUNT then Code(Rank(c)) else [c]
  }

  function Show(s: string, k: nat): string {
    if s == "" then "" else Shown(s[0], k) + Show(s[1..], k)
  }

  /** urlEncode */
  function Encoded(s: string): string { Show(s, 0) }

  /** What the `k`-th pass makes of a string. */
  function Pass(s: string, k: nat): string
    requires k < COUNT
  {
    Replaced(s, Code(k), [Plain(k)])
  }

  /** The decoder's passes from the `k`-th on. */
  function Passes(s: string, k: nat): string
    requires k <= COUNT
    decreases COUNT - k
  {
    if k == COUNT then s else Passes(Pass(s, k), k + 1)
  }

  /** urlDecode */
  function Decoded(s: string): string { Passes(s, 0) }

  // ---------------------------------------------------------------- one pass

  lemma ReplacedHit(s: string, pat: string, with: string, rest: string)
    requires pat != "" && s == pat + rest
    ensures Replaced(s, pat, with) == with + Replaced(rest, pat, with)
  {
    assert s[|pat|..] == rest;
  }

  lemma ReplacedMiss(s: string, pat: string, with: string, c: char, rest: string)
    requires s == [c] + rest && !(pat <= s)
    ensures Replaced(s, pat, with) == [c] + Replaced(rest, pat, with)
  {
    assert s[1..] == rest;
  }

  /** Passing over the code of another character. */
  lemma SkipCode(j: nat, k: nat, with: string, rest: string)
    requires j < COUNT && k < COUNT && j != k
    ensures Replaced(Code(j) + rest, Code(k), with) == Code(j) + Replaced(rest, Code(k), with)
  {
    CodeShape(j);
    CodeShape(k);
    CodesDiffer(j, k);
    SkipThree(Code(j), Code(k), with, rest);
  }

  lemma SkipThree(c: string, pat: string, with: string, rest: string)
    requires |c| == |pat| == 3 && c != pat
    requires pat[0] == '%' && c[1] != '%' && c[2] != '%'
    ensures Replaced(c + rest, pat, with) == c + Replaced(rest, pat, with)
  {
    var s2 := [c[2]] + rest;
    var s1 := [c[1]] + s2;
    ReplacedMiss(s2, pat, with, c[2], rest);
    ReplacedMiss(s1, pat, with, c[1], s2);
    assert c + rest == [c[0]] + s1;
    assert (c + rest)[..3] == c;
    ReplacedMiss(c + rest, pat, with, c[0], s1);
    var r := Replaced(rest, pat, with);
    assert [c[0]] + ([c[1]] + ([c[2]] + r)) == c + r;
  }

  lemma HexStays(c: char, k: nat)
    requires IsHex(c)
    ensures Shown(c, k) == [c]
  {
    if Rank(c) < COUNT { CodeShape(Rank(c)); }
  }

  predicate Starts(s: string, x: char) { s != "" && s[0] == x }

  predicate StartsPair(s: string, x: char, y: char) { Starts(s, x) && Starts(s[1..], y) }

  lemma LeadStays(s: string, k: nat, x: char)
    requires IsHex(x)
    ensures Starts(s, x) ==> Show(s, k) == [x] + Show(s[1..], k)
    ensures Starts(Show(s, k), x) == Starts(s, x)
  {
    if s != "" {
      HexStays(x, k);
      if Rank(s[0]) < COUNT { CodeShape(Rank(s[0])); }
    }
  }

  /** Two hexadecimal digits lead an encoded string just when they lead the original. */
  lemma PairStays(s: string, k: nat, x: char, y: char)
    requires IsHex(x) && IsHex(y)
    ensures StartsPair(Show(s, k), x, y) == StartsPair(s, x, y)
    ensures StartsPair(s, x, y) ==> Show(s, k) == [x, y] + Show(s[2..], k)
  {
    LeadStays(s, k, x);
    if Starts(s, x) {
      LeadStays(s[1..], k, y);
      assert Show(s, k)[1..] == Show(s[1..], k);
      if Starts(s[1..], y) { TwoHeads(Show(s, k), Show(s[1..], k), Show(s[2..], k), x, y); }
    }
  }

  lemma TwoHeads(a: string, b: string, c: string, x: char, y: char)
    requires a == [x] + b && b == [y] + c
    ensures a == [x, y] + c
  {}

  /** The code leads a string: its percent sign and its two digits do. */
  lemma CodeLeads(s: string, k: nat)
    requires k < COUNT
    ensures Code(k) <= s <==> Starts(s, '%') && StartsPair(s[1..], Code(k)[1], Code(k)[2])
    ensures Code(k) <= s ==> s == Code(k) + s[3..]
  {
    CodeShape(k);
    var c := Code(k);
    assert |c| == 3;
    if Starts(s, '%') && StartsPair(s[1..], c[1], c[2]) {
      assert s[1] == c[1] && s[1..][1..][0] == s[2] == c[2];
      assert s[..3] == c;
    }
  }

  lemma ShowCons(c: char, t: string, k: nat)
    ensures Show([c] + t, k) == Shown(c, k) + Show(t, k)
  {
    assert ([c] + t)[1..] == t;
  }

  lemma Cons(s: string)
    requires s != ""
    ensures s == [s[0]] + s[1..]
  {}

  lemma Same(a: string, b: string, head: string, rest: string)
    requires a == head + rest && b == head + rest
    ensures a == b
  {}

  lemma PercentFirst(k: nat)
    requires k < COUNT
    ensures Plain(k) == '%' <==> k == 0
    ensures Rank('%') == 0
  {
    RankPlain(k);
  }

  /** A pass over a character that is not the percent sign goes on with the rest. */
  lemma PassPlain(x: string, k: nat)
    requires k < COUNT && x != "" && x[0] != '%'
    ensures Pass(x, k) == [x[0]] + Pass(x[1..], k)
  {
    CodeShape(k);
    Cons(x);
    ReplacedMiss(x, Code(k), [Plain(k)], x[0], x[1..]);
  }

  lemma ShowOwn(x: string, k: nat)
    requires 1 <= k < COUNT && x != "" && Rank(x[0]) == k
    requires Pass(Show(x[1..], k), k) == Show(Pass(x[1..], k), k + 1)
    ensures Pass(Show(x, k), k) == Show(Pass(x, k), k + 1)
  {
    var rest := Pass(x[1..], k);
    CodeShape(k);
    PercentFirst(k);
    PassPlain(x, k);
    ReplacedHit(Show(x, k), Code(k), [Plain(k)], Show(x[1..], k));
    ShowCons(x[0], rest, k + 1);
    Same(Pass(Show(x, k), k), Show(Pass(x, k), k + 1), [x[0]], Show(rest, k + 1));
  }

  lemma ShowOther(x: string, k: nat)
    requires 1 <= k < COUNT && x != "" && k < Rank(x[0]) < COUNT
    requires Pass(Show(x[1..], k), k) == Show(Pass(x[1..], k), k + 1)
    ensures Pass(Show(x, k), k) == Show(Pass(x, k), k + 1)
  {
    var j, rest := Rank(x[0]), Pass(x[1..], k);
    PercentFirst(j);
    PassPlain(x, k);
    SkipCode(j, k, [Plain(k)], Show(x[1..], k));
    ShowCons(x[0], rest, k + 1);
    Same(Pass(Show(x, k), k), Show(Pass(x, k), k + 1), Code(j), Show(rest, k + 1));
  }

  /** The code leads a string that shows its first character just when it leads the original. */
  lemma CodeStays(x: string, k: nat)
    requires 1 <= k < COUNT && x != "" && !(k <= Rank(x[0]) < COUNT)
    ensures Code(k) <= Show(x, k) <==> Code(k) <= x
  {
    CodeShape(k);
    CodeLeads(x, k);
    CodeLeads(Show(x, k), k);
    PairStays(x[1..], k, Code(k)[1], Code(k)[2]);
    assert Show(x, k)[1..] == Show(x[1..], k);
  }

  lemma CodeBehind(x: string, k: nat)
    requires 1 <= k < COUNT && x != "" && !(k <= Rank(x[0]) < COUNT) && Code(k) <= x
    ensures |x| >= 3 && Show(x, k) == Code(k) + Show(x[3..], k)
  {
    CodeShape(k);
    CodeLeads(x, k);
    PairStays(x[1..], k, Code(k)[1], Code(k)[2]);
    assert x[1..][2..] == x[3..];
    ThreeHeads(Show(x, k), Show(x[1..], k), Show(x[3..], k), Code(k));
  }

  lemma ThreeHeads(a: string, b: string, rest: string, c: string)
    requires |c| == 3 && a == [c[0]] + b && b == [c[1], c[2]] + rest
    ensures a == c + rest
  {}

  lemma ShowHit(x: string, k: nat)
    requires 1 <= k < COUNT && x != "" && Code(k) <= x && Show(x, k) == Code(k) + Show(x[3..], k)
    requires |x| >= 3 && Pass(Show(x[3..], k), k) == Show(Pass(x[3..], k), k + 1)
    ensures Pass(Show(x, k), k) == Show(Pass(x, k), k + 1)
  {
    var rest := Pass(x[3..], k);
    CodeShape(k);
    RankPlain(k);
    CodeLeads(x, k);
    ReplacedHit(x, Code(k), [Plain(k)], x[3..]);
    ReplacedHit(Show(x, k), Code(k), [Plain(k)], Show(x[3..], k));
    ShowCons(Plain(k), rest, k + 1);
    Same(Pass(Show(x, k), k), Show(Pass(x, k), k + 1), [Plain(k)], Show(rest, k + 1));
  }

  lemma ShowMiss(x: string, k: nat)
    requires 1 <= k < COUNT && x != "" && !(k <= Rank(x[0]) < COUNT)
    requires !(Code(k) <= x) && !(Code(k) <= Show(x, k))
    requires Pass(Show(x[1..], k), k) == Show(Pass(x[1..], k), k + 1)
    ensures Pass(Show(x, k), k) == Show(Pass(x, k), k + 1)
  {
    var rest := Pass(x[1..], k);
    Cons(x);
    ReplacedMiss(x, Code(k), [Plain(k)], x[0], x[1..]);
    ReplacedMiss(Show(x, k), Code(k), [Plain(k)], x[0], Show(x[1..], k));
    ShowCons(x[0], rest, k + 1);
    Same(Pass(Show(x, k), k), Show(Pass(x, k), k + 1), [x[0]], Show(rest, k + 1));
  }

  /** A pass over an encoded string undoes the escapes of one character, and besides does to the
      original what it would do there. */
  lemma {:induction false} PassShow(x: string, k: nat)
    requires 1 <= k < COUNT
    ensures Pass(Show(x, k), k) == Show(Pass(x, k), k + 1)
    decreases |x|
  {
    CodeShape(k);
    if x == "" {
      assert Show(x, k) == "" == Pass("", k);
    } else if k <= Rank(x[0]) < COUNT {
      PassShow(x[1..], k);
      if Rank(x[0]) == k { ShowOwn(x, k); } else { ShowOther(x, k); }
    } else {
      CodeStays(x, k);
      if Code(k) <= x {
        CodeBehind(x, k);
        PassShow(x[3..], k);
        ShowHit(x, k);
      } else {
        PassShow(x[1..], k);
        ShowMiss(x, k);
      }
    }
  }

  /** The first pass turns back exactly the escaped percent signs. */
  lemma {:induction false} FirstPass(x: string)
    ensures Pass(Show(x, 0), 0) == Show(x, 1)
  {
    CodeShape(0);
    if x != "" {
      FirstPass(x[1..]);
      PercentFirst(0);
      var r := Rank(x[0]);
      if r == 0 {
        ReplacedHit(Show(x, 0), Code(0), [Plain(0)], Show(x[1..], 0));
      } else if r < COUNT {
        SkipCode(r, 0, [Plain(0)], Show(x[1..], 0));
      } else {
        ReplacedMiss(Show(x, 0), Code(0), [Plain(0)], x[0], Show(x[1..], 0));
      }
    }
  }

  // ---------------------------------------------------------------- all the passes

  lemma {:induction false} ShowAll(s: string)
    ensures Show(s, COUNT) == s
  {
    if s != "" { ShowAll(s[1..]); Cons(s); }
  }

  lemma {:induction false} PassesShow(x: string, k: nat)
    requires 1 <= k <= COUNT
    ensures Passes(Show(x, k), k) == Passes(x, k)
    decreases COUNT - k
  {
    if k == COUNT {
      ShowAll(x);
    } else {
      PassShow(x, k);
      PassesShow(Pass(x, k), k + 1);
    }
  }

  /** Decoding what was encoded is the original under all the passes but the first. */
  lemma DecodedEncoded(s: string)
    ensures Decoded(Encoded(s)) == Passes(s, 1)
  {
    FirstPass(s);
    PassesShow(s, 1);
  }

  lemma {:induction false} PassesShorten(s: string, k: nat)
    requires k <= COUNT
    ensures |Passes(s, k)| <= |s|
    decreases COUNT - k
  {
    if k < COUNT {
      CodeShape(k);
      ReplacedShorter(s, Code(k), [Plain(k)]);
      PassesShorten(Pass(s, k), k + 1);
    }
  }

  lemma {:induction false} PassesKeep(s: string, k: nat)
    requires k <= COUNT
    ensures Passes(s, k) == s <==> forall j :: k <= j < COUNT ==> !Occurs(s, Code(j))
    decreases COUNT - k
  {
    if k < COUNT {
      CodeShape(k);
      if Occurs(s, Code(k)) {
        ReplacedShorter(s, Code(k), [Plain(k)]);
        PassesShorten(Pass(s, k), k + 1);
      } else {
        ReplacedNone(s, Code(k), [Plain(k)]);
        PassesKeep(s, k + 1);
      }
    }
  }

  /** Decoding gives back an encoded string just when the string holds none of the codes but "%25". */
  lemma RoundTrip(s: string)
    ensures Decoded(Encoded(s)) == s <==> forall j :: 1 <= j < COUNT ==> !Occurs(s, Code(j))
  {
    DecodedEncoded(s);
    PassesKeep(s, 1);
  }

  // ---------------------------------------------------------------- what the encoding loses: nothing

  /** The first code from the `k`-th on that leads a string; COUNT if none does. */
  function CodeAt(t: string, k: nat): (r: nat)
    requires k <= COUNT
    ensures k <= r <= COUNT && (r < COUNT ==> Code(r) <= t)
    ensures forall j :: k <= j < r ==> !(Code(j) <= t)
    decreases COUNT - k
  {
    if k == COUNT || Code(k) <= t then k else CodeAt(t, k + 1)
  }

  /** The textbook decoder: one pass, every code read once. */
  function Unescaped(t: string): string {
    if t == "" then ""
    else
      var j := CodeAt(t, 0);
      if j < COUNT then (CodeShape(j); [Plain(j)] + Unescaped(t[3..])) else [t[0]] + Unescaped(t[1..])
  }

  lemma CodeAtCode(k: nat, rest: string)
    requires k < COUNT
    ensures CodeAt(Code(k) + rest, 0) == k
  {
    var r := CodeAt(Code(k) + rest, 0);
    assert Code(k) <= Code(k) + rest;
    assert r <= k;
    CodeShape(k);
    CodeShape(r);
    assert Code(r) == (Code(k) + rest)[..3] == Code(k);
    if r != k { CodesDiffer(r, k); }
  }

  lemma CodeAtPlain(t: string)
    requires t != "" && t[0] != '%'
    ensures CodeAt(t, 0) == COUNT
  {
    var r := CodeAt(t, 0);
    if r < COUNT { CodeShape(r); }
  }

  /** One pass undoes the encoding, for every string. */
  lemma {:induction false} UnescapedEncoded(s: string)
    ensures Unescaped(Encoded(s)) == s
  {
    if s != "" {
      UnescapedEncoded(s[1..]);
      PercentFirst(0);
      var r, rest := Rank(s[0]), Encoded(s[1..]);
      Cons(s);
      if r < COUNT {
        CodeShape(r);
        CodeAtCode(r, rest);
        assert (Code(r) + rest)[3..] == rest;
      } else {
        CodeAtPlain([s[0]] + rest);
        assert ([s[0]] + rest)[1..] == rest;
      }
    }
  }

  /** No two strings have the same encoding. */
  lemma EncodedInjective(a: string, b: string)
    requires Encoded(a) == Encoded(b)
    ensures a == b
  {
    UnescapedEncoded(a);
    UnescapedEncoded(b);
  }

  /** The twenty passes do what one pass does to an encoded string just when it was made from a string
      without codes. */
  lemma PassesAgree(s: string)
    ensures Decoded(Encoded(s)) == Unescaped(Encoded(s)) <==> forall j :: 1 <= j < COUNT ==> !Occurs(s, Code(j))
  {
    UnescapedEncoded(s);
    RoundTrip(s);
  }

  /** In an encoded string an escaped character is a percent sign, and begins a code. */
  lemma {:induction false} EncodedClean(s: string, i: nat)
    requires i < |Encoded(s)| && Rank(Encoded(s)[i]) < COUNT
    ensures Encoded(s)[i] == '%' && CodeAt(Encoded(s)[i..], 0) < COUNT
  {
    var r, rest := Rank(s[0]), Encoded(s[1..]);
    var head := Shown(s[0], 0);
    assert Encoded(s) == head + rest;
    if r < COUNT { CodeShape(r); }
    if i >= |head| {
      assert Encoded(s)[i..] == rest[i - |head|..];
      EncodedClean(s[1..], i - |head|);
    } else if r < COUNT {
      CodeAtCode(r, rest);
      if i > 0 { CodeShape(Rank(Code(r)[i])); }
    }
  }

  // ---------------------------------------------------------------- the two routines

  /** A line of the decoder, or a case of the encoder's switch. */
  predicate Row(k: nat, ths: string, with: string) { k < COUNT && ths == Code(k) && with == [Plain(k)] }

  lemma FirstRows()
    ensures Row(0, "%25", "%")
    ensures Row(1, "%3D", "=")
    ensures Row(2, "%3A", ":")
    ensures Row(3, "%20", " ")
    ensures Row(4, "%5E", "^")
    ensures Row(5, "%26", "&")
    ensures Row(6, "%60", "`")
    ensures Row(7, "%7B", "{")
    ensures Row(8, "%7D", "}")
    ensures Row(9, "%7C", "|")
  {}

  lemma LastRows()
    ensures Row(10, "%5D", "]")
    ensures Row(11, "%5B", "[")
    ensures Row(12, "%22", "\"")
    ensures Row(13, "%3C", "<")
    ensures Row(14, "%3E", ">")
    ensures Row(15, "%5C", "\\")
    ensures Row(16, "%23", "#")
    ensures Row(17, "%3F", "?")
    ensures Row(18, "%2F", "/")
    ensures Row(19, "%2B", "+")
  {}

  lemma RowShown(k: nat, ths: string, c: char)
    requires Row(k, ths, [c])
    ensures Shown(c, 0) == ths
  {
    assert [c][0] == [Plain(k)][0];
    RankPlain(k);
  }

  lemma Unlisted(c: char)
    requires c !in "%=: ^&`{}|][\"<>\\#?/+"
    ensures Shown(c, 0) == [c]
  {
    if Rank(c) < COUNT { PlainListed(Rank(c)); }
  }

  lemma PlainListed(k: nat)
    requires k < COUNT
    ensures Plain(k) in "%=: ^&`{}|][\"<>\\#?/+"
  {}

  /** The switch of urlEncode. */
  method Escape(c: char) returns (t: string)
    ensures t == Shown(c, 0)
  {
    FirstRows();
    LastRows();
    match c {
      case '%' => t := "%25"; RowShown(0, t, c);
      case '=' => t := "%3D"; RowShown(1, t, c);
      case ':' => t := "%3A"; RowShown(2, t, c);
      case ' ' => t := "%20"; RowShown(3, t, c);
      case '^' => t := "%5E"; RowShown(4, t, c);
      case '&' => t := "%26"; RowShown(5, t, c);
      case '`' => t := "%60"; RowShown(6, t, c);
      case '{' => t := "%7B"; RowShown(7, t, c);
      case '}' => t := "%7D"; RowShown(8, t, c);
      case '|' => t := "%7C"; RowShown(9, t, c);
      case ']' => t := "%5D"; RowShown(10, t, c);
      case '[' => t := "%5B"; RowShown(11, t, c);
      case '"' => t := "%22"; RowShown(12, t, c);
      case '<' => t := "%3C"; RowShown(13, t, c);
      case '>' => t := "%3E"; RowShown(14, t, c);
      case '\\' => t := "%5C"; RowShown(15, t, c);
      case '#' => t := "%23"; RowShown(16, t, c);
      case '?' => t := "%3F"; RowShown(17, t, c);
      case '/' => t := "%2F"; RowShown(18, t, c);
      case '+' => t := "%2B"; RowShown(19, t, c);
      case _ => t := [c]; Unlisted(c);
    }
  }

  method UrlEncode(str: string) returns (strret: string)
    ensures strret == Encoded(str)
  {
    strret := "";
    for i := 0 to |str|
      invariant strret + Encoded(str[i..]) == Encoded(str)
    {
      var t := Escape(str[i]);
      assert str[i..][1..] == str[i + 1..];
      Append(Encoded(str), Encoded(str[i..]), strret, t, Encoded(str[i + 1..]));
      strret := strret + t;
    }
  }

  /** One line of urlDecode: it must be the next pass. */
  method DecodeOne(str: string, ths: string, with: string, ghost k: nat) returns (strret: string, ghost next: nat)
    requires Row(k, ths, with)
    ensures next == k + 1 && Passes(strret, next) == Passes(str, k)
  {
    strret := ReplaceAll(str, ths, with);
    next := k + 1;
  }

  method UrlDecode(str: string) returns (strret: string)
    ensures strret == Decoded(str)
  {
    FirstRows();
    LastRows();
    ghost var k: nat;
    strret, k := DecodeOne(str, "%25", "%", 0);
    strret, k := DecodeOne(strret, "%3D", "=", k);
    strret, k := DecodeOne(strret, "%3A", ":", k);
    strret, k := DecodeOne(strret, "%20", " ", k);
    strret, k := DecodeOne(strret, "%5E", "^", k);
    strret, k := DecodeOne(strret, "%26", "&", k);
    strret, k := DecodeOne(strret, "%60", "`", k);
    strret, k := DecodeOne(strret, "%7B", "{", k);
    strret, k := DecodeOne(strret, "%7D", "}", k);
    strret, k := DecodeOne(strret, "%7C", "|", k);
    strret, k := DecodeOne(strret, "%5D", "]", k);
    strret, k := DecodeOne(strret, "%5B", "[", k);
    strret, k := DecodeOne(strret, "%22", "\"", k);
    strret, k := DecodeOne(strret, "%3C", "<", k);
    strret, k := DecodeOne(strret, "%3E", ">", k);
    strret, k := DecodeOne(strret, "%5C", "\\", k);
    strret, k := DecodeOne(strret, "%23", "#", k);
    strret, k := DecodeOne(strret, "%3F", "?", k);
    strret, k := DecodeOne(strret, "%2F", "/", k);
    strret, k := DecodeOne(strret, "%2B", "+", k);
  }
}
