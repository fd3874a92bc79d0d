// String helpers shared by the model: the C++ standard library and Boost
// operations the compiler relies on (std::string::find, std::stoi,
// std::to_string, boost::split, boost::trim, std::getline on a delimiter),
// each stated with the contract the compiler depends on.

module Strings {

  datatype Option<T> = None | Some(value: T)

  /** A computation that may abort, as a PANIC, a failed assert or an uncaught exception does in the compiler. */
  datatype Result<T> = Ok(value: T) | Err(msg: string)

  /** The 32-bit `int` range that std::stoi must fit its result into. */
  const IntMin: int := -0x8000_0000
  const IntMax: int := 0x7fff_ffff

  // ---------------------------------------------------------------------
  // Substring search (std::string::find)
  // ---------------------------------------------------------------------

  predicate OccursAt(s: string, sub: string, i: int)
  {
    0 <= i && i + |sub| <= |s| && s[i..i + |sub|] == sub
  }

  /** First index at which `sub` occurs in `s`, or -1 (std::string::npos). */
  function Find(s: string, sub: string): (r: int)
    ensures -1 <= r <= |s|
    ensures r >= 0 ==> OccursAt(s, sub, r)
    ensures r >= 0 ==> forall j :: 0 <= j < r ==> !OccursAt(s, sub, j)
    ensures r == -1 ==> forall j :: !OccursAt(s, sub, j)
    decreases |s|
  {
    if |sub| > |s| then
      assert forall j :: !OccursAt(s, sub, j);
      -1
    else if s[..|sub|] == sub then 0
    else
      var k := Find(s[1..], sub);
      assert forall j :: 1 <= j ==> (OccursAt(s, sub, j) <==> OccursAt(s[1..], sub, j - 1)) by {
        forall j | 1 <= j ensures OccursAt(s, sub, j) <==> OccursAt(s[1..], sub, j - 1) {
          if j + |sub| <= |s| { SliceOfTail(s, j, |sub|); }
        }
      }
      if k < 0 then -1 else k + 1
  }

  lemma SliceOfTail(s: string, j: int, n: nat)
    requires 1 <= j && j + n <= |s|
    ensures s[j..j + n] == s[1..][j - 1..j - 1 + n]
  {
    var a, b := s[j..j + n], s[1..][j - 1..j - 1 + n];
    assert |a| == |b|;
    assert forall k :: 0 <= k < n ==> a[k] == b[k];
  }

  /** `sub` occurs somewhere in `s` (std::string::find does not return npos). */
  predicate Contains(s: string, sub: string)
    decreases |s|
  {
    |sub| <= |s| && (s[..|sub|] == sub || (|s| > 0 && Contains(s[1..], sub)))
  }

  lemma {:induction false} ContainsIff(s: string, sub: string)
    ensures Contains(s, sub) <==> Find(s, sub) >= 0
    ensures Contains(s, sub) <==> exists i :: OccursAt(s, sub, i)
    decreases |s|
  {
    if |sub| <= |s| && s[..|sub|] != sub && |s| > 0 {
      ContainsIff(s[1..], sub);
      forall i | OccursAt(s, sub, i) && i >= 1 ensures OccursAt(s[1..], sub, i - 1) {
        SliceOfTail(s, i, |sub|);
      }
      if Contains(s[1..], sub) {
        var i :| OccursAt(s[1..], sub, i);
        SliceOfTail(s, i + 1, |sub|);
        assert OccursAt(s, sub, i + 1);
      }
    } else if |sub| <= |s| && s[..|sub|] == sub {
      assert OccursAt(s, sub, 0);
    }
  }

  /** A text contains itself, and the empty string is found at index 0 everywhere. */
  lemma ContainsEmpty(s: string)
    ensures Find(s, "") == 0
  {
    assert OccursAt(s, "", 0);
  }

  lemma ContainsSelf(s: string)
    ensures Contains(s, s)
  {
    assert s[..|s|] == s;
  }

  // ---------------------------------------------------------------------
  // Joining and splitting
  // ---------------------------------------------------------------------

  /** Elements separated by `sep` (the "first element without separator" loops of the toString methods). */
  function Join(xs: seq<string>, sep: string): string
  {
    if |xs| == 0 then ""
    else if |xs| == 1 then xs[0]
    else Join(xs[..|xs| - 1], sep) + sep + xs[|xs| - 1]
  }

  /** Plain concatenation of the elements (the toString methods that just append). */
  function Concat(xs: seq<string>): string
  {
    if |xs| == 0 then "" else Concat(xs[..|xs| - 1]) + xs[|xs| - 1]
  }

  lemma {:induction false} JoinLength(xs: seq<string>, sep: string)
    ensures |xs| > 0 ==> |Join(xs, sep)| == |Concat(xs)| + (|xs| - 1) * |sep|
  {
    var n := |xs|;
    if n > 1 {
      var p := xs[..n - 1];
      JoinLength(p, sep);
      assert |Join(xs, sep)| == |Join(p, sep)| + |sep| + |xs[n - 1]|;
      assert |Concat(xs)| == |Concat(p)| + |xs[n - 1]|;
      MulSucc(n - 2, |sep|);
    } else if n == 1 {
      assert Concat(xs) == Concat(xs[..0]) + xs[0];
    }
  }

  lemma MulSucc(a: int, k: int)
    ensures a * k + k == (a + 1) * k
  {
  }

  /** Splitting at every character in `seps`, keeping empty pieces (boost::split without token compression). */
  function SplitOn(s: string, seps: set<char>): (r: seq<string>)
    ensures |r| >= 1
    decreases |s|
  {
    if s == [] then [""]
    else if s[0] in seps then [""] + SplitOn(s[1..], seps)
    else
      var rest := SplitOn(s[1..], seps);
      [[s[0]] + rest[0]] + rest[1..]
  }

  predicate NoneOf(s: string, seps: set<char>)
  {
    forall i :: 0 <= i < |s| ==> s[i] !in seps
  }

  lemma {:induction false} SplitPiecesFree(s: string, seps: set<char>)
    ensures forall k :: 0 <= k < |SplitOn(s, seps)| ==> NoneOf(SplitOn(s, seps)[k], seps)
    decreases |s|
  {
    if s != [] {
      SplitPiecesFree(s[1..], seps);
      var rest := SplitOn(s[1..], seps);
      if s[0] !in seps {
        var first := [s[0]] + rest[0];
        assert NoneOf(first, seps) by {
          forall i | 0 <= i < |first| ensures first[i] !in seps {
            if i > 0 { assert first[i] == rest[0][i - 1]; }
          }
        }
      }
    }
  }

  /** Joining the pieces back with the separator character gives the original text. */
  lemma {:induction false} SplitJoin(s: string, c: char)
    ensures Join(SplitOn(s, {c}), [c]) == s
    decreases |s|
  {
    if s != [] {
      SplitJoin(s[1..], c);
      var rest := SplitOn(s[1..], {c});
      if s[0] == c {
        JoinCons("", rest, [c]);
      } else {
        JoinHead([s[0]], rest, [c]);
      }
    }
  }

  lemma {:induction false} JoinCons(x: string, xs: seq<string>, sep: string)
    requires |xs| >= 1
    ensures Join([x] + xs, sep) == x + sep + Join(xs, sep)
    decreases |xs|
  {
    if |xs| == 1 {
      assert ([x] + xs)[..1] == [x];
    } else {
      var ys := [x] + xs;
      assert ys[..|ys| - 1] == [x] + xs[..|xs| - 1];
      JoinCons(x, xs[..|xs| - 1], sep);
    }
  }

  lemma {:induction false} JoinHead(h: string, xs: seq<string>, sep: string)
    requires |xs| >= 1
    ensures Join([h + xs[0]] + xs[1..], sep) == h + Join(xs, sep)
    decreases |xs|
  {
    if |xs| == 1 {
    } else {
      var ys := [h + xs[0]] + xs[1..];
      assert ys[..|ys| - 1] == [h + xs[0]] + xs[..|xs| - 1][1..];
      JoinHead(h, xs[..|xs| - 1], sep);
    }
  }

  /** Splitting a joined list gives the list back when no element holds a separator. */
  lemma {:induction false} JoinSplit(xs: seq<string>, c: char, seps: set<char>)
    requires |xs| >= 1 && c in seps
    requires forall k :: 0 <= k < |xs| ==> NoneOf(xs[k], seps)
    ensures SplitOn(Join(xs, [c]), seps) == xs
    decreases |xs|
  {
    if |xs| == 1 {
      PieceSplit(xs[0], seps);
    } else {
      JoinCons(xs[0], xs[1..], [c]);
      JoinSplit(xs[1..], c, seps);
      var tail := [c] + Join(xs[1..], [c]);
      SplitAfterPiece(xs[0], tail, seps);
      assert tail[0] == c && tail[1..] == Join(xs[1..], [c]);
      assert SplitOn(tail, seps) == [""] + SplitOn(tail[1..], seps);
      assert xs[0] + [c] + Join(xs[1..], [c]) == xs[0] + tail;
      assert xs[0] + "" == xs[0];
      assert ([""] + xs[1..])[1..] == xs[1..];
      assert [xs[0]] + xs[1..] == xs;
    }
  }

  lemma {:induction false} PieceSplit(p: string, seps: set<char>)
    requires NoneOf(p, seps)
    ensures SplitOn(p, seps) == [p]
    decreases |p|
  {
    if p != [] {
      PieceSplit(p[1..], seps);
      assert [p[0]] + p[1..] == p;
    }
  }

  lemma {:induction false} SplitAfterPiece(p: string, t: string, seps: set<char>)
    requires NoneOf(p, seps)
    ensures SplitOn(p + t, seps) == [p + SplitOn(t, seps)[0]] + SplitOn(t, seps)[1..]
    decreases |p|
  {
    if p == [] {
      var r := SplitOn(t, seps);
      assert p + t == t && p + r[0] == r[0];
      assert [r[0]] + r[1..] == r;
    } else {
      SplitAfterPiece(p[1..], t, seps);
      var pt := p + t;
      assert pt[0] == p[0] && pt[1..] == p[1..] + t;
      var rest := SplitOn(p[1..] + t, seps);
      assert SplitOn(pt, seps) == [[p[0]] + rest[0]] + rest[1..];
      assert rest[0] == p[1..] + SplitOn(t, seps)[0] && rest[1..] == SplitOn(t, seps)[1..];
      assert [p[0]] + (p[1..] + SplitOn(t, seps)[0]) == p + SplitOn(t, seps)[0];
    }
  }

  /** The pieces std::getline yields when reading `s` with delimiter `d`: a trailing empty piece is not produced. */
  function GetlineSplit(s: string, d: char): (r: seq<string>)
    ensures s == [] ==> r == []
    ensures forall k :: 0 <= k < |r| ==> NoneOf(r[k], {d})
  {
    var p := SplitOn(s, {d});
    SplitPiecesFree(s, {d});
    if p[|p| - 1] == "" then p[..|p| - 1] else p
  }

  // ---------------------------------------------------------------------
  // Trimming (boost::trim, boost::trim_right_if)
  // ---------------------------------------------------------------------

  /** The characters std::isspace accepts in the "C" locale. */
  const Whitespace: set<char> := {' ', '\t', '\n', '\r', '\U{000B}', '\U{000C}'}

  /** How many characters at the front of `s` are in `cs`. */
  function LeadingIn(s: string, cs: set<char>): (n: nat)
    ensures n <= |s| && (n < |s| ==> s[n] !in cs)
    decreases |s|
  {
    if s != [] && s[0] in cs then 1 + LeadingIn(s[1..], cs) else 0
  }

  /** How many characters at the end of `s` are in `cs`. */
  function TrailingIn(s: string, cs: set<char>): (n: nat)
    ensures n <= |s| && (n < |s| ==> s[|s| - 1 - n] !in cs)
    ensures forall i :: |s| - n <= i < |s| ==> s[i] in cs
    decreases |s|
  {
    if s != [] && s[|s| - 1] in cs then 1 + TrailingIn(s[..|s| - 1], cs) else 0
  }

  function TrimLeftOf(s: string, cs: set<char>): (r: string)
    ensures r != [] ==> r[0] !in cs
  {
    s[LeadingIn(s, cs)..]
  }

  function TrimRightOf(s: string, cs: set<char>): (r: string)
    ensures r != [] ==> r[|r| - 1] !in cs
    ensures forall i :: |r| <= i < |s| ==> s[i] in cs
  {
    s[..|s| - TrailingIn(s, cs)]
  }

  function Trim(s: string): (r: string)
    ensures r != [] ==> r[0] !in Whitespace && r[|r| - 1] !in Whitespace
  {
    TrimLeftOf(TrimRightOf(s, Whitespace), Whitespace)
  }

  /** Trimming a trimmed text changes nothing. */
  lemma TrimIdempotent(s: string)
    ensures Trim(Trim(s)) == Trim(s)
  {
    var t := Trim(s);
    if t != [] {
      assert TrimRightOf(t, Whitespace) == t;
      assert TrimLeftOf(t, Whitespace) == t;
    }
  }

  // ---------------------------------------------------------------------
  // Decimal conversion (std::stoi, std::to_string)
  // ---------------------------------------------------------------------

  predicate IsDigit(c: char) { '0' <= c <= '9' }

  predicate AllDigits(s: string) { forall i :: 0 <= i < |s| ==> IsDigit(s[i]) }

  function DigitValue(c: char): nat
    requires IsDigit(c)
  {
    (c as int) - ('0' as int)
  }

  function DigitChar(d: nat): (c: char)
    requires d < 10
    ensures IsDigit(c) && DigitValue(c) == d
  {
    (('0' as int) + d) as char
  }

  /** Value of a string of decimal digits, most significant first. */
  function DigitsValue(s: string): nat
    requires AllDigits(s)
  {
    if s == [] then 0 else DigitsValue(s[..|s| - 1]) * 10 + DigitValue(s[|s| - 1])
  }

  /** The longest prefix of decimal digits. */
  function LeadingDigits(s: string): (r: string)
    ensures AllDigits(r) && |r| <= |s| && r == s[..|r|]
    ensures |r| < |s| ==> !IsDigit(s[|r|])
    decreases |s|
  {
    if s != [] && IsDigit(s[0]) then [s[0]] + LeadingDigits(s[1..]) else ""
  }

  /**
   * std::stoi: skip leading whitespace, read an optional sign and the longest
   * run of digits after it; no digits, or a value outside `int`, throws
   * (None here). Characters after the digits are ignored.
   */
  function Stoi(s: string): Option<int>
  {
    var t := TrimLeftOf(s, Whitespace);
    var neg := t != [] && t[0] == '-';
    var body := if t != [] && (t[0] == '-' || t[0] == '+') then t[1..] else t;
    var ds := LeadingDigits(body);
    if ds == [] then None
    else
      var v := if neg then -(DigitsValue(ds) as int) else DigitsValue(ds) as int;
      if IntMin <= v <= IntMax then Some(v) else None
  }

  function NatToString(n: nat): (r: string)
    ensures r != [] && AllDigits(r) && DigitsValue(r) == n
    decreases n
  {
    if n < 10 then [DigitChar(n)]
    else
      var r := NatToString(n / 10) + [DigitChar(n % 10)];
      assert r[..|r| - 1] == NatToString(n / 10);
      r
  }

  /** std::to_string on an int. */
  function IntToString(n: int): (r: string)
    ensures r != [] && NoneOf(r, Whitespace)
  {
    var r := if n < 0 then "-" + NatToString(-n) else NatToString(n);
    assert forall i :: 0 <= i < |r| ==> r[i] == '-' || IsDigit(r[i]);
    r
  }

  /** std::to_string writes only digits and a minus sign. */
  lemma IntToStringChars(n: int)
    ensures forall i :: 0 <= i < |IntToString(n)| ==> IntToString(n)[i] == '-' || IsDigit(IntToString(n)[i])
  {
    var r := IntToString(n);
    var digits := if n < 0 then NatToString(-n) else NatToString(n);
    if n < 0 { assert r == "-" + digits; } else { assert r == digits; }
  }

  lemma {:induction false} LeadingDigitsAll(s: string)
    requires AllDigits(s)
    ensures LeadingDigits(s) == s
    decreases |s|
  {
    if s != [] { LeadingDigitsAll(s[1..]); }
  }

  /** std::stoi reads back what std::to_string wrote, for every int. */
  lemma StoiIntToString(n: int)
    requires IntMin <= n <= IntMax
    ensures Stoi(IntToString(n)) == Some(n)
  {
    var r := IntToString(n);
    var digits := if n < 0 then NatToString(-n) else NatToString(n);
    assert TrimLeftOf(r, Whitespace) == r;
    LeadingDigitsAll(digits);
    if n < 0 {
      assert r[1..] == digits;
    } else {
      assert r[0] != '-' && r[0] != '+';
    }
  }

  // ---------------------------------------------------------------------
  // Integer stand-ins for the floating point the compiler uses
  // ---------------------------------------------------------------------

  function Pow2(k: nat): (r: nat)
    ensures r >= 1
  {
    if k == 0 then 1 else 2 * Pow2(k - 1)
  }

  /** ceil(log2(n)) for n >= 1: the least k with 2^k >= n. */
  function CeilLog2(n: nat): (k: nat)
    requires n >= 1
    ensures Pow2(k) >= n
    ensures k > 0 ==> Pow2(k - 1) < n
  {
    if n == 1 then 0 else 1 + CeilLog2((n + 1) / 2)
  }

  /** A string of `w` ones (the digits of a binary mask). */
  function Ones(w: nat): (r: string)
    ensures |r| == w && forall i :: 0 <= i < w ==> r[i] == '1'
  {
    seq(w, _ => '1')
  }

  /** std::replace of one character by another. */
  function ReplaceChar(s: string, from: char, to: char): (r: string)
    ensures |r| == |s|
    ensures forall i :: 0 <= i < |s| ==> r[i] == (if s[i] == from then to else s[i])
  {
    seq(|s|, i requires 0 <= i < |s| => if s[i] == from then to else s[i])
  }
}
