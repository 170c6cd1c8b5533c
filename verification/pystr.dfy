/** The pieces of Python's `str` that the modelled code relies on:
    `find`, `split(sep)`, `strip()`, `replace`, `splitlines()` (restricted to
    `'\n'`), and decimal `str(int)` / `int(str)`. Strings are sequences of
    characters; no encoding is involved. */
module PyStr {

  /** Python's `str.isspace()` for a single character. */
  predicate IsSpace(c: char) {
    || c == ' ' || c == '\t' || c == '\n' || c == '\r' || c == '\U{0B}' || c == '\U{0C}'
    || ('\U{1C}' <= c <= '\U{1F}')
    || c == '\U{85}' || c == '\U{A0}' || c == '\U{1680}'
    || ('\U{2000}' <= c <= '\U{200A}')
    || c == '\U{2028}' || c == '\U{2029}' || c == '\U{202F}' || c == '\U{205F}' || c == '\U{3000}'
  }

  /** The characters other than `'\n'` that `str.splitlines()` also breaks
      on. */
  predicate IsOtherLineBreak(c: char) {
    || c == '\r' || c == '\U{0B}' || c == '\U{0C}' || c == '\U{1C}' || c == '\U{1D}' || c == '\U{1E}'
    || c == '\U{85}' || c == '\U{2028}' || c == '\U{2029}'
  }

  predicate NoOtherLineBreaks(s: string) {
    forall i :: 0 <= i < |s| ==> !IsOtherLineBreak(s[i])
  }

  /** `s.find(c)`: the first index of `c`, or -1. */
  function Find(s: string, c: char): (r: int)
    ensures -1 <= r < |s|
    ensures r >= 0 ==> s[r] == c && c !in s[..r]
    ensures r < 0 <==> c !in s
  {
    if |s| == 0 then -1
    else if s[0] == c then 0
    else
      var r := Find(s[1..], c);
      assert s[1..][..if r >= 0 then r else 0] == s[1..if r >= 0 then r + 1 else 1];
      assert s == [s[0]] + s[1..];
      if r < 0 then -1 else r + 1
  }

  function CountChar(s: string, c: char): nat {
    if s == [] then 0 else (if s[0] == c then 1 else 0) + CountChar(s[1..], c)
  }

  /** `s.split(c)`: the pieces between occurrences of `c`; always at least
      one. */
  function Split(s: string, c: char): (r: seq<string>)
    ensures |r| >= 1
    ensures forall i :: 0 <= i < |r| ==> c !in r[i]
    decreases |s|
  {
    var i := Find(s, c);
    if i < 0 then [s]
    else
      var rest := Split(s[i + 1..], c);
      var r := [s[..i]] + rest;
      forall k | 0 <= k < |r|
        ensures c !in r[k]
      {
        if k > 0 {
          assert r[k] == rest[k - 1];
        }
      }
      r
  }

  /** `c.join(parts)`. */
  function Join(parts: seq<string>, c: char): string {
    if |parts| == 0 then []
    else if |parts| == 1 then parts[0]
    else parts[0] + [c] + Join(parts[1..], c)
  }

  lemma FindPrefix(a: string, c: char, b: string)
    requires c !in a
    ensures Find(a + [c] + b, c) == |a|
  {
    var s := a + [c] + b;
    assert s[|a|] == c;
    assert s[..|a|] == a;
  }

  /** Joining one more piece adds the separator and the piece. */
  lemma JoinAppend(ps: seq<string>, v: string, c: char)
    requires |ps| >= 1
    ensures Join(ps + [v], c) == Join(ps, c) + [c] + v
    decreases |ps|
  {
    var q := ps + [v];
    assert q[0] == ps[0] && |q| >= 2;
    if |ps| == 1 {
      assert q[1..] == [v];
      assert Join(q, c) == ps[0] + [c] + Join([v], c);
    } else {
      assert q[1..] == ps[1..] + [v];
      JoinAppend(ps[1..], v, c);
      assert Join(q, c) == ps[0] + [c] + Join(q[1..], c);
      assert Join(ps, c) == ps[0] + [c] + Join(ps[1..], c);
    }
  }

  /** Joining pieces after a first one. */
  lemma JoinCons(p: string, rest: seq<string>, c: char)
    requires |rest| >= 1
    ensures Join([p] + rest, c) == p + [c] + Join(rest, c)
  {
    var q := [p] + rest;
    assert q[0] == p && q[1..] == rest;
  }

  /** Splitting at the first separator. */
  lemma SplitFirst(s: string, c: char, i: nat)
    requires i < |s| && s[i] == c && c !in s[..i]
    ensures Split(s, c) == [s[..i]] + Split(s[i + 1..], c)
  {
    assert s[..i] + [c] + s[i + 1..] == s;
    assert Find(s, c) == i by { FindPrefix(s[..i], c, s[i + 1..]); }
  }

  /** Joining the pieces of a split gives the string back. */
  lemma {:induction false} JoinSplit(s: string, c: char)
    ensures Join(Split(s, c), c) == s
    decreases |s|
  {
    var i := Find(s, c);
    if i >= 0 {
      var rest := Split(s[i + 1..], c);
      calc {
        Join(Split(s, c), c);
      == { SplitFirst(s, c, i); }
        Join([s[..i]] + rest, c);
      == { JoinCons(s[..i], rest, c); }
        s[..i] + [c] + Join(rest, c);
      == { JoinSplit(s[i + 1..], c); }
        s[..i] + [c] + s[i + 1..];
      == { assert s[..i] + [c] + s[i + 1..] == s; }
        s;
      }
    }
  }

  /** Splitting a join of pieces free of the separator gives the pieces
      back. */
  lemma {:induction false} SplitJoin(parts: seq<string>, c: char)
    requires |parts| >= 1
    requires forall i :: 0 <= i < |parts| ==> c !in parts[i]
    ensures Split(Join(parts, c), c) == parts
    decreases |parts|
  {
    if |parts| > 1 {
      var rest := Join(parts[1..], c);
      var s := parts[0] + [c] + rest;
      JoinCons(parts[0], parts[1..], c);
      assert parts == [parts[0]] + parts[1..];
      assert s[..|parts[0]|] == parts[0] && s[|parts[0]|] == c;
      assert s[|parts[0]| + 1..] == rest;
      SplitFirst(s, c, |parts[0]|);
      SplitJoin(parts[1..], c);
    } else {
      assert Find(parts[0], c) < 0;
    }
  }

  /** The number of pieces is one more than the number of separators. */
  lemma {:induction false} SplitCount(s: string, c: char)
    ensures |Split(s, c)| == CountChar(s, c) + 1
    decreases |s|
  {
    var i := Find(s, c);
    if i < 0 {
      NoCountWhenAbsent(s, c);
    } else {
      SplitCount(s[i + 1..], c);
      SplitFirst(s, c, i);
      CountFirst(s, c, i);
    }
  }

  lemma CountFirst(s: string, c: char, i: nat)
    requires i < |s| && s[i] == c && c !in s[..i]
    ensures CountChar(s, c) == CountChar(s[i + 1..], c) + 1
  {
    CountConcat(s[..i], s[i..], c);
    assert s[..i] + s[i..] == s;
    NoCountWhenAbsent(s[..i], c);
    CountConcat([c], s[i + 1..], c);
    assert s[i..] == [c] + s[i + 1..];
  }

  lemma {:induction false} NoCountWhenAbsent(s: string, c: char)
    requires c !in s
    ensures CountChar(s, c) == 0
  {
    if s != [] {
      assert c !in s[1..];
      NoCountWhenAbsent(s[1..], c);
    }
  }

  lemma {:induction false} CountConcat(a: string, b: string, c: char)
    ensures CountChar(a + b, c) == CountChar(a, c) + CountChar(b, c)
  {
    if a != [] {
      assert (a + b)[1..] == a[1..] + b;
      CountConcat(a[1..], b, c);
    } else {
      assert a + b == b;
    }
  }

  function TrimStart(s: string): (r: string)
    ensures r == [] || !IsSpace(r[0])
    ensures |r| <= |s| && r == s[|s| - |r|..]
  {
    if s != [] && IsSpace(s[0]) then TrimStart(s[1..]) else s
  }

  function TrimEnd(s: string): (r: string)
    ensures r == [] || !IsSpace(r[|r| - 1])
    ensures r <= s
  {
    if s != [] && IsSpace(s[|s| - 1]) then TrimEnd(s[..|s| - 1]) else s
  }

  /** `s.strip()`: a slice of `s` that neither starts nor ends with
      whitespace. */
  function Strip(s: string): (r: string)
    ensures r == [] || (!IsSpace(r[0]) && !IsSpace(r[|r| - 1]))
    ensures |r| <= |s|
  {
    TrimEnd(TrimStart(s))
  }

  /** Neither end of `s` is whitespace. */
  predicate Unpadded(s: string) {
    s == [] || (!IsSpace(s[0]) && !IsSpace(s[|s| - 1]))
  }

  /** A string with no surrounding whitespace is its own strip. */
  lemma StripIdentity(s: string)
    requires Unpadded(s)
    ensures Strip(s) == s
  {
  }

  /** `s.strip()` is empty exactly when `s` is all whitespace. */
  lemma {:induction false} StripEmpty(s: string)
    ensures Strip(s) == [] <==> forall i :: 0 <= i < |s| ==> IsSpace(s[i])
  {
    TrimStartAllSpace(s);
    var t := TrimStart(s);
    if t != [] {
      assert !IsSpace(t[0]);
      TrimEndKeepsNonSpace(t);
    }
  }

  lemma {:induction false} TrimStartAllSpace(s: string)
    ensures TrimStart(s) == [] <==> forall i :: 0 <= i < |s| ==> IsSpace(s[i])
  {
    if s != [] && IsSpace(s[0]) {
      TrimStartAllSpace(s[1..]);
      assert forall i :: 1 <= i < |s| ==> s[i] == s[1..][i - 1];
    }
  }

  lemma {:induction false} TrimEndKeepsNonSpace(t: string)
    requires t != [] && !IsSpace(t[0])
    ensures TrimEnd(t) != []
  {
    if IsSpace(t[|t| - 1]) {
      TrimEndKeepsNonSpace(t[..|t| - 1]);
    }
  }

  /** `s.replace(pat, rep)`: leftmost, non-overlapping occurrences. */
  function Replace(s: string, pat: string, rep: string): string
    requires |pat| > 0
    decreases |s|
  {
    if |s| < |pat| then s
    else if s[..|pat|] == pat then rep + Replace(s[|pat|..], pat, rep)
    else [s[0]] + Replace(s[1..], pat, rep)
  }

  /** Replacing a string by itself changes nothing. */
  lemma {:induction false} ReplaceSelf(s: string, pat: string)
    requires |pat| > 0
    ensures Replace(s, pat, pat) == s
    decreases |s|
  {
    if |s| >= |pat| {
      if s[..|pat|] == pat {
        ReplaceSelf(s[|pat|..], pat);
        assert s == s[..|pat|] + s[|pat|..];
      } else {
        ReplaceSelf(s[1..], pat);
        assert s == [s[0]] + s[1..];
      }
    }
  }

  /** `t.splitlines()` for text whose only line break is `'\n'`: a final
      newline does not start another line. */
  function SplitLines(t: string): (r: seq<string>)
    ensures forall i :: 0 <= i < |r| ==> '\n' !in r[i]
    decreases |t|
  {
    if t == [] then []
    else
      var i := Find(t, '\n');
      if i < 0 then [t] else [t[..i]] + SplitLines(t[i + 1..])
  }

  /** Each line followed by `"\n"`, as the modelled code builds its output. */
  function JoinLines(ls: seq<string>): (r: string)
    ensures ls != [] ==> r != [] && r[|r| - 1] == '\n'
  {
    if ls == [] then [] else ls[0] + "\n" + JoinLines(ls[1..])
  }

  predicate NoNewlines(ls: seq<string>) {
    forall i :: 0 <= i < |ls| ==> '\n' !in ls[i]
  }

  /** A first line free of newlines is split off as the first element. */
  lemma SplitLinesCons(l: string, rest: string)
    requires '\n' !in l
    ensures SplitLines(l + "\n" + rest) == [l] + SplitLines(rest)
  {
    var t := l + "\n" + rest;
    assert t == l + ['\n'] + rest;
    FindPrefix(l, '\n', rest);
    assert t[..|l|] == l;
    assert t[|l| + 1..] == rest;
  }

  lemma JoinLinesCons(l: string, ls: seq<string>)
    ensures JoinLines([l] + ls) == l + "\n" + JoinLines(ls)
  {
    assert ([l] + ls)[0] == l && ([l] + ls)[1..] == ls;
  }

  /** Splitting joined lines gives the lines back. */
  lemma {:induction false} SplitJoinLines(ls: seq<string>)
    requires NoNewlines(ls)
    ensures SplitLines(JoinLines(ls)) == ls
  {
    if ls != [] {
      SplitLinesCons(ls[0], JoinLines(ls[1..]));
      SplitJoinLines(ls[1..]);
      assert ls == [ls[0]] + ls[1..];
    }
  }

  /** Text that is empty or ends in a newline is its lines, each followed by
      a newline. */
  lemma {:induction false} JoinSplitLines(t: string)
    requires t == [] || t[|t| - 1] == '\n'
    ensures JoinLines(SplitLines(t)) == t
    decreases |t|
  {
    if t != [] {
      var i := Find(t, '\n');
      assert i >= 0 by { assert t[|t| - 1] in t; }
      var line, rest := t[..i], t[i + 1..];
      assert t == line + "\n" + rest by { assert t[i] == '\n'; }
      assert rest == [] || rest[|rest| - 1] == '\n' by {
        if rest != [] { assert rest[|rest| - 1] == t[|t| - 1]; }
      }
      var ls := SplitLines(rest);
      JoinSplitLines(rest);
      calc {
        JoinLines(SplitLines(t));
        == { SplitLinesCons(line, rest); }
        JoinLines([line] + ls);
        == { JoinLinesCons(line, ls); }
        line + "\n" + JoinLines(ls);
      }
    }
  }

  /** Lines split from text free of other line breaks are free of them too. */
  lemma {:induction false} SplitLinesClean(t: string)
    requires NoOtherLineBreaks(t)
    ensures forall i :: 0 <= i < |SplitLines(t)| ==> NoOtherLineBreaks(SplitLines(t)[i])
    decreases |t|
  {
    if t != [] {
      var i := Find(t, '\n');
      if i >= 0 {
        var rest := t[i + 1..];
        forall j | 0 <= j < |rest|
          ensures !IsOtherLineBreak(rest[j])
        {
          assert rest[j] == t[i + 1 + j];
        }
        SplitLinesClean(t[i + 1..]);
        assert NoOtherLineBreaks(t[..i]) by {
          assert forall j :: 0 <= j < i ==> t[..i][j] == t[j];
        }
      }
    }
  }

  /** Joining lines free of other line breaks adds only `'\n'`. */
  lemma {:induction false} JoinLinesClean(ls: seq<string>)
    requires forall i :: 0 <= i < |ls| ==> NoOtherLineBreaks(ls[i])
    ensures NoOtherLineBreaks(JoinLines(ls))
  {
    if ls != [] {
      JoinLinesClean(ls[1..]);
      var a, b := ls[0] + "\n", JoinLines(ls[1..]);
      assert NoOtherLineBreaks(ls[0]);
      forall j | 0 <= j < |a + b|
        ensures !IsOtherLineBreak((a + b)[j])
      {
        if j < |ls[0]| {
          assert (a + b)[j] == ls[0][j];
        } else if j >= |a| {
          assert (a + b)[j] == b[j - |a|];
        }
      }
    }
  }

  predicate IsDigit(c: char) {
    '0' <= c <= '9'
  }

  function DigitChar(d: nat): (c: char)
    requires d < 10
    ensures IsDigit(c)
  {
    ['0', '1', '2', '3', '4', '5', '6', '7', '8', '9'][d]
  }

  /** `str(n)` for a non-negative integer. */
  function NatToString(n: nat): (r: string)
    ensures |r| >= 1 && forall i :: 0 <= i < |r| ==> IsDigit(r[i])
  {
    if n < 10 then [DigitChar(n)] else NatToString(n / 10) + [DigitChar(n % 10)]
  }

  /** `str(i)` for any integer. */
  function IntToString(i: int): string {
    if i < 0 then "-" + NatToString(-i) else NatToString(i)
  }

  /** `int(s)` for a string of decimal digits. */
  function ParseNat(s: string): nat
    requires forall i :: 0 <= i < |s| ==> IsDigit(s[i])
  {
    if s == [] then 0
    else
      assert IsDigit(s[|s| - 1]);
      ParseNat(s[..|s| - 1]) * 10 + (s[|s| - 1] as int - '0' as int)
  }

  /** Reading back what `str` wrote gives the number. */
  lemma {:induction false} ParseNatToString(n: nat)
    ensures ParseNat(NatToString(n)) == n
  {
    if n >= 10 {
      ParseNatToString(n / 10);
      var s := NatToString(n);
      assert s[..|s| - 1] == NatToString(n / 10);
    }
  }
}
