/** `_rewrite_location`: turns a device's location paths (strings such as
    `PCIROOT(0)#PCI(1400)#USBROOT(0)#USB(3)#USB(1)`) into the list of port
    numbers below its USB root hub. The regular expression `(\w+)\((\d+)\)`
    is modelled as the scanner `FindAll`, with `\w` and `\d` read as ASCII. */
module Location {
  import opened Options
  import opened PyStr

  predicate IsWordChar(c: char) {
    ('a' <= c <= 'z') || ('A' <= c <= 'Z') || IsDigit(c) || c == '_'
  }

  predicate AllWord(s: string) {
    forall k :: 0 <= k < |s| ==> IsWordChar(s[k])
  }

  predicate AllDigits(s: string) {
    forall k :: 0 <= k < |s| ==> IsDigit(s[k])
  }

  /** Length of the longest prefix of word characters. */
  function WordLen(s: string): (n: nat)
    ensures n <= |s| && AllWord(s[..n])
    ensures n < |s| ==> !IsWordChar(s[n])
  {
    if s == [] || !IsWordChar(s[0]) then 0
    else
      var n := 1 + WordLen(s[1..]);
      assert s[..n] == [s[0]] + s[1..][..n - 1];
      n
  }

  /** Length of the longest prefix of decimal digits. */
  function DigitLen(s: string): (n: nat)
    ensures n <= |s| && AllDigits(s[..n])
    ensures n < |s| ==> !IsDigit(s[n])
  {
    if s == [] || !IsDigit(s[0]) then 0
    else
      var n := 1 + DigitLen(s[1..]);
      assert s[..n] == [s[0]] + s[1..][..n - 1];
      n
  }

  /** One `name(number)` group of the pattern. */
  datatype Token = Token(name: string, number: nat)

  /** The pattern tried at the start of `s`: the token and the length of the
      match. Both runs are taken in full; a shorter run would leave a word
      character where `(` or `)` must stand, so backtracking finds nothing
      more. */
  function MatchAt(s: string): (r: Option<(Token, nat)>)
    ensures r.Some? ==> 4 <= r.value.1 <= |s|
  {
    var w := WordLen(s);
    if w == 0 || w >= |s| || s[w] != '(' then None
    else
      var d := DigitLen(s[w + 1..]);
      if d == 0 || w + 1 + d >= |s| || s[w + 1 + d] != ')' then None
      else
        assert s[w + 1..w + 1 + d] == s[w + 1..][..d];
        Some((Token(s[..w], ParseNat(s[w + 1..w + 1 + d])), w + d + 2))
  }

  /** `re.findall`: matches left to right, the search resuming after each
      match and one character further after each failed attempt. */
  function FindAll(s: string): seq<Token>
    decreases |s|
  {
    if s == [] then []
    else
      match MatchAt(s)
      case Some((tok, e)) => [tok] + FindAll(s[e..])
      case None => FindAll(s[1..])
  }

  const Root: string := "USBROOT"

  /** The loop over one path's tokens: a `USBROOT` token restarts the list
      with its number; any other token extends a started list. */
  function Walk(parts: seq<Token>, acc: Option<seq<nat>>): Option<seq<nat>> {
    if parts == [] then acc
    else if parts[0].name == Root then Walk(parts[1..], Some([parts[0].number]))
    else if acc.Some? then Walk(parts[1..], Some(acc.value + [parts[0].number]))
    else Walk(parts[1..], None)
  }

  predicate HasRoot(parts: seq<Token>) {
    exists i :: 0 <= i < |parts| && parts[i].name == Root
  }

  /** Position of the last `USBROOT` token, or -1. */
  function LastRoot(parts: seq<Token>): (r: int)
    ensures -1 <= r < |parts|
    ensures r >= 0 ==> parts[r].name == Root && forall k :: r < k < |parts| ==> parts[k].name != Root
    ensures r < 0 <==> !HasRoot(parts)
  {
    if parts == [] then -1
    else
      var r := LastRoot(parts[1..]);
      if r >= 0 then r + 1
      else if parts[0].name == Root then 0
      else
        assert forall k :: 0 <= k < |parts| ==> parts[k].name != Root by {
          forall k | 0 <= k < |parts|
            ensures parts[k].name != Root
          {
            if k > 0 {
              assert parts[k] == parts[1..][k - 1];
            }
          }
        }
        -1
  }

  function Numbers(parts: seq<Token>): (r: seq<nat>)
    ensures |r| == |parts| && forall k :: 0 <= k < |parts| ==> r[k] == parts[k].number
  {
    if parts == [] then [] else [parts[0].number] + Numbers(parts[1..])
  }

  /** The numbers from the last `USBROOT` token on. */
  function FromLastRoot(parts: seq<Token>): (r: seq<nat>)
    requires HasRoot(parts)
    ensures r != [] && r[0] == parts[LastRoot(parts)].number
  {
    Numbers(parts[LastRoot(parts)..])
  }

  /** The loop's result in closed form. */
  lemma {:induction false} WalkClosedForm(parts: seq<Token>, acc: Option<seq<nat>>)
    ensures Walk(parts, acc)
         == if HasRoot(parts) then Some(FromLastRoot(parts))
            else if acc.Some? then Some(acc.value + Numbers(parts))
            else None
  {
    if parts == [] {
      assert !HasRoot(parts);
      if acc.Some? {
        assert acc.value + Numbers(parts) == acc.value;
      }
    } else {
      var rest := parts[1..];
      var next :=
        if parts[0].name == Root then Some([parts[0].number])
        else if acc.Some? then Some(acc.value + [parts[0].number])
        else None;
      assert Walk(parts, acc) == Walk(rest, next);
      WalkClosedForm(rest, next);
      HasRootCons(parts);
      if HasRoot(rest) {
        FromLastRootTail(parts);
      } else if parts[0].name == Root {
        FromLastRootHead(parts);
      } else if acc.Some? {
        AppendNumbers(acc.value, parts);
      }
    }
  }

  lemma HasRootCons(parts: seq<Token>)
    requires parts != []
    ensures HasRoot(parts) <==> parts[0].name == Root || HasRoot(parts[1..])
  {
    if HasRoot(parts[1..]) {
      var i :| 0 <= i < |parts[1..]| && parts[1..][i].name == Root;
      assert parts[i + 1] == parts[1..][i];
    }
    if HasRoot(parts) && parts[0].name != Root {
      var i :| 0 <= i < |parts| && parts[i].name == Root;
      assert parts[1..][i - 1] == parts[i];
    }
  }

  /** A `USBROOT` token after the first keeps the first out of the result. */
  lemma FromLastRootTail(parts: seq<Token>)
    requires parts != [] && HasRoot(parts[1..])
    ensures HasRoot(parts) && FromLastRoot(parts) == FromLastRoot(parts[1..])
  {
    HasRootCons(parts);
    var rest := parts[1..];
    assert LastRoot(parts) == LastRoot(rest) + 1;
    assert parts[LastRoot(parts)..] == rest[LastRoot(rest)..];
  }

  /** The first token as the only `USBROOT` token starts the result. */
  lemma FromLastRootHead(parts: seq<Token>)
    requires parts != [] && parts[0].name == Root && !HasRoot(parts[1..])
    ensures HasRoot(parts) && FromLastRoot(parts) == [parts[0].number] + Numbers(parts[1..])
  {
    HasRootCons(parts);
    assert LastRoot(parts) == 0;
    assert parts[0..] == parts;
  }

  lemma AppendNumbers(acc: seq<nat>, parts: seq<Token>)
    requires parts != []
    ensures acc + [parts[0].number] + Numbers(parts[1..]) == acc + Numbers(parts)
  {
    assert Numbers(parts) == [parts[0].number] + Numbers(parts[1..]);
  }

  /** `_rewrite_location(location)`: the first path holding a `USBROOT`
      token decides; without one the result is empty. */
  function RewriteLocation(location: seq<string>): (r: seq<nat>)
    ensures r == [] <==> forall i :: 0 <= i < |location| ==> !HasRoot(FindAll(location[i]))
  {
    if location == [] then []
    else
      var parts := FindAll(location[0]);
      if HasRoot(parts) then
        WalkClosedForm(parts, None);
        Walk(parts, None).value
      else
        var r := RewriteLocation(location[1..]);
        assert forall i :: 1 <= i < |location| ==> location[i] == location[1..][i - 1];
        r
  }

  /** The path that decides is the first one holding a `USBROOT` token, and
      the result is its number followed by the numbers of all later tokens in
      that path. */
  lemma {:induction false} RewriteFirstRootPath(location: seq<string>, i: nat)
    requires i < |location| && HasRoot(FindAll(location[i]))
    requires forall k :: 0 <= k < i ==> !HasRoot(FindAll(location[k]))
    ensures RewriteLocation(location) == FromLastRoot(FindAll(location[i]))
  {
    if i == 0 {
      WalkClosedForm(FindAll(location[0]), None);
    } else {
      assert location[1..][i - 1] == location[i];
      forall k | 0 <= k < i - 1
        ensures !HasRoot(FindAll(location[1..][k]))
      {
        assert location[1..][k] == location[k + 1];
      }
      RewriteFirstRootPath(location[1..], i - 1);
    }
  }

  // ---------------------------------------------------------------------
  // Writing a location path back

  predicate GoodName(name: string) {
    name != [] && AllWord(name)
  }

  /** A token as Windows writes it: `name(number)`. */
  function TokenText(t: Token): string {
    t.name + "(" + NatToString(t.number) + ")"
  }

  /** Tokens joined with `#`, the form of a location path. */
  function Render(ts: seq<Token>): string {
    if ts == [] then []
    else if |ts| == 1 then TokenText(ts[0])
    else TokenText(ts[0]) + "#" + Render(ts[1..])
  }

  lemma WordLenPrefix(a: string, b: string)
    requires AllWord(a) && (b == [] || !IsWordChar(b[0]))
    ensures WordLen(a + b) == |a|
    decreases |a|
  {
    if a != [] {
      assert (a + b)[1..] == a[1..] + b;
      WordLenPrefix(a[1..], b);
    }
  }

  lemma DigitLenPrefix(a: string, b: string)
    requires AllDigits(a) && (b == [] || !IsDigit(b[0]))
    ensures DigitLen(a + b) == |a|
    decreases |a|
  {
    if a != [] {
      assert (a + b)[1..] == a[1..] + b;
      DigitLenPrefix(a[1..], b);
    }
  }

  /** `s` starts with `name(`, the name taken in full, and goes on with a
      run of `digits` closed by `)`. */
  predicate Runs(s: string, name: string, digits: string) {
    var w := |name|;
    && 0 < w < |s| && WordLen(s) == w && s[w] == '(' && s[..w] == name
    && DigitRun(s[w + 1..], digits)
  }

  /** `u` starts with `digits)`, the digits taken in full. */
  predicate DigitRun(u: string, digits: string) {
    && 0 < |digits| < |u| && AllDigits(digits)
    && DigitLen(u) == |digits| && u[|digits|] == ')' && u[..|digits|] == digits
  }

  /** `MatchAt` on a string that starts with `name(digits)`. */
  lemma MatchAtRuns(s: string, name: string, digits: string)
    requires Runs(s, name, digits)
    ensures MatchAt(s) == Some((Token(name, ParseNat(digits)), |name| + |digits| + 2))
  {
    var w, d := |name|, |digits|;
    assert s[w + 1 + d] == s[w + 1..][d];
    assert s[w + 1..w + 1 + d] == s[w + 1..][..d];
  }

  /** `name(digits)`, followed by anything, starts with its two runs. */
  lemma TokenRuns(name: string, digits: string, rest: string)
    requires GoodName(name) && digits != [] && AllDigits(digits)
    ensures Runs(name + "(" + digits + ")" + rest, name, digits)
  {
    var u := digits + (")" + rest);
    var s := name + ("(" + u);
    assert name + "(" + digits + ")" + rest == s;
    NameFirst(name, u);
    assert s[|name| + 1..] == u;
    DigitsFirst(digits, rest);
  }

  lemma NameFirst(name: string, rest: string)
    requires GoodName(name)
    ensures var s := name + ("(" + rest);
      && WordLen(s) == |name| && s[|name|] == '(' && s[..|name|] == name
  {
    WordLenPrefix(name, "(" + rest);
  }

  lemma DigitsFirst(digits: string, rest: string)
    requires digits != [] && AllDigits(digits)
    ensures DigitRun(digits + (")" + rest), digits)
  {
    DigitLenPrefix(digits, ")" + rest);
  }

  /** The pattern matches a written token exactly, whatever follows it. */
  lemma MatchToken(t: Token, rest: string)
    requires GoodName(t.name)
    ensures MatchAt(TokenText(t) + rest) == Some((t, |TokenText(t)|))
  {
    TokenRuns(t.name, NatToString(t.number), rest);
    MatchAtRuns(TokenText(t) + rest, t.name, NatToString(t.number));
    ParseNatToString(t.number);
  }

  /** Reading a written path gives back its tokens. */
  lemma {:induction false} FindAllRender(ts: seq<Token>)
    requires forall k :: 0 <= k < |ts| ==> GoodName(ts[k].name)
    ensures FindAll(Render(ts)) == ts
  {
    if ts != [] {
      var text := TokenText(ts[0]);
      var rest := if |ts| == 1 then [] else "#" + Render(ts[1..]);
      assert Render(ts) == text + rest;
      MatchToken(ts[0], rest);
      FindAllAfterMatch(text + rest, ts[0], |text|);
      assert (text + rest)[|text|..] == rest;
      if |ts| > 1 {
        FindAllSkipsHash(Render(ts[1..]));
        FindAllRender(ts[1..]);
        assert ts == [ts[0]] + ts[1..];
      }
    }
  }

  /** After a match the search resumes behind it. */
  lemma FindAllAfterMatch(s: string, tok: Token, e: nat)
    requires MatchAt(s) == Some((tok, e))
    ensures e <= |s| && FindAll(s) == [tok] + FindAll(s[e..])
  {
  }

  /** The `#` between two tokens matches nothing. */
  lemma FindAllSkipsHash(s: string)
    ensures FindAll("#" + s) == FindAll(s)
  {
    var t := "#" + s;
    assert t[0] == '#' && t[1..] == s;
    assert WordLen(t) == 0;
  }

  /** For a path written from tokens, the result is the number of the last
      `USBROOT` token followed by the numbers after it. */
  lemma RewriteRendered(ts: seq<Token>)
    requires forall k :: 0 <= k < |ts| ==> GoodName(ts[k].name)
    ensures RewriteLocation([Render(ts)]) == (if HasRoot(ts) then Numbers(ts[LastRoot(ts)..]) else [])
  {
    FindAllRender(ts);
    if HasRoot(ts) {
      RewriteFirstRootPath([Render(ts)], 0);
    }
  }
}
