/** `_add_setting`: sets `key=value` in a line-oriented boot configuration
    file (`config.txt`), keeping comments and the order of unrelated lines,
    dropping lines that give the key another value, and re-enabling a
    commented-out `#key=value` instead of adding a second copy. */
module BootConfig {
  import opened Options
  import opened PyStr

  /** The active line the upsert guarantees: `f"{key}={value}"`. */
  function Setting(key: string, value: string): string {
    key + "=" + value
  }

  /** The part of a line before its first `#`. */
  function CodePart(line: string): (r: string)
    ensures r <= line && '#' !in r
    ensures |r| < |line| ==> line[|r|] == '#'
  {
    var pos := Find(line, '#');
    if pos >= 0 then line[..pos] else line
  }

  /** How the upsert reads the part of a line before `#`: split on `=`; two
      pieces are key and value, three pieces are a key containing one `=` and
      a value; anything else is not a setting. Both halves are stripped. */
  function ParseSetting(code: string): Option<(string, string)> {
    ParsePieces(Split(code, '='))
  }

  function ParsePieces(parts: seq<string>): Option<(string, string)> {
    if |parts| == 2 then Some((Strip(parts[0]), Strip(parts[1])))
    else if |parts| == 3 then Some((Strip(Join(parts[..2], '=')), Strip(parts[2])))
    else None
  }

  /** What the scan does with one line. */
  datatype LineAction =
    | Uncomment          // `#key=value` behind blank text: emitted as `key=value`
    | Keep(sets: bool)   // emitted verbatim; `sets` when it already sets key to value
    | Drop               // sets key to some other value: left out

  function Classify(key: string, value: string, line: string): LineAction {
    if IsCommentedCopy(key, value, line) then Uncomment
    else ByParse(key, value, ParseSetting(CodePart(line)))
  }

  /** `#key=value`, possibly padded, with nothing but blanks before `#`. */
  predicate IsCommentedCopy(key: string, value: string, line: string) {
    var pos := Find(line, '#');
    pos >= 0 && Strip(line[..pos]) == [] && Strip(line[pos + 1..]) == Setting(key, value)
  }

  /** The action for a line whose code part parses as `parsed`. */
  function ByParse(key: string, value: string, parsed: Option<(string, string)>): LineAction {
    match parsed
    case Some((k, v)) =>
      if k != key then Keep(false)
      else if v == value then Keep(true)
      else Drop
    case None => Keep(false)
  }

  /** The loop over the lines: the lines it emits and whether it saw the
      setting. */
  function Scan(key: string, value: string, lines: seq<string>): (r: (seq<string>, bool))
    ensures r.1 ==> r.0 != []
  {
    if lines == [] then ([], false)
    else
      var rest := Scan(key, value, lines[1..]);
      match Classify(key, value, lines[0])
      case Uncomment => ([Setting(key, value)] + rest.0, true)
      case Keep(sets) => ([lines[0]] + rest.0, sets || rest.1)
      case Drop => rest
  }

  /** The output lines: the scanned lines, then the setting if the scan did
      not see it. */
  function UpsertLines(key: string, value: string, lines: seq<string>): (r: seq<string>)
    ensures r != []
  {
    var scan := Scan(key, value, lines);
    if scan.1 then scan.0 else scan.0 + [Setting(key, value)]
  }

  /** `_add_setting(key, value, config_txt)`. `splitlines()` is modelled as a
      split on `'\n'`, so the text may not contain the other line breaks
      Python recognises. */
  function AddSetting(key: string, value: string, text: string): (r: string)
    requires NoOtherLineBreaks(text)
    ensures r != [] && r[|r| - 1] == '\n'
  {
    JoinLines(UpsertLines(key, value, SplitLines(text)))
  }

  // ---------------------------------------------------------------------
  // Properties

  /** No comment mark and no line break in `s`. */
  predicate PlainText(s: string) {
    '#' !in s && '\n' !in s && NoOtherLineBreaks(s)
  }

  /** The conditions under which the upsert is idempotent: the calls in
      `add_dynamic_files` meet them. */
  predicate WellFormed(key: string, value: string) {
    && PlainText(key) && PlainText(value)
    && Unpadded(key) && Unpadded(value)
    && '=' !in value
    && CountChar(key, '=') <= 1
  }

  /** A line that needs no change: kept verbatim by the scan. */
  predicate Settled(key: string, value: string, lines: seq<string>) {
    forall i :: 0 <= i < |lines| ==> Classify(key, value, lines[i]).Keep?
  }

  /** Some line sets the key to the value. */
  predicate HasSetting(key: string, value: string, lines: seq<string>) {
    exists i :: 0 <= i < |lines| && Classify(key, value, lines[i]) == Keep(true)
  }

  /** Some line either sets the key to the value or is a commented copy of
      the setting. */
  predicate Matched(key: string, value: string, lines: seq<string>) {
    exists i :: 0 <= i < |lines| && Classify(key, value, lines[i]) in {Uncomment, Keep(true)}
  }

  /** The lines the upsert has nothing to do with, in order. */
  function Unrelated(key: string, value: string, lines: seq<string>): seq<string> {
    if lines == [] then []
    else
      (if Classify(key, value, lines[0]) == Keep(false) then [lines[0]] else [])
      + Unrelated(key, value, lines[1..])
  }

  function DropCount(key: string, value: string, lines: seq<string>): nat {
    if lines == [] then 0
    else (if Classify(key, value, lines[0]) == Drop then 1 else 0) + DropCount(key, value, lines[1..])
  }

  /** Splitting `key=value` on `=` splits the key and adds the value. */
  lemma SplitSetting(key: string, value: string)
    requires '=' !in value
    ensures Split(Setting(key, value), '=') == Split(key, '=') + [value]
  {
    var parts := Split(key, '=') + [value];
    JoinSplit(key, '=');
    JoinAppend(Split(key, '='), value, '=');
    assert Join(parts, '=') == Setting(key, value);
    assert forall i :: 0 <= i < |parts| ==> '=' !in parts[i] by {
      forall i | 0 <= i < |parts|
        ensures '=' !in parts[i]
      {
        if i < |parts| - 1 {
          assert parts[i] == Split(key, '=')[i];
        }
      }
    }
    SplitJoin(parts, '=');
  }

  /** Every character of `key=value` comes from the key, the `=` or the
      value. */
  lemma SettingChars(key: string, value: string, i: nat)
    requires i < |Setting(key, value)|
    ensures var c := Setting(key, value)[i];
      (i < |key| && c == key[i]) || (i == |key| && c == '=') || (i > |key| && c == value[i - |key| - 1])
  {
  }

  lemma ParseOwnSetting(key: string, value: string)
    requires WellFormed(key, value)
    ensures ParseSetting(Setting(key, value)) == Some((key, value))
  {
    var ks := Split(key, '=');
    SplitSetting(key, value);
    SplitCount(key, '=');
    JoinSplit(key, '=');
    StripIdentity(key);
    StripIdentity(value);
    ParseKeyPieces(key, value, ks);
  }

  lemma ParseKeyPieces(key: string, value: string, ks: seq<string>)
    requires 1 <= |ks| <= 2 && Join(ks, '=') == key
    ensures ParsePieces(ks + [value]) == Some((Strip(key), Strip(value)))
  {
    if |ks| == 2 {
      ParseKeyTwo(key, value, ks);
    } else {
      ParseKeyOne(key, value, ks);
    }
  }

  lemma ParseKeyOne(key: string, value: string, ks: seq<string>)
    requires |ks| == 1 && Join(ks, '=') == key
    ensures ParsePieces(ks + [value]) == Some((Strip(key), Strip(value)))
  {
    assert ks + [value] == [key, value];
    ParseTwo(key, value);
  }

  lemma ParseKeyTwo(key: string, value: string, ks: seq<string>)
    requires |ks| == 2 && Join(ks, '=') == key
    ensures ParsePieces(ks + [value]) == Some((Strip(key), Strip(value)))
  {
    assert ks == [ks[0], ks[1]];
    assert ks + [value] == [ks[0], ks[1], value];
    ParseThree(ks[0], ks[1], value);
  }

  lemma ParseTwo(a: string, b: string)
    ensures ParsePieces([a, b]) == Some((Strip(a), Strip(b)))
  {
  }

  lemma ParseThree(a: string, b: string, c: string)
    ensures ParsePieces([a, b, c]) == Some((Strip(Join([a, b], '=')), Strip(c)))
  {
    assert [a, b, c][..2] == [a, b];
  }

  /** Under the conditions, the setting line itself sets the key to the
      value. */
  lemma SettingSets(key: string, value: string)
    requires WellFormed(key, value)
    ensures '#' !in Setting(key, value) && '\n' !in Setting(key, value)
    ensures NoOtherLineBreaks(Setting(key, value))
    ensures Classify(key, value, Setting(key, value)) == Keep(true)
  {
    var line := Setting(key, value);
    forall i | 0 <= i < |line|
      ensures line[i] != '#' && line[i] != '\n' && !IsOtherLineBreak(line[i])
    {
      SettingChars(key, value, i);
    }
    ParseOwnSetting(key, value);
    assert CodePart(line) == line;
  }

  /** A line that is blank before its `#` is not a setting. */
  lemma BlankCodeIsNoSetting(code: string)
    requires Strip(code) == []
    ensures ParseSetting(code) == None
  {
    StripEmpty(code);
    assert '=' !in code by {
      forall i | 0 <= i < |code|
        ensures code[i] != '='
      {
        assert IsSpace(code[i]);
      }
    }
  }

  /** The scan keeps settled lines verbatim. */
  lemma {:induction false} ScanSettled(key: string, value: string, lines: seq<string>)
    requires Settled(key, value, lines)
    ensures Scan(key, value, lines) == (lines, HasSetting(key, value, lines))
  {
    if lines != [] {
      assert lines == [lines[0]] + lines[1..];
      forall i | 0 <= i < |lines[1..]|
        ensures Classify(key, value, lines[1..][i]).Keep?
      {
        assert lines[1..][i] == lines[i + 1];
      }
      ScanSettled(key, value, lines[1..]);
      ConsSettled(key, value, lines[0], lines[1..]);
    }
  }

  /** Everything the scan emits is settled, and it reports `found` exactly
      when it emitted a line that sets the key. */
  lemma {:induction false} ScanOutputSettled(key: string, value: string, lines: seq<string>)
    requires WellFormed(key, value)
    ensures Settled(key, value, Scan(key, value, lines).0)
    ensures Scan(key, value, lines).1 <==> HasSetting(key, value, Scan(key, value, lines).0)
  {
    if lines != [] {
      ScanOutputSettled(key, value, lines[1..]);
      SettingSets(key, value);
      var rest := Scan(key, value, lines[1..]).0;
      var out := Scan(key, value, lines).0;
      match Classify(key, value, lines[0])
      case Uncomment =>
        assert out == [Setting(key, value)] + rest;
        ConsSettled(key, value, Setting(key, value), rest);
      case Keep(_) =>
        assert out == [lines[0]] + rest;
        ConsSettled(key, value, lines[0], rest);
      case Drop =>
    }
  }

  lemma ConsSettled(key: string, value: string, l: string, rest: seq<string>)
    requires Classify(key, value, l).Keep? && Settled(key, value, rest)
    ensures Settled(key, value, [l] + rest)
    ensures HasSetting(key, value, [l] + rest) <==> (Classify(key, value, l) == Keep(true) || HasSetting(key, value, rest))
  {
    ConsAllKept(key, value, l, rest);
    ConsHasSetting(key, value, l, rest);
  }

  lemma ConsAllKept(key: string, value: string, l: string, rest: seq<string>)
    requires Classify(key, value, l).Keep? && Settled(key, value, rest)
    ensures Settled(key, value, [l] + rest)
  {
    var out := [l] + rest;
    forall i | 0 <= i < |out|
      ensures Classify(key, value, out[i]).Keep?
    {
      if i > 0 {
        assert out[i] == rest[i - 1];
      }
    }
  }

  lemma ConsHasSetting(key: string, value: string, l: string, rest: seq<string>)
    ensures HasSetting(key, value, [l] + rest) <==> (Classify(key, value, l) == Keep(true) || HasSetting(key, value, rest))
  {
    if Classify(key, value, l) == Keep(true) || HasSetting(key, value, rest) {
      ConsGainsSetting(key, value, l, rest);
    }
    if HasSetting(key, value, [l] + rest) {
      ConsSplitsSetting(key, value, l, rest);
    }
  }

  lemma ConsGainsSetting(key: string, value: string, l: string, rest: seq<string>)
    requires Classify(key, value, l) == Keep(true) || HasSetting(key, value, rest)
    ensures HasSetting(key, value, [l] + rest)
  {
    var out := [l] + rest;
    if Classify(key, value, l) == Keep(true) {
      assert out[0] == l;
    } else {
      var i :| 0 <= i < |rest| && Classify(key, value, rest[i]) == Keep(true);
      assert out[i + 1] == rest[i];
    }
  }

  lemma ConsSplitsSetting(key: string, value: string, l: string, rest: seq<string>)
    requires HasSetting(key, value, [l] + rest)
    ensures Classify(key, value, l) == Keep(true) || HasSetting(key, value, rest)
  {
    var out := [l] + rest;
    var i :| 0 <= i < |out| && Classify(key, value, out[i]) == Keep(true);
    if i > 0 {
      assert rest[i - 1] == out[i];
    }
  }

  /** After the upsert nothing is left to change: no line gives the key
      another value, no commented copy waits to be re-enabled, and some line
      sets the key to the value. */
  lemma UpsertSettles(key: string, value: string, lines: seq<string>)
    requires WellFormed(key, value)
    ensures Settled(key, value, UpsertLines(key, value, lines))
    ensures HasSetting(key, value, UpsertLines(key, value, lines))
  {
    ScanOutputSettled(key, value, lines);
    SettingSets(key, value);
    if !Scan(key, value, lines).1 {
      AppendSetting(key, value, Scan(key, value, lines).0, Setting(key, value));
    }
  }

  lemma AppendSetting(key: string, value: string, lines: seq<string>, l: string)
    requires Settled(key, value, lines) && Classify(key, value, l) == Keep(true)
    ensures Settled(key, value, lines + [l]) && HasSetting(key, value, lines + [l])
  {
    var up := lines + [l];
    assert up[|lines|] == l;
    forall i | 0 <= i < |up|
      ensures Classify(key, value, up[i]).Keep?
    {
      if i < |lines| {
        assert up[i] == lines[i];
      }
    }
  }

  /** Lines that are already settled and carry the setting are a fixed
      point. */
  lemma SettledFixpoint(key: string, value: string, lines: seq<string>)
    requires Settled(key, value, lines) && HasSetting(key, value, lines)
    ensures UpsertLines(key, value, lines) == lines
  {
    ScanSettled(key, value, lines);
  }

  /** Upserting twice is upserting once, at the level of lines. */
  lemma UpsertLinesIdempotent(key: string, value: string, lines: seq<string>)
    requires WellFormed(key, value)
    ensures UpsertLines(key, value, UpsertLines(key, value, lines)) == UpsertLines(key, value, lines)
  {
    UpsertSettles(key, value, lines);
    SettledFixpoint(key, value, UpsertLines(key, value, lines));
  }

  /** Unrelated lines come out verbatim and in their original order. */
  lemma {:induction false} UpsertKeepsUnrelated(key: string, value: string, lines: seq<string>)
    requires WellFormed(key, value)
    ensures Unrelated(key, value, UpsertLines(key, value, lines)) == Unrelated(key, value, lines)
  {
    SettingSets(key, value);
    ScanKeepsUnrelated(key, value, lines);
    if !Scan(key, value, lines).1 {
      UnrelatedAppend(key, value, Scan(key, value, lines).0, Setting(key, value));
    }
  }

  lemma {:induction false} ScanKeepsUnrelated(key: string, value: string, lines: seq<string>)
    requires Classify(key, value, Setting(key, value)) == Keep(true)
    ensures Unrelated(key, value, Scan(key, value, lines).0) == Unrelated(key, value, lines)
  {
    if lines != [] {
      ScanKeepsUnrelated(key, value, lines[1..]);
      ScanStepUnrelated(key, value, lines);
    }
  }

  /** One step of the scan keeps the unrelated lines of the first line. */
  lemma ScanStepUnrelated(key: string, value: string, lines: seq<string>)
    requires lines != [] && Classify(key, value, Setting(key, value)) == Keep(true)
    ensures var rest := Scan(key, value, lines[1..]).0;
      Unrelated(key, value, Scan(key, value, lines).0)
      == (if Classify(key, value, lines[0]) == Keep(false) then [lines[0]] else []) + Unrelated(key, value, rest)
  {
    var rest := Scan(key, value, lines[1..]).0;
    var out := Scan(key, value, lines).0;
    var action := Classify(key, value, lines[0]);
    if action == Uncomment {
      assert out == [Setting(key, value)] + rest;
      assert Unrelated(key, value, out) == Unrelated(key, value, rest) by {
        UnrelatedCons(key, value, Setting(key, value), rest);
      }
    } else if action.Keep? {
      assert out == [lines[0]] + rest;
      UnrelatedCons(key, value, lines[0], rest);
    } else {
      assert out == rest;
    }
  }

  /** `Unrelated` on a list with a known first line. */
  lemma UnrelatedCons(key: string, value: string, l: string, rest: seq<string>)
    ensures Unrelated(key, value, [l] + rest)
         == (if Classify(key, value, l) == Keep(false) then [l] else []) + Unrelated(key, value, rest)
  {
    assert ([l] + rest)[1..] == rest;
  }

  lemma {:induction false} UnrelatedAppend(key: string, value: string, lines: seq<string>, l: string)
    requires Classify(key, value, l) != Keep(false)
    ensures Unrelated(key, value, lines + [l]) == Unrelated(key, value, lines)
  {
    if lines == [] {
      assert [l][1..] == [];
    } else {
      assert (lines + [l])[1..] == lines[1..] + [l];
      UnrelatedAppend(key, value, lines[1..], l);
    }
  }

  /** The setting is appended exactly when no line set it or held a
      commented copy of it; the output is the input less the dropped lines,
      plus that one appended line. */
  lemma UpsertLength(key: string, value: string, lines: seq<string>)
    ensures |UpsertLines(key, value, lines)|
         == |lines| - DropCount(key, value, lines) + (if Matched(key, value, lines) then 0 else 1)
  {
    ScanLength(key, value, lines);
  }

  lemma {:induction false} ScanLength(key: string, value: string, lines: seq<string>)
    ensures |Scan(key, value, lines).0| == |lines| - DropCount(key, value, lines)
    ensures Scan(key, value, lines).1 <==> Matched(key, value, lines)
  {
    if lines != [] {
      ScanLength(key, value, lines[1..]);
      assert Matched(key, value, lines) <==>
        (Classify(key, value, lines[0]) in {Uncomment, Keep(true)} || Matched(key, value, lines[1..])) by {
        if Matched(key, value, lines[1..]) {
          var i :| 0 <= i < |lines[1..]| && Classify(key, value, lines[1..][i]) in {Uncomment, Keep(true)};
          assert lines[i + 1] == lines[1..][i];
        }
        if Matched(key, value, lines) {
          var i :| 0 <= i < |lines| && Classify(key, value, lines[i]) in {Uncomment, Keep(true)};
          if i > 0 {
            assert lines[1..][i - 1] == lines[i];
          }
        }
      }
    }
  }

  /** The text-level upsert splits back into the upserted lines. */
  lemma AddSettingLines(key: string, value: string, text: string)
    requires NoOtherLineBreaks(text) && WellFormed(key, value)
    ensures SplitLines(AddSetting(key, value, text)) == UpsertLines(key, value, SplitLines(text))
  {
    var lines := SplitLines(text);
    ScanEmitsLines(key, value, lines);
    SplitJoinLines(UpsertLines(key, value, lines));
  }

  /** The scan emits only input lines and copies of the setting. */
  lemma {:induction false} ScanEmitsLines(key: string, value: string, lines: seq<string>)
    requires NoNewlines(lines) && WellFormed(key, value)
    ensures NoNewlines(UpsertLines(key, value, lines))
    ensures forall i :: 0 <= i < |Scan(key, value, lines).0| ==>
      Scan(key, value, lines).0[i] in lines || Scan(key, value, lines).0[i] == Setting(key, value)
  {
    SettingSets(key, value);
    ScanEmitsLinesRec(key, value, lines);
    var out := Scan(key, value, lines).0;
    var up := UpsertLines(key, value, lines);
    forall i | 0 <= i < |up|
      ensures '\n' !in up[i]
    {
      if i < |out| {
        assert up[i] == out[i];
        if up[i] in lines {
          var j :| 0 <= j < |lines| && lines[j] == up[i];
        }
      }
    }
  }

  lemma {:induction false} ScanEmitsLinesRec(key: string, value: string, lines: seq<string>)
    requires '\n' !in Setting(key, value)
    ensures forall i :: 0 <= i < |Scan(key, value, lines).0| ==>
      Scan(key, value, lines).0[i] in lines || Scan(key, value, lines).0[i] == Setting(key, value)
  {
    if lines != [] {
      ScanEmitsLinesRec(key, value, lines[1..]);
      var rest := Scan(key, value, lines[1..]).0;
      var out := Scan(key, value, lines).0;
      forall i | 0 <= i < |out|
        ensures out[i] in lines || out[i] == Setting(key, value)
      {
        if out != rest && i > 0 {
          assert out[i] == rest[i - 1];
        }
        if out == rest {
          assert rest[i] in lines[1..] || rest[i] == Setting(key, value);
        }
      }
    }
  }

  /** `_add_setting` applied twice with the same key and value gives the
      text it gives once. */
  lemma AddSettingIdempotent(key: string, value: string, text: string)
    requires NoOtherLineBreaks(text) && WellFormed(key, value)
    ensures NoOtherLineBreaks(AddSetting(key, value, text))
    ensures AddSetting(key, value, AddSetting(key, value, text)) == AddSetting(key, value, text)
  {
    var lines := SplitLines(text);
    var up := UpsertLines(key, value, lines);
    AddSettingLines(key, value, text);
    UpsertLinesIdempotent(key, value, lines);
    UpsertKeepsClean(key, value, text);
  }

  /** The upsert introduces no line break other than `'\n'`. */
  lemma UpsertKeepsClean(key: string, value: string, text: string)
    requires NoOtherLineBreaks(text) && WellFormed(key, value)
    ensures NoOtherLineBreaks(AddSetting(key, value, text))
  {
    var lines := SplitLines(text);
    SplitLinesClean(text);
    SettingSets(key, value);
    ScanEmitsLinesRec(key, value, lines);
    var up := UpsertLines(key, value, lines);
    LinesFromClean(up, Scan(key, value, lines).0, lines, Setting(key, value));
    JoinLinesClean(up);
  }

  /** Lines drawn from clean lines, plus possibly one clean extra line, are
      clean. */
  lemma LinesFromClean(up: seq<string>, out: seq<string>, lines: seq<string>, extra: string)
    requires forall i :: 0 <= i < |lines| ==> NoOtherLineBreaks(lines[i])
    requires NoOtherLineBreaks(extra)
    requires forall i :: 0 <= i < |out| ==> out[i] in lines || out[i] == extra
    requires up == out || up == out + [extra]
    ensures forall i :: 0 <= i < |up| ==> NoOtherLineBreaks(up[i])
  {
    forall i | 0 <= i < |up|
      ensures NoOtherLineBreaks(up[i])
    {
      if i < |out| {
        assert up[i] == out[i];
        if up[i] in lines {
          var j :| 0 <= j < |lines| && lines[j] == up[i];
        }
      }
    }
  }

  // ---------------------------------------------------------------------
  // Two upserts in a row, as `add_dynamic_files` makes them

  /** A line setting another key is unrelated to this one. */
  lemma ClassifyOtherSetting(key: string, value: string, k2: string, v2: string)
    requires WellFormed(k2, v2) && key != k2
    ensures Classify(key, value, Setting(k2, v2)) == Keep(false)
  {
    SettingSets(k2, v2);
    ParseOwnSetting(k2, v2);
    assert CodePart(Setting(k2, v2)) == Setting(k2, v2);
  }

  /** A line that sets one key is unrelated to every other key. */
  lemma SettingLineUnrelated(key: string, value: string, k2: string, v2: string, l: string)
    requires key != k2
    ensures Classify(key, value, l) == Keep(true) ==> Classify(k2, v2, l) == Keep(false)
  {
    if IsCommentedCopy(k2, v2, l) {
      var pos := Find(l, '#');
      BlankCodeIsNoSetting(l[..pos]);
      assert CodePart(l) == l[..pos];
      assert ByParse(key, value, ParseSetting(CodePart(l))) == Keep(false);
    }
  }

  /** The unrelated lines are lines of the input, and every unrelated input
      line is among them. */
  lemma {:induction false} UnrelatedMembers(key: string, value: string, lines: seq<string>, l: string)
    ensures l in Unrelated(key, value, lines) <==> l in lines && Classify(key, value, l) == Keep(false)
  {
    if lines != [] {
      UnrelatedMembers(key, value, lines[1..], l);
      assert lines == [lines[0]] + lines[1..];
    }
  }

  /** An upsert of a second key keeps the first one settled. */
  lemma SecondKeepsSettled(k1: string, v1: string, k2: string, v2: string, lines: seq<string>)
    requires WellFormed(k2, v2) && k1 != k2
    requires Settled(k1, v1, lines) && HasSetting(k1, v1, lines)
    ensures Settled(k1, v1, UpsertLines(k2, v2, lines)) && HasSetting(k1, v1, UpsertLines(k2, v2, lines))
  {
    SecondKeepsKept(k1, v1, k2, v2, lines);
    SecondKeepsSetting(k1, v1, k2, v2, lines);
  }

  /** Every line the second upsert emits was an input line or sets the
      other key, so it needs no change for the first key. */
  lemma SecondKeepsKept(k1: string, v1: string, k2: string, v2: string, lines: seq<string>)
    requires WellFormed(k2, v2) && k1 != k2 && Settled(k1, v1, lines)
    ensures Settled(k1, v1, UpsertLines(k2, v2, lines))
  {
    var up := UpsertLines(k2, v2, lines);
    var out := Scan(k2, v2, lines).0;
    SettingSets(k2, v2);
    ScanEmitsLinesRec(k2, v2, lines);
    ClassifyOtherSetting(k1, v1, k2, v2);
    forall i | 0 <= i < |up|
      ensures Classify(k1, v1, up[i]).Keep?
    {
      if i < |out| && out[i] in lines {
        assert up[i] == out[i];
        var j :| 0 <= j < |lines| && lines[j] == out[i];
      }
    }
  }

  /** The line setting the first key is unrelated to the second, so the
      second upsert keeps it. */
  lemma SecondKeepsSetting(k1: string, v1: string, k2: string, v2: string, lines: seq<string>)
    requires WellFormed(k2, v2) && k1 != k2 && HasSetting(k1, v1, lines)
    ensures HasSetting(k1, v1, UpsertLines(k2, v2, lines))
  {
    var up := UpsertLines(k2, v2, lines);
    var j :| 0 <= j < |lines| && Classify(k1, v1, lines[j]) == Keep(true);
    var l := lines[j];
    SettingLineUnrelated(k1, v1, k2, v2, l);
    UnrelatedKept(k2, v2, lines, j);
    var i :| 0 <= i < |up| && up[i] == l;
    assert Classify(k1, v1, up[i]) == Keep(true);
  }

  /** An input line unrelated to the key survives the upsert. */
  lemma UnrelatedKept(key: string, value: string, lines: seq<string>, j: nat)
    requires WellFormed(key, value) && j < |lines| && Classify(key, value, lines[j]) == Keep(false)
    ensures lines[j] in UpsertLines(key, value, lines)
  {
    var l := lines[j];
    UnrelatedMembers(key, value, lines, l);
    UpsertKeepsUnrelated(key, value, lines);
    UnrelatedMembers(key, value, UpsertLines(key, value, lines), l);
  }

  /** `_add_setting` for one key and then for another, each on the
      previous result. */
  function AddTwoSettings(k1: string, v1: string, k2: string, v2: string, text: string): (r: string)
    requires NoOtherLineBreaks(text) && WellFormed(k1, v1) && WellFormed(k2, v2)
    ensures NoOtherLineBreaks(r) && r != [] && r[|r| - 1] == '\n'
  {
    var once := AddSetting(k1, v1, text);
    UpsertKeepsClean(k1, v1, text);
    UpsertKeepsClean(k2, v2, once);
    AddSetting(k2, v2, once)
  }

  /** Setting two different keys, then setting both again, gives the text
      the first round gave. */
  lemma UpsertPairIdempotent(k1: string, v1: string, k2: string, v2: string, text: string)
    requires NoOtherLineBreaks(text) && WellFormed(k1, v1) && WellFormed(k2, v2) && k1 != k2
    ensures var once := AddTwoSettings(k1, v1, k2, v2, text);
      AddTwoSettings(k1, v1, k2, v2, once) == once
  {
    var u := AddSetting(k1, v1, text);
    UpsertKeepsClean(k1, v1, text);
    var w := AddSetting(k2, v2, u);
    UpsertKeepsClean(k2, v2, u);
    AddSettingLines(k1, v1, text);
    AddSettingLines(k2, v2, u);
    UpsertSettles(k1, v1, SplitLines(text));
    SecondKeepsSettled(k1, v1, k2, v2, SplitLines(u));
    SettledFixpoint(k1, v1, SplitLines(w));
    JoinSplitLines(w);
    assert AddSetting(k1, v1, w) == w;
    AddSettingIdempotent(k2, v2, u);
  }
}
