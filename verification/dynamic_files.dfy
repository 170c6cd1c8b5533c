/** The text edits `add_dynamic_files` makes on the boot partition: the
    kernel command line is rewritten to run the install script, and
    `config.txt` gets the UART and I2C settings. Files are reached through
    `FatDiskPath`, whose `/` builds a slash-separated name and whose
    `write_text` normalises line ends before writing. */
module DynamicFiles {
  import opened Options
  import opened PyStr
  import opened BootConfig

  // ---------------------------------------------------------------------
  // FatDiskPath

  /** A path on the FAT volume: the opened root directory (an opaque
      handle here) and the file name below it, absent for the root itself. */
  datatype FatPath = FatPath(root: nat, file: Option<string>)

  /** `FatDiskPath.__truediv__`. */
  function Slash(p: FatPath, name: string): (r: FatPath)
    ensures r.root == p.root && r.file.Some?
    ensures p.file.None? ==> r.file.value == name
    ensures p.file.Some? ==> |r.file.value| == |p.file.value| + 1 + |name|
    ensures p.file.Some? ==>
      && r.file.value[..|p.file.value|] == p.file.value
      && r.file.value[|p.file.value|] == '/'
      && r.file.value[|p.file.value| + 1..] == name
  {
    if p.file.None? then FatPath(p.root, Some(name))
    else FatPath(p.root, Some(p.file.value + "/" + name))
  }

  /** `FatDiskPath(root) / n1 / n2 / ...`. */
  function PathOf(root: nat, names: seq<string>): FatPath
    decreases |names|
  {
    if names == [] then FatPath(root, None)
    else Slash(PathOf(root, names[..|names| - 1]), names[|names| - 1])
  }

  /** The file name is the names joined with `/`. */
  lemma {:induction false} PathOfJoins(root: nat, names: seq<string>)
    requires names != []
    ensures PathOf(root, names) == FatPath(root, Some(Join(names, '/')))
    decreases |names|
  {
    var init := names[..|names| - 1];
    if |names| == 1 {
      assert PathOf(root, init) == FatPath(root, None);
    } else {
      PathOfJoins(root, init);
      JoinAppend(init, names[|names| - 1], '/');
      assert init + [names[|names| - 1]] == names;
    }
  }

  /** Names free of `/` come back from the file name by splitting it. */
  lemma PathOfSplits(root: nat, names: seq<string>)
    requires names != [] && forall i :: 0 <= i < |names| ==> '/' !in names[i]
    ensures Split(PathOf(root, names).file.value, '/') == names
  {
    PathOfJoins(root, names);
    SplitJoin(names, '/');
  }

  /** `FatDiskPath.write_text(s, newline)`: what reaches the file. Each
      `"\r\n"` and then each `"\n"` is replaced by `newline`. */
  function WriteText(s: string, newline: string): string {
    Replace(Replace(s, "\r\n", newline), "\n", newline)
  }

  /** The text with every `'\r'` that stands right before a `'\n'` left
      out. */
  function DropCrBeforeLf(s: string): string
    decreases |s|
  {
    if s == [] then []
    else if |s| >= 2 && s[0] == '\r' && s[1] == '\n' then DropCrBeforeLf(s[1..])
    else [s[0]] + DropCrBeforeLf(s[1..])
  }

  /** With `newline="\n"` (every call in `add_dynamic_files`), writing drops
      exactly the carriage returns of `"\r\n"` pairs and keeps every other
      character. */
  lemma WriteTextLf(s: string)
    ensures WriteText(s, "\n") == DropCrBeforeLf(s)
  {
    ReplaceCrLf(s);
    ReplaceSelf(DropCrBeforeLf(s), "\n");
  }

  lemma {:induction false} ReplaceCrLf(s: string)
    ensures Replace(s, "\r\n", "\n") == DropCrBeforeLf(s)
    decreases |s|
  {
    if |s| >= 2 {
      assert s[..2] == [s[0], s[1]];
    }
    if |s| < 2 {
      if |s| == 1 {
        assert DropCrBeforeLf(s) == [s[0]] + DropCrBeforeLf(s[1..]);
      }
    } else if s[..2] == "\r\n" {
      ReplaceCrLf(s[2..]);
      assert s[1..][1..] == s[2..];
      assert DropCrBeforeLf(s[1..]) == [s[1]] + DropCrBeforeLf(s[2..]);
    } else {
      ReplaceCrLf(s[1..]);
    }
  }

  /** Text without carriage returns is written unchanged. */
  lemma {:induction false} DropCrNoCr(s: string)
    requires '\r' !in s
    ensures DropCrBeforeLf(s) == s
    decreases |s|
  {
    if s != [] {
      assert '\r' !in s[1..];
      DropCrNoCr(s[1..]);
      assert s == [s[0]] + s[1..];
    }
  }

  // ---------------------------------------------------------------------
  // cmdline.txt

  /** What the rewrite appends: run the install script, reboot either
      way. */
  const RunSuffix: string :=
    " systemd.run=/boot/firmware/install_contents.sh"
    + " systemd.run_success_action=reboot"
    + " systemd.run_failure_action=reboot "

  const Quiet: string := " quiet"
  const Systemd: string := " systemd"

  /** Length of the longest prefix of non-whitespace characters (`\S*`). */
  function NonSpaceRun(s: string): (n: nat)
    ensures n <= |s| && forall k :: 0 <= k < n ==> !IsSpace(s[k])
    ensures n < |s| ==> IsSpace(s[n])
  {
    if s == [] || IsSpace(s[0]) then 0 else 1 + NonSpaceRun(s[1..])
  }

  /** The pattern ` systemd.\S+` tried at the start of `s`: ` systemd`, any
      character but `'\n'`, then the longest non-empty run of
      non-whitespace. The length of the match, or 0. */
  function SystemdMatch(s: string): (n: nat)
    ensures n == 0 || (10 <= n <= |s| && s[..8] == Systemd)
  {
    if |s| >= 10 && s[..8] == Systemd && s[8] != '\n' && !IsSpace(s[9]) then
      9 + NonSpaceRun(s[9..])
    else 0
  }

  /** `re.sub(r" systemd.\S+", "", s)`: matches are removed left to right;
      the search resumes after each removed match. */
  function RemoveSystemdOptions(s: string): string
    decreases |s|
  {
    if s == [] then []
    else
      var n := SystemdMatch(s);
      if n > 0 then RemoveSystemdOptions(s[n..])
      else [s[0]] + RemoveSystemdOptions(s[1..])
  }

  /** `a` is `b` with some characters deleted. */
  predicate IsSubsequence(a: string, b: string)
    decreases |b|
  {
    if b == [] then a == []
    else IsSubsequence(a, b[1..]) || (a != [] && a[0] == b[0] && IsSubsequence(a[1..], b[1..]))
  }

  lemma {:induction false} SubsequenceRefl(s: string)
    ensures IsSubsequence(s, s)
    decreases |s|
  {
    if s != [] {
      SubsequenceRefl(s[1..]);
    }
  }

  /** A subsequence of a suffix is a subsequence of the whole. */
  lemma {:induction false} SubsequenceSkip(a: string, b: string, k: nat)
    requires k <= |b| && IsSubsequence(a, b[k..])
    ensures IsSubsequence(a, b)
    decreases k
  {
    if k > 0 {
      assert b[1..][k - 1..] == b[k..];
      SubsequenceSkip(a, b[1..], k - 1);
    }
  }

  /** Keeping a common first character keeps a subsequence. */
  lemma SubsequenceCons(x: char, a: string, b: string)
    requires IsSubsequence(a, b)
    ensures IsSubsequence([x] + a, [x] + b)
  {
    assert ([x] + a)[1..] == a;
    assert ([x] + b)[1..] == b;
  }

  lemma {:induction false} SubsequenceTrans(a: string, b: string, c: string)
    requires IsSubsequence(a, b) && IsSubsequence(b, c)
    ensures IsSubsequence(a, c)
    decreases |c|
  {
    if c != [] {
      if IsSubsequence(b, c[1..]) {
        SubsequenceTrans(a, b, c[1..]);
      } else {
        assert b != [] && b[0] == c[0] && IsSubsequence(b[1..], c[1..]);
        if IsSubsequence(a, b[1..]) {
          SubsequenceTrans(a, b[1..], c[1..]);
        } else {
          SubsequenceTrans(a[1..], b[1..], c[1..]);
        }
      }
    }
  }

  /** The removal only deletes characters. */
  lemma {:induction false} RemoveSystemdDeletes(s: string)
    ensures IsSubsequence(RemoveSystemdOptions(s), s)
    decreases |s|
  {
    if s != [] {
      var n := SystemdMatch(s);
      if n > 0 {
        RemoveSystemdDeletes(s[n..]);
        SubsequenceSkip(RemoveSystemdOptions(s[n..]), s, n);
      } else {
        RemoveSystemdDeletes(s[1..]);
        SubsequenceCons(s[0], RemoveSystemdOptions(s[1..]), s[1..]);
        assert [s[0]] + s[1..] == s;
      }
    }
  }

  /** Replacing by the empty string only deletes characters. */
  lemma {:induction false} ReplaceEmptyDeletes(s: string, pat: string)
    requires |pat| > 0
    ensures IsSubsequence(Replace(s, pat, ""), s)
    decreases |s|
  {
    if |s| < |pat| {
      SubsequenceRefl(s);
    } else if s[..|pat|] == pat {
      ReplaceEmptyDeletes(s[|pat|..], pat);
      assert "" + Replace(s[|pat|..], pat, "") == Replace(s[|pat|..], pat, "");
      SubsequenceSkip(Replace(s[|pat|..], pat, ""), s, |pat|);
    } else {
      ReplaceEmptyDeletes(s[1..], pat);
      SubsequenceCons(s[0], Replace(s[1..], pat, ""), s[1..]);
      assert [s[0]] + s[1..] == s;
    }
  }

  /** The command-line rewrite: strip, drop ` quiet`, drop every
      ` systemd.` option, append the run options. */
  function RewriteCmdline(text: string): (r: string)
    ensures |r| >= |RunSuffix| && r[|r| - |RunSuffix|..] == RunSuffix
    ensures IsSubsequence(r[..|r| - |RunSuffix|], Strip(text))
  {
    var stripped := Strip(text);
    var noQuiet := Replace(stripped, Quiet, "");
    var kept := RemoveSystemdOptions(noQuiet);
    ReplaceEmptyDeletes(stripped, Quiet);
    RemoveSystemdDeletes(noQuiet);
    SubsequenceTrans(kept, noQuiet, stripped);
    var r := kept + RunSuffix;
    assert r[..|r| - |RunSuffix|] == kept;
    r
  }

  /** ` systemd` stands at position `i`. */
  predicate SystemdAt(s: string, i: nat) {
    i + 8 <= |s| && s[i..i + 8] == Systemd
  }

  /** With no ` systemd` anywhere the removal keeps the text. */
  lemma {:induction false} RemoveSystemdNoMatch(s: string)
    requires forall i: nat :: i < |s| ==> !SystemdAt(s, i)
    ensures RemoveSystemdOptions(s) == s
    decreases |s|
  {
    if s != [] {
      if |s| >= 10 {
        assert !SystemdAt(s, 0);
        assert s[0..8] == s[..8];
      }
      forall i: nat | i < |s[1..]|
        ensures !SystemdAt(s[1..], i)
      {
        assert !SystemdAt(s, i + 1);
        if i + 8 <= |s[1..]| {
          assert s[1..][i..i + 8] == s[i + 1..i + 9];
        }
      }
      RemoveSystemdNoMatch(s[1..]);
      assert s == [s[0]] + s[1..];
    }
  }

  // ---------------------------------------------------------------------
  // config.txt

  const UartKey: string := "enable_uart"
  const UartValue: string := "1"
  const I2cKey: string := "dtparam" + "=" + "i2c_arm"
  const I2cValue: string := "on"

  lemma PlainConstants()
    ensures PlainText(UartKey) && PlainText(UartValue)
    ensures PlainText(I2cKey) && PlainText(I2cValue)
  {
    assert PlainText(UartKey);
    assert PlainText(UartValue);
    assert PlainText(I2cKey);
    assert PlainText(I2cValue);
  }

  lemma UnpaddedConstants()
    ensures Unpadded(UartKey) && Unpadded(UartValue)
    ensures Unpadded(I2cKey) && Unpadded(I2cValue)
  {
    assert UartKey[0] == 'e' && UartKey[|UartKey| - 1] == 't';
    assert I2cKey[0] == 'd' && I2cKey[|I2cKey| - 1] == 'm';
    assert UartValue[0] == '1';
    assert I2cValue[0] == 'o' && I2cValue[1] == 'n';
  }

  /** The UART key has no `=`. */
  lemma UartKeyEquals()
    ensures CountChar(UartKey, '=') == 0
  {
    assert '=' !in UartKey;
    NoCountWhenAbsent(UartKey, '=');
  }

  /** The I2C key has exactly one `=`. */
  lemma I2cKeyEquals()
    ensures CountChar(I2cKey, '=') == 1
  {
    NoCountWhenAbsent("dtparam", '=');
    NoCountWhenAbsent("i2c_arm", '=');
    CountConcat("dtparam", "=", '=');
    CountConcat("dtparam" + "=", "i2c_arm", '=');
  }

  lemma UartWellFormed()
    ensures WellFormed(UartKey, UartValue)
  {
    PlainConstants();
    UnpaddedConstants();
    UartKeyEquals();
  }

  lemma I2cWellFormed()
    ensures WellFormed(I2cKey, I2cValue)
  {
    PlainConstants();
    UnpaddedConstants();
    I2cKeyEquals();
  }

  /** Both settings are well formed and use different keys. */
  lemma SettingsWellFormed()
    ensures WellFormed(UartKey, UartValue) && WellFormed(I2cKey, I2cValue) && UartKey != I2cKey
  {
    UartWellFormed();
    I2cWellFormed();
    assert UartKey[0] != I2cKey[0];
  }

  /** Text free of line breaks other than `'\n'` is written unchanged with
      `newline="\n"`. */
  lemma WriteCleanText(s: string)
    requires NoOtherLineBreaks(s)
    ensures WriteText(s, "\n") == s
  {
    assert '\r' !in s by {
      forall i | 0 <= i < |s|
        ensures s[i] != '\r'
      {
        assert !IsOtherLineBreak(s[i]);
      }
    }
    WriteTextLf(s);
    DropCrNoCr(s);
  }

  /** The `config.txt` edit: UART on, then the I2C bus on, then written with
      `"\n"` line ends. The file is read as text free of line breaks other
      than `'\n'`. */
  function PatchConfig(text: string): (r: string)
    requires NoOtherLineBreaks(text)
    ensures NoOtherLineBreaks(r) && r != [] && r[|r| - 1] == '\n'
  {
    UartClean(text);
    var uart := AddSetting(UartKey, UartValue, text);
    I2cClean(uart);
    var both := AddSetting(I2cKey, I2cValue, uart);
    WriteCleanText(both);
    WriteText(both, "\n")
  }

  lemma UartClean(text: string)
    requires NoOtherLineBreaks(text)
    ensures NoOtherLineBreaks(AddSetting(UartKey, UartValue, text))
  {
    UartWellFormed();
    UpsertKeepsClean(UartKey, UartValue, text);
  }

  lemma I2cClean(text: string)
    requires NoOtherLineBreaks(text)
    ensures NoOtherLineBreaks(AddSetting(I2cKey, I2cValue, text))
  {
    I2cWellFormed();
    UpsertKeepsClean(I2cKey, I2cValue, text);
  }

  /** Running the `config.txt` edit on its own output changes nothing: a
      card that is patched twice gets the same `config.txt`. */
  lemma PatchConfigIdempotent(text: string)
    requires NoOtherLineBreaks(text)
    ensures PatchConfig(PatchConfig(text)) == PatchConfig(text)
  {
    SettingsWellFormed();
    var once := AddTwoSettings(UartKey, UartValue, I2cKey, I2cValue, text);
    WriteCleanText(once);
    assert PatchConfig(text) == once;
    UpsertPairIdempotent(UartKey, UartValue, I2cKey, I2cValue, text);
    var twice := AddTwoSettings(UartKey, UartValue, I2cKey, I2cValue, once);
    WriteCleanText(twice);
  }

  /** After the edit `config.txt` sets the UART on and the I2C bus on, and
      every line that sets either key sets it to the wanted value. */
  lemma PatchConfigSets(text: string)
    requires NoOtherLineBreaks(text)
    ensures var lines := SplitLines(PatchConfig(text));
      && HasSetting(UartKey, UartValue, lines) && Settled(UartKey, UartValue, lines)
      && HasSetting(I2cKey, I2cValue, lines) && Settled(I2cKey, I2cValue, lines)
  {
    SettingsWellFormed();
    var first := AddSetting(UartKey, UartValue, text);
    var once := AddTwoSettings(UartKey, UartValue, I2cKey, I2cValue, text);
    WriteCleanText(once);
    assert PatchConfig(text) == once;
    AddSettingLines(UartKey, UartValue, text);
    UpsertSettles(UartKey, UartValue, SplitLines(text));
    UpsertKeepsClean(UartKey, UartValue, text);
    AddSettingLines(I2cKey, I2cValue, first);
    UpsertSettles(I2cKey, I2cValue, SplitLines(first));
    SecondKeepsSettled(UartKey, UartValue, I2cKey, I2cValue, SplitLines(first));
  }
}
