/** The decisions the text-mode front end makes, taken out of its frames as
    functions of plain inputs: port numbering and the burn-ready screen
    (`BurnReadyFrame`), the burns it starts, the menu's flag settings
    (`MenuFrame`), the zip member it unpacks (`UpdateImageFrame`), the move
    to the done screen (`BurnFrame`) and the Wi-Fi form's validators
    (`WifiFrame`). */
module Imager {
  import opened Options
  import opened PyStr
  import Burner

  // ---------------------------------------------------------------------
  // Burn-ready screen

  /** A removable drive as the scanner lists it: device id, model and USB
      location (port numbers from the root hub down). */
  datatype Disk = Disk(device: string, model: string, location: seq<int>)

  /** `LOCATION_ORDER`: the front-panel numbering of the ten-port hub, main
      ports 1 and 2, then the two sub-hubs on ports 3 and 4. */
  const LocationOrder: seq<seq<int>> := [[1], [2], [3, 4, 5, 6], [7, 8, 9, 10]]

  /** Python's `location[-1]`. */
  function Last(location: seq<int>): int
    requires |location| >= 1
  {
    location[|location| - 1]
  }

  /** The front-panel number of port `port` of the sub-hub on main port
      `hub`: four numbers per sub-hub, after the two main ports. */
  function SubHubPort(hub: int, port: int): int {
    port + 2 + (hub - 3) * 4
  }

  /** The port number of one disk. A location one shorter than the longest
      is on the main hub and numbered by its last port; one of the longest
      length is on a sub-hub. Python's negative indexing fails on a location
      that is too short (None); a location of any other length keeps the
      number of the disk before it, and fails when it is the first. */
  function PortIndex(location: seq<int>, maxLen: nat, previous: Option<int>): (r: Option<int>)
    ensures |location| + 1 == maxLen ==> (r.Some? <==> |location| >= 1)
    ensures |location| + 1 == maxLen && |location| >= 1 ==> r == Some(Last(location))
    ensures |location| == maxLen ==> (r.Some? <==> |location| >= 2)
    ensures |location| == maxLen && |location| >= 2 ==>
      r == Some(SubHubPort(location[|location| - 2], Last(location)))
    ensures |location| + 1 != maxLen && |location| != maxLen ==> r == previous
  {
    var n := |location|;
    if n == maxLen - 1 then
      if n >= 1 then Some(Last(location)) else None
    else if n == maxLen then
      if n >= 2 then Some(SubHubPort(location[n - 2], Last(location))) else None
    else previous
  }

  /** Sub-hub ports 3 and 4 with their ports 1 to 4 are numbered as
      `LOCATION_ORDER` lists them, and main ports 1 and 2 keep their number:
      the numbering is one-to-one onto 1..10. */
  lemma PortNumbering(prefix: seq<int>, hub: int, port: int)
    requires 3 <= hub <= 4 && 1 <= port <= 4
    ensures var loc := prefix + [hub, port];
      PortIndex(loc, |loc|, None) == Some(LocationOrder[hub - 1][port - 1])
    ensures var loc := prefix + [hub];
      PortIndex(loc, |loc| + 1, None) == Some(hub)
  {
  }

  lemma MainPortNumbering(prefix: seq<int>, port: int)
    requires 1 <= port <= 2
    ensures var loc := prefix + [port];
      PortIndex(loc, |loc| + 1, None) == Some(LocationOrder[port - 1][0])
  {
  }

  /** Distinct sub-hub positions get distinct numbers, all in 3..10. */
  lemma SubHubNumbersDistinct(h1: int, p1: int, h2: int, p2: int)
    requires 3 <= h1 <= 4 && 1 <= p1 <= 4 && 3 <= h2 <= 4 && 1 <= p2 <= 4
    ensures 3 <= SubHubPort(h1, p1) <= 10
    ensures SubHubPort(h1, p1) == SubHubPort(h2, p2) <==> h1 == h2 && p1 == p2
  {
  }

  function MaxLen(disks: seq<Disk>): (m: nat)
    ensures forall i :: 0 <= i < |disks| ==> |disks[i].location| <= m
    ensures disks != [] ==> exists i :: 0 <= i < |disks| && |disks[i].location| == m
  {
    if disks == [] then 0
    else
      var m := MaxLen(disks[1..]);
      assert forall i :: 1 <= i < |disks| ==> disks[i] == disks[1..][i - 1];
      if |disks[0].location| >= m then |disks[0].location|
      else
        assert disks[1..] != [];
        var j :| 0 <= j < |disks[1..]| && |disks[1..][j].location| == m;
        assert disks[j + 1] == disks[1..][j];
        m
  }

  /** `f"{disk}:{model} @ Port {location_index}\n"`. */
  function DiskLine(d: Disk, n: int): string {
    d.device + ":" + d.model + " @ Port " + IntToString(n) + "\n"
  }

  /** One line per disk, `device:model @ Port n`; None when a port number
      cannot be computed. */
  function DiskLines(disks: seq<Disk>, maxLen: nat, previous: Option<int>): (r: Option<string>)
    ensures disks == [] ==> r == Some("")
    ensures disks != [] && PortIndex(disks[0].location, maxLen, previous).None? ==> r.None?
    ensures disks != [] && r.Some? ==>
      && PortIndex(disks[0].location, maxLen, previous).Some?
      && DiskLine(disks[0], PortIndex(disks[0].location, maxLen, previous).value) <= r.value
    decreases |disks|
  {
    if disks == [] then Some("")
    else
      match PortIndex(disks[0].location, maxLen, previous)
      case None => None
      case Some(n) =>
        match DiskLines(disks[1..], maxLen, Some(n))
        case None => None
        case Some(rest) => Some(DiskLine(disks[0], n) + rest)
  }

  /** The card request; the first word is split off so that the verifier
      sees its first character, which tells it apart from the header. */
  const NoCardMessage: string := "You" + " need to insert an sd card before burning can begin"

  const HeaderStart: string := "About to burn "
  const HeaderEnd: string := " sd cards to the following drives:\n"

  function BurnHeader(count: nat): string {
    HeaderStart + NatToString(count) + HeaderEnd
  }

  /** The label text and the OK button. */
  datatype ReadyView = ReadyView(info: string, okDisabled: bool, okText: string)

  /** The view when the frame is built: a placeholder label, OK enabled. */
  function InitialView(): (v: ReadyView)
    ensures ViewConsistent(v)
    ensures !v.okDisabled && v.info != NoCardMessage && v.okText == "OK"
  {
    ReadyView("!", false, "OK")
  }

  /** The label for a non-empty disk list: the header, then one line per
      disk; None when a port number cannot be computed. */
  function ReadyText(disks: seq<Disk>): Option<string> {
    if disks == [] then None
    else
      match DiskLines(disks, MaxLen(disks), None)
      case None => None
      case Some(lines) => Some(BurnHeader(|disks|) + lines)
  }

  /** `BurnReadyFrame.update`: None when a port number fails. */
  function ReadyUpdate(v: ReadyView, disks: seq<Disk>): (r: Option<ReadyView>)
    ensures disks == [] ==> r == Some(ReadyView(NoCardMessage, true, ""))
    ensures disks != [] ==> (r.Some? <==> ReadyText(disks).Some?)
    ensures disks != [] && r.Some? ==>
      && r.value.info == ReadyText(disks).value
      && BurnHeader(|disks|) <= r.value.info
      && (v.info != r.value.info ==> !r.value.okDisabled && r.value.okText == "Ok")
      && (v.info == r.value.info ==> r.value == v)
  {
    if disks == [] then Some(ReadyView(NoCardMessage, true, ""))
    else
      match DiskLines(disks, MaxLen(disks), None)
      case None => None
      case Some(lines) =>
        var text := BurnHeader(|disks|) + lines;
        if v.info != text then Some(ReadyView(text, false, "Ok")) else Some(v)
  }

  /** OK is disabled exactly while the label asks for a card. */
  predicate ViewConsistent(v: ReadyView) {
    v.okDisabled <==> v.info == NoCardMessage
  }

  lemma HeaderIsNotNoCard(count: nat, lines: string)
    ensures BurnHeader(count) + lines != NoCardMessage
  {
    var s := BurnHeader(count) + lines;
    assert s[0] == HeaderStart[0] == 'A';
    assert NoCardMessage[0] == 'Y';
  }

  /** Every update keeps the button in step with the label. */
  lemma ReadyUpdateConsistent(v: ReadyView, disks: seq<Disk>)
    requires ViewConsistent(v)
    ensures var r := ReadyUpdate(v, disks); r.Some? ==> ViewConsistent(r.value)
  {
    if disks != [] {
      match DiskLines(disks, MaxLen(disks), None)
      case None =>
      case Some(lines) => HeaderIsNotNoCard(|disks|, lines);
    }
  }

  /** The count in the header reads back as the number of disks. */
  lemma HeaderCount(count: nat)
    ensures var h := BurnHeader(count);
      var digits := h[|HeaderStart|..|h| - |HeaderEnd|];
      digits == NatToString(count) && ParseNat(digits) == count
  {
    var h := BurnHeader(count);
    assert h[|HeaderStart|..|h| - |HeaderEnd|] == NatToString(count);
    ParseNatToString(count);
  }

  // ---------------------------------------------------------------------
  // The front end's shared flags and the menu

  /** The flags of `DataHolder` the menu sets. */
  datatype Flags = Flags(labImage: bool, contentsOnly: bool, patchImage: bool, prepatchedImage: bool)

  function DefaultFlags(): Flags {
    Flags(true, false, false, false)
  }

  datatype Scene = Menu | Wifi | BurnReady | Burn | BurnDone | UpdateImage | CapturePrepatched

  datatype Action =
    | BurnLab | BurnStudent | SetLab | SetStudent
    | UpdateBaseImage | PatchBaseImage | CapturePrepatchedImage | BurnPrepatchedImage

  /** Whether an action needs `networks.lab.conf`. */
  predicate NeedsLabConf(a: Action) {
    a == BurnLab || a == SetLab
  }

  /** The scene each menu entry moves to once it goes ahead. */
  function ActionScene(a: Action): Scene {
    match a
    case BurnLab => BurnReady
    case SetLab => BurnReady
    case BurnPrepatchedImage => BurnReady
    case BurnStudent => Wifi
    case SetStudent => Wifi
    case UpdateBaseImage => UpdateImage
    case PatchBaseImage => UpdateImage
    case CapturePrepatchedImage => CapturePrepatched
  }

  /** A menu choice: the new flags and the next scene. Without
      `networks.lab.conf` the two lab actions only show a dialog. */
  function MenuAction(f: Flags, a: Action, labConfExists: bool): (r: (Flags, Scene))
    ensures NeedsLabConf(a) && !labConfExists ==> r == (f, Menu)
    ensures !NeedsLabConf(a) || labConfExists ==> r.1 == ActionScene(a)
    ensures r.1 != Menu ==> (r.0.prepatchedImage <==> a == BurnPrepatchedImage || (a == CapturePrepatchedImage && f.prepatchedImage))
    ensures a == BurnPrepatchedImage ==> r.0.contentsOnly == f.contentsOnly && r.0.patchImage == f.patchImage
    ensures r.1 == BurnReady || r.1 == Wifi ==> r.0.patchImage == f.patchImage
    ensures r.1 == UpdateImage ==> r.0.(patchImage := f.patchImage, prepatchedImage := f.prepatchedImage) == f
  {
    match a
    case BurnLab =>
      if !labConfExists then (f, Menu)
      else (f.(prepatchedImage := false, contentsOnly := false, labImage := true), BurnReady)
    case BurnStudent => (f.(prepatchedImage := false, contentsOnly := false, labImage := false), Wifi)
    case SetLab =>
      if !labConfExists then (f, Menu)
      else (f.(prepatchedImage := false, contentsOnly := true, labImage := true), BurnReady)
    case SetStudent => (f.(prepatchedImage := false, labImage := false, contentsOnly := true), Wifi)
    case UpdateBaseImage => (f.(prepatchedImage := false, patchImage := false), UpdateImage)
    case PatchBaseImage => (f.(prepatchedImage := false, patchImage := true), UpdateImage)
    case BurnPrepatchedImage => (f.(prepatchedImage := true, labImage := true), BurnReady)
    case CapturePrepatchedImage => (f, CapturePrepatched)
  }

  /** Choosing the same entry twice sets the same flags as choosing it
      once. */
  lemma MenuActionIdempotent(f: Flags, a: Action, labConfExists: bool)
    ensures MenuAction(MenuAction(f, a, labConfExists).0, a, labConfExists) == MenuAction(f, a, labConfExists)
  {
  }

  /** Each entry, once it goes ahead, sets exactly the flags it lists and
      keeps the others. */
  lemma MenuBurnModes(f: Flags)
    ensures MenuAction(f, BurnLab, true) == (f.(labImage := true, contentsOnly := false, prepatchedImage := false), BurnReady)
    ensures MenuAction(f, BurnStudent, false) == (f.(labImage := false, contentsOnly := false, prepatchedImage := false), Wifi)
    ensures MenuAction(f, SetLab, true) == (f.(labImage := true, contentsOnly := true, prepatchedImage := false), BurnReady)
    ensures MenuAction(f, SetStudent, false) == (f.(labImage := false, contentsOnly := true, prepatchedImage := false), Wifi)
    ensures MenuAction(f, UpdateBaseImage, false) == (f.(patchImage := false, prepatchedImage := false), UpdateImage)
    ensures MenuAction(f, PatchBaseImage, false) == (f.(patchImage := true, prepatchedImage := false), UpdateImage)
    ensures MenuAction(f, BurnPrepatchedImage, false) == (f.(labImage := true, prepatchedImage := true), BurnReady)
    ensures MenuAction(f, CapturePrepatchedImage, false) == (f, CapturePrepatched)
  {
  }

  /** Only the two lab entries look at `networks.lab.conf`. */
  lemma MenuIgnoresLabConf(f: Flags, a: Action)
    requires !NeedsLabConf(a)
    ensures MenuAction(f, a, true) == MenuAction(f, a, false)
  {
  }

  const PrepatchedSource: string := "raspios_prepatched.img"
  const BaseSource: string := "raspios.img"

  /** One call of `burn_image_to_disk` from `BurnReadyFrame.ok`. */
  datatype Request = Request(source: string, target: string, contentsOnly: bool, prepatched: bool)

  function SourceImage(f: Flags): string {
    if f.prepatchedImage then PrepatchedSource else BaseSource
  }

  /** The requests `ok` makes: one per listed disk, in order. */
  function OkRequests(f: Flags, disks: seq<Disk>): (r: seq<Request>)
    ensures |r| == |disks|
    ensures forall i :: 0 <= i < |r| ==>
      r[i] == Request(SourceImage(f), disks[i].device, f.contentsOnly, f.prepatchedImage)
  {
    if disks == [] then []
    else [Request(SourceImage(f), disks[0].device, f.contentsOnly, f.prepatchedImage)] + OkRequests(f, disks[1..])
  }

  /** After the prepatched menu entry, every burn reads the prepatched
      image; after the other burn entries, the base image. */
  lemma MenuChoosesSource(f: Flags, a: Action, labConfExists: bool, disks: seq<Disk>)
    requires MenuAction(f, a, labConfExists).1 == BurnReady || MenuAction(f, a, labConfExists).1 == Wifi
    ensures var rs := OkRequests(MenuAction(f, a, labConfExists).0, disks);
      forall i :: 0 <= i < |rs| ==>
        rs[i].source == (if a == BurnPrepatchedImage then PrepatchedSource else BaseSource)
  {
  }

  /** The jobs `ok` submits, with ids counted up from `start`. */
  function NewEntries(start: nat, sourceSize: nat, targets: seq<string>): (r: seq<Burner.Entry>)
    ensures |r| == |targets|
    ensures forall i :: 0 <= i < |targets| ==>
      r[i] == Burner.Entry(start + i, Burner.NewJob(sourceSize, targets[i]))
    decreases |targets|
  {
    if targets == [] then []
    else
      var rest := NewEntries(start + 1, sourceSize, targets[1..]);
      var r := [Burner.Entry(start, Burner.NewJob(sourceSize, targets[0]))] + rest;
      assert forall i :: 1 <= i < |r| ==> r[i] == rest[i - 1];
      r
  }

  /** The jobs after the first submission, seen from before it. */
  lemma NewEntriesCons(t: Burner.Table, t': Burner.Table, sourceSize: nat, targets: seq<string>)
    requires targets != []
    requires t'.burns == t.burns + [Burner.Entry(t.nextId, Burner.NewJob(sourceSize, targets[0]))]
    requires t'.nextId == t.nextId + 1
    ensures t'.burns + NewEntries(t'.nextId, sourceSize, targets[1..])
         == t.burns + NewEntries(t.nextId, sourceSize, targets)
  {
    AppendNewEntries(t.burns, t.nextId, sourceSize, targets);
  }

  lemma AppendNewEntries(burns: seq<Burner.Entry>, start: nat, sourceSize: nat, targets: seq<string>)
    requires targets != []
    ensures burns + [Burner.Entry(start, Burner.NewJob(sourceSize, targets[0]))]
              + NewEntries(start + 1, sourceSize, targets[1..])
         == burns + NewEntries(start, sourceSize, targets)
  {
    var e := Burner.Entry(start, Burner.NewJob(sourceSize, targets[0]));
    var rest := NewEntries(start + 1, sourceSize, targets[1..]);
    assert NewEntries(start, sourceSize, targets) == [e] + rest;
    assert burns + [e] + rest == burns + ([e] + rest);
  }

  /** The submitting loop of `ok`: one job per target, in order;
      `sourceSize` is the size of the source image. The earlier jobs stay,
      the new ones follow with consecutive ids, and the counter moves past
      them. */
  function SubmitAll(t: Burner.Table, sourceSize: nat, targets: seq<string>): (r: Burner.Table)
    requires Burner.Valid(t)
    ensures Burner.Valid(r)
    ensures r.nextId == t.nextId + |targets|
    ensures r.burns == t.burns + NewEntries(t.nextId, sourceSize, targets)
    decreases |targets|
  {
    if targets == [] then t
    else
      var t' := Burner.Submit(t, sourceSize, targets[0]).0;
      Burner.SubmitAppends(t, sourceSize, targets[0]);
      NewEntriesCons(t, t', sourceSize, targets);
      SubmitAll(t', sourceSize, targets[1..])
  }

  function Targets(disks: seq<Disk>): (r: seq<string>)
    ensures |r| == |disks| && forall i :: 0 <= i < |disks| ==> r[i] == disks[i].device
  {
    if disks == [] then [] else [disks[0].device] + Targets(disks[1..])
  }

  /** `ok`: the table is cleared and one job is submitted per disk. As
      submitted, before any worker step, the table holds exactly one fresh
      job per disk, for that disk, in disk order, with ids continuing from
      the counter. */
  function Ok(t: Burner.Table, sourceSize: nat, disks: seq<Disk>): (r: Burner.Table)
    requires Burner.Valid(t)
    ensures |r.burns| == |disks| && r.nextId == t.nextId + |disks|
    ensures forall i :: 0 <= i < |disks| ==>
      r.burns[i] == Burner.Entry(t.nextId + i, Burner.NewJob(sourceSize, disks[i].device))
  {
    SubmitAll(Burner.Clear(t), sourceSize, Targets(disks))
  }

  // ---------------------------------------------------------------------
  // Burn progress screen

  /** The part of `BurnFrame.update` that decides whether burns are left.
      Each unfinished job's fraction `bytes_transferred / total_size` is
      computed on the way, which fails (None) for a job with total size 0. */
  function BurnsLeft(progress: seq<Burner.Entry>): (r: Option<bool>)
    ensures r == Some(false) <==> forall i :: 0 <= i < |progress| ==> progress[i].job.finished
    ensures r == None <==> exists i :: 0 <= i < |progress| && !progress[i].job.finished && progress[i].job.totalSize == 0
  {
    if progress == [] then Some(false)
    else
      var job := progress[0].job;
      var rest := BurnsLeft(progress[1..]);
      assert forall i :: 1 <= i < |progress| ==> progress[i] == progress[1..][i - 1];
      if !job.finished && job.totalSize == 0 then None
      else if rest.None? then
        var j :| 0 <= j < |progress[1..]| && !progress[1..][j].job.finished && progress[1..][j].job.totalSize == 0;
        assert progress[j + 1] == progress[1..][j];
        None
      else if !job.finished then Some(true)
      else rest
  }

  /** The scene the progress screen shows next: the done screen exactly when
      every job has finished. */
  function BurnNextScene(t: Burner.Table): Option<Scene> {
    match BurnsLeft(Burner.GetProgress(t, false).1)
    case None => None
    case Some(left) => Some(if left then Burn else BurnDone)
  }

  /** Once every worker has recorded a success or a caught error, the
      progress screen moves on. */
  lemma {:induction false} AllFinishedMovesOn(t: Burner.Table)
    requires forall i :: 0 <= i < |t.burns| ==> t.burns[i].job.finished
    ensures BurnNextScene(t) == Some(BurnDone)
  {
  }

  /** A fresh job keeps the progress screen on `burn`. */
  lemma FreshJobKeepsBurning(t: Burner.Table, size: nat, target: string)
    requires Burner.Valid(t) && size > 0
    requires forall i :: 0 <= i < |t.burns| ==> t.burns[i].job.finished || t.burns[i].job.totalSize > 0
    ensures BurnNextScene(Burner.Submit(t, size, target).0) == Some(Burn)
  {
    var t' := Burner.Submit(t, size, target).0;
    assert t'.burns == t.burns + [Burner.Entry(t.nextId, Burner.NewJob(size, target))];
    assert !t'.burns[|t.burns|].job.finished;
  }

  // ---------------------------------------------------------------------
  // Image update: the zip member

  /** The loop over the archive's entries (name, size): the first entry of
      the largest positive size, or `("", 0)` when none has a positive
      size. */
  method LargestMember(entries: seq<(string, nat)>) returns (name: string, size: nat)
    ensures forall k :: 0 <= k < |entries| ==> entries[k].1 <= size
    ensures size == 0 ==> name == ""
    ensures size > 0 ==> exists i :: 0 <= i < |entries| && FirstLargest(entries, i) && entries[i] == (name, size)
  {
    name, size := "", 0;
    var i := 0;
    while i < |entries|
      invariant 0 <= i <= |entries|
      invariant forall k :: 0 <= k < i ==> entries[k].1 <= size
      invariant size == 0 ==> name == ""
      invariant size > 0 ==> exists j :: 0 <= j < i && entries[j] == (name, size) && forall k :: 0 <= k < j ==> entries[k].1 < size
    {
      if entries[i].1 > size {
        size := entries[i].1;
        name := entries[i].0;
      }
      i := i + 1;
    }
  }

  /** Entry `i` is at least as large as every entry and larger than every
      earlier one. */
  predicate FirstLargest(entries: seq<(string, nat)>, i: nat)
    requires i < |entries|
  {
    && (forall k :: 0 <= k < |entries| ==> entries[k].1 <= entries[i].1)
    && (forall k :: 0 <= k < i ==> entries[k].1 < entries[i].1)
  }

  // ---------------------------------------------------------------------
  // Wi-Fi form

  predicate IsLowerAlnum(c: char) {
    ('0' <= c <= '9') || ('a' <= c <= 'z')
  }

  /** Length of the longest prefix of `[0-9a-z]`. */
  function LowerAlnumRun(s: string): (n: nat)
    ensures n <= |s| && forall k :: 0 <= k < n ==> IsLowerAlnum(s[k])
    ensures n < |s| ==> !IsLowerAlnum(s[n])
  {
    if s == [] || !IsLowerAlnum(s[0]) then 0 else 1 + LowerAlnumRun(s[1..])
  }

  /** The university user name against `re.match(r"[0-9a-z]+$", s)`: the
      greedy run must reach the end, or stop at a final newline, where `$`
      also matches. */
  predicate UninameValid(s: string) {
    var n := LowerAlnumRun(s);
    n >= 1 && (n == |s| || (n == |s| - 1 && s[n] == '\n'))
  }

  /** A prefix of `n` characters of `[0-9a-z]`, ending the string or
      followed only by a newline. */
  predicate UninameShape(s: string, n: nat) {
    && 1 <= n <= |s|
    && (forall k :: 0 <= k < n ==> IsLowerAlnum(s[k]))
    && (n == |s| || (n == |s| - 1 && s[n] == '\n'))
  }

  /** The same language described directly: one or more of `[0-9a-z]`,
      optionally followed by one newline. */
  lemma UninameValidIff(s: string)
    ensures UninameValid(s) <==> exists n: nat :: UninameShape(s, n)
  {
    if exists n: nat :: UninameShape(s, n) {
      var n: nat :| UninameShape(s, n);
      RunCovers(s, n);
      if n == |s| - 1 {
        assert !IsLowerAlnum(s[n]);
      }
    }
    if UninameValid(s) {
      assert UninameShape(s, LowerAlnumRun(s));
    }
  }

  lemma {:induction false} RunCovers(s: string, n: nat)
    requires n <= |s| && forall k :: 0 <= k < n ==> IsLowerAlnum(s[k])
    ensures LowerAlnumRun(s) >= n
  {
    if n > 0 {
      RunCovers(s[1..], n - 1);
    }
  }

  predicate IsAsciiWord(c: char) {
    ('a' <= c <= 'z') || ('A' <= c <= 'Z') || ('0' <= c <= '9') || c == '_'
  }

  /** The home network name against `re.match(r"\w|\s", s)`: only the first
      character is looked at. */
  predicate WifiNameValid(s: string) {
    |s| >= 1 && (IsAsciiWord(s[0]) || IsSpace(s[0]))
  }

  predicate UniPasswordValid(s: string) {
    |s| >= 1
  }

  predicate WifiPasswordValid(s: string) {
    |s| >= 8
  }

  datatype WifiForm = WifiForm(uniname: string, unipw: string, wifiname: string, wifipw: string)

  /** `WifiFrame.update`: OK is enabled exactly when every field passes: a
      user name of `[0-9a-z]` characters (a final newline allowed), a
      university password of at least one character, a network name that
      starts with a word or space character, and a network password of at
      least eight characters. */
  function WifiOkDisabled(form: WifiForm): (disabled: bool)
    ensures !disabled <==>
      && (exists n: nat :: UninameShape(form.uniname, n))
      && |form.unipw| >= 1
      && |form.wifiname| >= 1 && (IsAsciiWord(form.wifiname[0]) || IsSpace(form.wifiname[0]))
      && |form.wifipw| >= 8
  {
    UninameValidIff(form.uniname);
    !(UninameValid(form.uniname) && UniPasswordValid(form.unipw)
      && WifiNameValid(form.wifiname) && WifiPasswordValid(form.wifipw))
  }
}
