# python_pi_burner core, modelled in Dafny

python_pi_burner writes Raspberry Pi OS images to SD cards from a Windows
text-mode front end, then patches each card's boot partition. This project
models the sequential logic inside that I/O-heavy program and proves
properties of it:

- **VHD footer** (`image_edit.py`, modules `BigEndian`, `VhdGeometry` and
  `VhdFooter`). `add_vhd_footer` appends a 512-byte fixed-disk footer to a
  raw image so that Windows can attach it; `remove_vhd_footer` strips it.
  - The layout and checksum follow the "Hard Disk Footer Format" section of
    Microsoft's Virtual Hard Disk Image Format Specification.
  - The geometry comes from the program's own divisor-absorbing loop.
  - Both ways the loop can go wrong are explicit outcomes. It can spin
    forever: a 512 GiB image does. And `bytes()` rejects more than 255
    heads: a 256 GiB image gets 256.
  - Images are `seq<byte>`.
- **Boot configuration edits** (`image_edit.py`, modules `PyStr`,
  `BootConfig` and `DynamicFiles`):
  - `_add_setting`, the line-oriented upsert of `key=value` into
    `config.txt`;
  - the two calls of it in `add_dynamic_files`;
  - the kernel command-line rewrite;
  - `FatDiskPath`'s `/` operator;
  - the line-end normalisation of `write_text`.

  `PyStr` holds the parts of Python's `str` these rely on.
- **Burn job table** (`burn.py`, module `Burner`). This is
  `ImageBurner`'s dictionary of jobs plus its id counter, as a sequential
  state machine. It covers submit, the progress callback, the worker's
  outcome, `get_progress`, the selection step of `wait`, `cancel` and
  `clear`.
- **Location paths** (`burn.py`, module `Location`). `_rewrite_location`
  turns Windows location paths into USB port numbers. The regular
  expression is modelled as a scanner.
- **Front-end decisions** (`imager.py`, module `Imager`). These are taken
  out of the asciimatics frames as functions of plain inputs:
  - port numbering and the burn-ready screen;
  - the burns `ok` starts;
  - the menu's flag settings;
  - the zip member picked;
  - the move to the done screen;
  - the Wi-Fi form's validators.

The code and its documentation disagree in places; the model follows the
code:
- `remove_vhd_footer` on a file shorter than 512 bytes raises, because it
  seeks 512 bytes before the end. It does not treat the footer as absent.
  `RemoveFooter` gives `None` there.
- `_add_setting` keeps every line that already sets the key to the value,
  so duplicates survive. There is no guarantee of exactly one such line.
- `get_progress(only_updated=True)` returns every job, not only the
  updated ones. Both branches of its loop append.

## Model

| member | source | states |
|---|---|---|
| BigEndian.Pack4 | image_edit.py:277-279 | four bytes that read back, big-endian, as the value packed |
| BigEndian.Pack8 | image_edit.py:282-284 | eight bytes that read back, big-endian, as the value packed |
| BigEndian.UnpackPack | image_edit.py:277-284 | reading packed bytes gives the value back |
| BigEndian.PackUnpack | image_edit.py:277-284 | packing a read value gives the bytes back |
| BigEndian.XorAllOnes | image_edit.py:374 | `c ^ (2^n - 1)` is the ones' complement `2^n - 1 - c` for `c < 2^n` |
| VhdGeometry.AbsorbOnce | image_edit.py:345-354 | one absorbing step keeps cylinders × heads × sectors and divides the cylinders; it is stuck exactly when heads ≥ 16, sectors ≥ 128 and heads > 128 |
| VhdGeometry.Absorb | image_edit.py:344-357 | when the loop ends, cylinders are below 32768 and the product is conserved; a geometry already below the bound is returned unchanged |
| VhdGeometry.Geometry | image_edit.py:340-357 | a terminating loop gives heads and sectors ≥ 1, cylinders < 32768 and product = size div 512 |
| VhdGeometry.ChsLoop | image_edit.py:340-357 | the while loop itself computes the same geometry; cylinders × heads × sectors = size div 512 and cylinders < 32768 on exit |
| VhdGeometry.HeadsOverflowAt256GiB | image_edit.py:340-360 | a 2^38-byte image ends the loop with 256 heads, too many for one byte |
| VhdGeometry.LoopHangsAt512GiB | image_edit.py:344-357 | a 2^39-byte image reaches a state where no branch fires and the loop never ends |
| VhdFooter.Checksum | image_edit.py:370-375 | the checksum is the ones' complement of the byte sum of the footer and fits in 32 bits |
| VhdFooter.Footer | image_edit.py:327-376 | the footer is exactly 512 bytes |
| VhdFooter.FooterLayout | image_edit.py:327-375 | every field of the footer: cookie, features, version, all-ones data offset, creator `pim\0`, both sizes big-endian, geometry bytes, disk type 2, checksum recomputable with its field zeroed, UID, zero padding |
| VhdFooter.DecodeFooter | image_edit.py:327-376 | a reader that checks cookie and checksum recovers both sizes, the geometry and the fixed-disk type |
| VhdFooter.RemoveFooter | image_edit.py:383-391 | fails exactly on files shorter than 512 bytes; otherwise drops the last 512 bytes exactly when bytes 28..31 of them are `pim\0` |
| VhdFooter.AddFooter | image_edit.py:321-377 | fails exactly on files shorter than 512 bytes; never terminates exactly when the cylinder-halving loop cannot end; is rejected by `bytes()` (stripped image kept) exactly when heads or sectors exceed 255; otherwise the result is the stripped image followed by exactly `Footer(size, geometry)`, whose fields `FooterLayout` states; it decodes to its size, the computed geometry and geometry volume = size div 512 |
| VhdFooter.SmallImageAppended | image_edit.py:340-377 | an image under 32768 sectors gets a footer with geometry `(sectors, 1, 1)` |
| VhdFooter.RemoveAfterAdd | image_edit.py:321-391 | `remove(add(x)) == remove(x)` |
| VhdFooter.StripAppendRoundTrip | image_edit.py:321-391 | on an image without a footer, removing the added footer gives the image back |
| VhdFooter.AddIdempotent | image_edit.py:321-391 | `add(add(x)) == add(x)` |
| VhdFooter.HeadsOverflowRejected | image_edit.py:360-369 | a 256 GiB image is rejected by `bytes()` and left unchanged |
| VhdFooter.AddHangsAt512GiB | image_edit.py:340-357 | on a 512 GiB image the footer code never terminates |
| PyStr.SplitJoin | image_edit.py:113 | splitting on a separator undoes joining pieces that do not contain it |
| PyStr.SplitJoinLines | image_edit.py:100-132 | splitting the text the loop writes gives back the lines it wrote |
| PyStr.ParseNatToString | burn.py:68-70 | `int(str(n)) == n` |
| BootConfig.CodePart | image_edit.py:101-111 | the part of a line before its first `#`: a prefix of the line without `#`, which stops only at a `#` and is the whole line when there is none |
| BootConfig.AddSetting | image_edit.py:96-136 | the output is never empty and ends in `"\n"` |
| BootConfig.ParseOwnSetting | image_edit.py:113-131 | the parse of `key=value` gives back key and value, for keys with at most one `=` |
| BootConfig.SettingSets | image_edit.py:99-122 | the written line `key=value` is recognised as setting the key to the value |
| BootConfig.BlankCodeIsNoSetting | image_edit.py:113-131 | a line whose code part is blank is not a setting |
| BootConfig.ScanOutputSettled | image_edit.py:100-132 | every line the loop emits is kept by a second pass; the found flag is true exactly when an emitted line sets the key to the value |
| BootConfig.UpsertSettles | image_edit.py:100-135 | after the upsert some line sets the key to the value and no line needs changing |
| BootConfig.SettledFixpoint | image_edit.py:100-135 | text already holding the setting, with no line to change, is left as it is |
| BootConfig.UpsertLinesIdempotent | image_edit.py:100-135 | upserting the same setting twice gives the lines of one upsert |
| BootConfig.AddSettingIdempotent | image_edit.py:96-136 | `_add_setting(k,v,_add_setting(k,v,t)) == _add_setting(k,v,t)` for well-formed key and value |
| BootConfig.UpsertKeepsUnrelated | image_edit.py:100-132 | lines that neither set the key nor are a commented copy of the setting pass through verbatim and in order |
| BootConfig.UnrelatedMembers | image_edit.py:100-132 | a line is among the passed-through ones exactly when it is an input line unrelated to the key |
| BootConfig.ScanLength | image_edit.py:100-132 | the loop emits one line less per line that sets the key to another value; it reports the setting found exactly when a line set it or was a commented copy |
| BootConfig.AddSettingLines | image_edit.py:96-136 | the output text splits into the upserted lines |
| BootConfig.UpsertKeepsClean | image_edit.py:96-136 | the output contains no line break other than `"\n"` |
| BootConfig.ClassifyOtherSetting | image_edit.py:113-131 | a setting line for another key is unrelated to this key |
| BootConfig.SettingLineUnrelated | image_edit.py:101-131 | a line that sets one key to its value is unrelated to every other key |
| BootConfig.SecondKeepsSettled | image_edit.py:153-154 | setting a second key keeps the first setting present and settled |
| BootConfig.AddTwoSettings | image_edit.py:153-154 | the two upserts in a row give text ending in `"\n"` with no other line break |
| BootConfig.UpsertPairIdempotent | image_edit.py:153-154 | applying both upserts to their own output changes nothing |
| DynamicFiles.Slash | image_edit.py:30-34 | the root is kept; a lone name becomes the file; otherwise the result is the old name, a `/`, then the new name |
| DynamicFiles.PathOfJoins | image_edit.py:30-34 | a chain of `/` gives the names joined with `/` |
| DynamicFiles.PathOfSplits | image_edit.py:30-34 | splitting the file name on `/` gives back names free of `/` |
| DynamicFiles.WriteTextLf | image_edit.py:36-38 | with `newline="\n"` the text written is the text with every carriage return right before a line feed dropped |
| DynamicFiles.DropCrNoCr | image_edit.py:36-38 | text without carriage returns is written unchanged |
| DynamicFiles.WriteCleanText | image_edit.py:36-38 | text without line breaks other than `"\n"` is written unchanged |
| DynamicFiles.SystemdMatch | image_edit.py:144 | a match of ` systemd.\S+` starts with ` systemd` and is at least ten characters long |
| DynamicFiles.RemoveSystemdDeletes | image_edit.py:144 | the `re.sub` only deletes characters |
| DynamicFiles.RemoveSystemdNoMatch | image_edit.py:144 | without ` systemd` anywhere the text is unchanged |
| DynamicFiles.ReplaceEmptyDeletes | image_edit.py:143 | replacing by `""` only deletes characters |
| DynamicFiles.SubsequenceTrans | image_edit.py:142-145 | deletions compose: a subsequence of a subsequence is a subsequence |
| DynamicFiles.RewriteCmdline | image_edit.py:142-145 | the new command line ends with the fixed run options, and what comes before them is the stripped old one with characters deleted |
| DynamicFiles.SettingsWellFormed | image_edit.py:153-154 | `enable_uart=1` and `dtparam=i2c_arm=on` are well-formed settings with different keys |
| DynamicFiles.PatchConfig | image_edit.py:151-155 | the written `config.txt` ends in `"\n"` and has no other kind of line break |
| DynamicFiles.PatchConfigSets | image_edit.py:151-155 | after the edit both UART and I2C are set to the wanted values, and no line gives either key another value |
| DynamicFiles.PatchConfigIdempotent | image_edit.py:151-155 | patching a card twice gives the same `config.txt` as patching it once |
| Burner.Init | burn.py:13-15 | the table starts empty and valid |
| Burner.IndexOf | burn.py:138 | the position of the first entry with the id, or -1 exactly when no entry has it |
| Burner.Submit | burn.py:167-179 | the id is the counter, which is incremented; the new job is the fresh record, the id was absent before, every other id looks up as before, and the id comes last in order |
| Burner.Progress | burn.py:137-144 | on a known id only the byte count and the updated flag change, and the copy goes on unless cancelled; an unknown id changes nothing and stops the copy |
| Burner.Finish | burn.py:146-165 | success records 0 and the success message for the mode; RuntimeError records 1, IOError 2, each with its message; these finish the job; other exceptions leave it unfinished; the last text is set; in every outcome the worker has ended; nothing else changes |
| Burner.SetPhase | burn.py:146-151 | the worker's phase write sets only that job's text to `Burning image` or `Copying contents`; an unknown id changes nothing |
| Burner.PhaseReported | burn.py:24-33 | after a phase write, the next progress report carries that job with the phase text |
| Burner.GetProgress | burn.py:24-33 | every job is returned in insertion order whatever the flag; with the flag all updated flags are cleared, without it the table is unchanged |
| Burner.ClearUpdated | burn.py:27-30 | every entry keeps its id and job except for a cleared updated flag |
| Burner.FirstUpdated | burn.py:41-45 | the first position whose job is updated, or -1 exactly when none is |
| Burner.WaitSelect | burn.py:38-46 | returns none exactly when no job is updated, and then nothing changes; otherwise it returns the first updated job with only its flag cleared |
| Burner.MarkCancelled | burn.py:185-186 | every job is marked cancelled and nothing else changes |
| Burner.Clear | burn.py:196-197 | the table is emptied and the counter kept |
| Burner.Cancel | burn.py:184-194 | spins forever exactly when some job is unfinished and its worker has already ended; otherwise every job was marked cancelled, then the table is emptied and the counter kept |
| Burner.CancelHangsAfterEscape | burn.py:146-194 | a worker that escapes with an unexpected exception leaves its job unfinished, after which `cancel` never returns |
| Burner.Step | burn.py:24-197 | every operation, phase writes and a cancel that spins forever included, keeps the table valid; only submit advances the counter and hands out an id, the old counter value |
| Burner.IdsNeverReused | burn.py:167-197 | over any run the ids handed out are strictly increasing, at least the starting counter and below the final one, even across `clear` and `cancel` |
| Burner.CancelledStays | burn.py:137-197 | no operation sets a cancelled flag back to False |
| Burner.ProgressThenWait | burn.py:38-46 | when no job was updated, a progress report makes the next `wait` return that job |
| Location.WordLen | burn.py:63 | the longest run of word characters at the start |
| Location.DigitLen | burn.py:63 | the longest run of digits at the start |
| Location.MatchAt | burn.py:63 | a match of `(\w+)\((\d+)\)` is at least four characters and fits in the text |
| Location.LastRoot | burn.py:64-70 | the position of the last `USBROOT` token, or -1 exactly when there is none |
| Location.WalkClosedForm | burn.py:65-70 | the loop's result: the numbers from the last `USBROOT` token on; the started list extended when there is none; none when nothing started |
| Location.RewriteLocation | burn.py:61-72 | the result is empty exactly when no path has a `USBROOT` token |
| Location.RewriteFirstRootPath | burn.py:62-71 | the first path with a `USBROOT` token decides; the result is the number of its last `USBROOT` followed by the later numbers |
| Location.MatchToken | burn.py:63 | the pattern matches a written `name(number)` token exactly, whatever follows |
| Location.FindAllRender | burn.py:63 | reading a `#`-joined path of tokens gives the tokens back |
| Location.RewriteRendered | burn.py:61-72 | for a written path, the result is the numbers from its last `USBROOT` on, or empty when it has none |
| Imager.PortIndex | imager.py:164-172 | a location one shorter than the longest gives its last port `x`; one of the longest length gives `y + 2 + (x1 - 3) * 4` from its last two ports `x1, y`, failing on a list too short to index; other lengths keep the previous number |
| Imager.PortNumbering | imager.py:159-170 | sub-hub ports 3 and 4 with sub-ports 1..4 get the numbers `LOCATION_ORDER` lists; main-hub ports keep their number |
| Imager.MainPortNumbering | imager.py:159-167 | main ports 1 and 2 get numbers 1 and 2 |
| Imager.SubHubNumbersDistinct | imager.py:168-170 | sub-hub positions map one-to-one onto 3..10 |
| Imager.MaxLen | imager.py:161-162 | the longest location length among the disks |
| Imager.DiskLines | imager.py:164-173 | no disks give no lines; the first line is `device:model @ Port n` with `n` the first disk's port number, and the listing fails when that number cannot be computed |
| Imager.InitialView | imager.py:139-142 | the first view keeps OK enabled, labelled `OK`, and shows no card request |
| Imager.ReadyUpdate | imager.py:151-187 | no disks: OK disabled, empty button text and the insert-a-card message; otherwise the update succeeds exactly when `DiskLines` can number every disk, and then the label is `About to burn N sd cards`, with N the disk count, followed by those disk lines; a changed label re-enables OK |
| Imager.HeaderIsNotNoCard | imager.py:174-182 | the burn header never reads as the insert-a-card message |
| Imager.ReadyUpdateConsistent | imager.py:174-187 | OK stays disabled exactly while the label asks for a card |
| Imager.HeaderCount | imager.py:179-182 | the count in the header reads back as the number of disks |
| Imager.MenuAction | imager.py:394-450 | the lab actions change nothing without `networks.lab.conf`; `prepatched_image` ends true only after the prepatched burn; that burn keeps `contents_only`; burn scenes keep `patch_image`; update scenes change only the two image flags; once the entry goes ahead, the scene is the one the entry names |
| Imager.MenuActionIdempotent | imager.py:394-450 | choosing the same entry again sets the same flags and scene |
| Imager.MenuBurnModes | imager.py:394-450 | each of the eight entries sets exactly its listed flags, keeps the others, and goes to its listed scene |
| Imager.MenuIgnoresLabConf | imager.py:394-450 | entries other than the two lab ones do not depend on `networks.lab.conf` |
| Imager.OkRequests | imager.py:195-205 | one burn per disk, in order, for that disk, with the source chosen by `prepatched_image` and `contents_only` and `prepatched` passed through |
| Imager.MenuChoosesSource | imager.py:196-199 | after the prepatched burn entry every burn reads `raspios_prepatched.img`; after the others `raspios.img` |
| Imager.SubmitAll | imager.py:195-205 | submitting one burn per target keeps the earlier jobs, appends fresh jobs with consecutive ids in target order and advances the counter by the number of targets |
| Imager.Ok | imager.py:193-205 | after `ok`, as submitted and before any worker step, the table holds exactly one fresh job per disk, for that disk, in disk order, with ids continuing from the counter |
| Imager.BurnsLeft | imager.py:303-343 | no burns are left exactly when every job has finished; the division fails exactly when an unfinished job has total size 0 |
| Imager.AllFinishedMovesOn | imager.py:343-346 | once every job has finished the screen moves to `burn_done` |
| Imager.FreshJobKeepsBurning | imager.py:321-329 | a newly submitted job keeps the progress screen on `burn` |
| Imager.LargestMember | imager.py:605-611 | the chosen member has the largest size and no earlier member is as large; with no positive size the name is `""` |
| Imager.LowerAlnumRun | imager.py:77 | the longest run of `[0-9a-z]` at the start |
| Imager.UninameValidIff | imager.py:77 | the user name passes exactly when it is one or more of `[0-9a-z]`, optionally followed by one newline |
| Imager.WifiOkDisabled | imager.py:77-112 | OK is enabled exactly when the user name is valid, the university password is non-empty, the network name starts with a word or space character and the network password has at least 8 characters |

## Left out

- Threads, `threading.Event`, the worker threads and the busy wait in `cancel`. Each operation is one sequential state change; `Cancel` is the state after every running worker has finished, or `None` when a job's worker has already ended without finishing it.
- Burner.Cancel: assumes every worker still running finishes its job; a running worker that later escapes with an unexpected exception would also make `cancel` spin, which the model does not show.
- The wait on the event in `burn_image_to_disk` and in `wait`. Only the selection after the wake-up is modelled.
- WMI device discovery (`disk_scan_thread_fn`, `new_drive`, `rescan_disks`, `_get_disk_path`). These are Windows COM calls. A disk's location is an input of `Imager`.
- `rawdisk.copy_to_disk` and `add_contents_to_raw_disk`. rawdisk is not part of this model; what the worker's two steps end in is the `Outcome` parameter of `Burner.Finish`, and the phase texts it writes on the way are `PhaseCmd` steps.
- `os.path.getsize` in `burn_image_to_disk`. The size is a parameter, and its failure, which leaves an empty record behind, is not modelled.
- FATtools volume access, diskpart, mounting, and the reading and writing of files. `FatPath` keeps the root handle as an opaque number.
- `add_dynamic_files`' `burning-date.txt`, the git date and the file copies.
- `create_init_files`, the network templates and `lmhash`. These are templating and a foreign hash.
- `vhd_chs` (image_edit.py:287-318). It is dead code that calls an undefined function.
- image_shrink.py. It is a wrapper around an external script.
- The asciimatics widgets and the float progress bars (imager.py:329-340).
- LZMA and zip decompression and file copying. Only the choice of zip member is modelled.
- Files of 2^64 bytes or more. `pack_8` raises on them, and `AddFooter` requires a smaller image.
- `PyStr.SplitLines`: only `'\n'` is a line break. Texts given to `_add_setting` must not contain the other line breaks Python's `splitlines` recognises.
- `\w` and `\d` in regular expressions are read as their ASCII classes; `\s` is read as `str.isspace` in both places it occurs, the command-line rewrite and the home network name validator (imager.py:88).
- The form validators assume asciimatics applies a string validator with `re.match`.
- DynamicFiles.RewriteCmdline: states that the kept text is the stripped input with characters deleted. It does not state which characters the two deletions remove; `SystemdMatch` and `RemoveSystemdNoMatch` describe that part.
- Imager.DiskLines: states the empty case, the first line and the failure of the first port; later lines are not stated one by one, but each uses `PortIndex`, whose contract states every port number.
- Location.MatchAt: states the bounds of a match. `MatchToken` proves that it reads written tokens exactly.
- `new_drive` gives every disk the location `(1, 1)` and is not modelled. With that location, a disk whose location is the longest gets port 1 + 2 + (1 − 3)·4 = −5 from `PortIndex`.
- `write_text` on the command line: `WriteTextLf` covers the line-end normalisation. The rewritten command line is not passed through it again in the model.
