/** The bookkeeping of `ImageBurner`: a table of burn jobs keyed by id, in
    insertion order (the order a Python `dict` iterates in), and the counter
    that hands out ids. Threads, the wake-up event and the busy wait in
    `cancel` are abstracted: each operation is one sequential state change. */
module Burner {
  import opened Options

  /** One job record, the dictionary `self.burns[id]`. `result` and `output`
      are absent until the worker records an outcome. `workerEnded` stands
      for the state of the record's thread `thd`: whether the worker has
      returned, normally or by an exception that escaped it. */
  datatype Job = Job(
    cancelled: bool,
    text: string,
    finished: bool,
    totalSize: nat,
    target: string,
    updated: bool,
    bytesTransferred: int,
    result: Option<int>,
    output: Option<string>,
    workerEnded: bool)

  datatype Entry = Entry(id: nat, job: Job)

  /** `self.burns` (in insertion order) and `self.next_id`. */
  datatype Table = Table(burns: seq<Entry>, nextId: nat)

  function Init(): (t: Table)
    ensures Valid(t) && t.burns == []
  {
    Table([], 1)
  }

  /** Ids are handed out in increasing order and never reach `nextId`. */
  predicate Valid(t: Table) {
    && t.nextId >= 1
    && (forall i, j :: 0 <= i < j < |t.burns| ==> t.burns[i].id < t.burns[j].id)
    && (forall i :: 0 <= i < |t.burns| ==> 1 <= t.burns[i].id < t.nextId)
  }

  function Ids(burns: seq<Entry>): (r: seq<nat>)
    ensures |r| == |burns| && forall i :: 0 <= i < |burns| ==> r[i] == burns[i].id
  {
    if burns == [] then [] else [burns[0].id] + Ids(burns[1..])
  }

  /** Position of the entry with this id, or -1 when the table has none. */
  function IndexOf(burns: seq<Entry>, id: nat): (r: int)
    ensures -1 <= r < |burns|
    ensures r >= 0 ==> burns[r].id == id && forall k :: 0 <= k < r ==> burns[k].id != id
    ensures r < 0 <==> forall k :: 0 <= k < |burns| ==> burns[k].id != id
  {
    if burns == [] then -1
    else if burns[0].id == id then 0
    else
      var r := IndexOf(burns[1..], id);
      if r < 0 then -1 else r + 1
  }

  function Lookup(t: Table, id: nat): Option<Job> {
    var i := IndexOf(t.burns, id);
    if i < 0 then None else Some(t.burns[i].job)
  }

  /** The record `burn_image_to_disk` creates. */
  function NewJob(totalSize: nat, target: string): Job {
    Job(false, "", false, totalSize, target, true, 0, None, None, false)
  }

  /** `burn_image_to_disk`: the new id and the table with the new job added
      last. The size of the source image is a parameter. */
  function Submit(t: Table, totalSize: nat, target: string): (r: (Table, nat))
    requires Valid(t)
    ensures Valid(r.0)
    ensures r.1 == t.nextId && r.0.nextId == t.nextId + 1
    ensures Lookup(r.0, r.1) == Some(NewJob(totalSize, target))
    ensures Lookup(t, r.1) == None
    ensures forall id :: id != r.1 ==> Lookup(r.0, id) == Lookup(t, id)
    ensures Ids(r.0.burns) == Ids(t.burns) + [r.1]
  {
    var id := t.nextId;
    var t' := Table(t.burns + [Entry(id, NewJob(totalSize, target))], t.nextId + 1);
    SubmitFacts(t, id, NewJob(totalSize, target));
    AppendValid(t, NewJob(totalSize, target));
    (t', id)
  }

  /** The new job goes last. */
  lemma SubmitAppends(t: Table, totalSize: nat, target: string)
    requires Valid(t)
    ensures Submit(t, totalSize, target).0.burns == t.burns + [Entry(t.nextId, NewJob(totalSize, target))]
  {
  }

  /** A job added under the counter's id keeps the table valid. */
  lemma AppendValid(t: Table, job: Job)
    requires Valid(t)
    ensures Valid(Table(t.burns + [Entry(t.nextId, job)], t.nextId + 1))
  {
    var burns := t.burns + [Entry(t.nextId, job)];
    assert forall i :: 0 <= i < |t.burns| ==> burns[i] == t.burns[i];
  }

  lemma SubmitFacts(t: Table, id: nat, job: Job)
    requires Valid(t) && id == t.nextId
    ensures var burns := t.burns + [Entry(id, job)];
      && IndexOf(t.burns, id) < 0
      && IndexOf(burns, id) == |t.burns|
      && (forall k :: k != id ==> IndexOf(burns, k) == IndexOf(t.burns, k))
      && Ids(burns) == Ids(t.burns) + [id]
  {
    var burns := t.burns + [Entry(id, job)];
    forall k | k != id
      ensures IndexOf(burns, k) == IndexOf(t.burns, k)
    {
      IndexOfAppend(t.burns, Entry(id, job), k);
    }
    IndexOfAppend(t.burns, Entry(id, job), id);
  }

  lemma {:induction false} IndexOfAppend(burns: seq<Entry>, e: Entry, id: nat)
    ensures IndexOf(burns + [e], id)
         == if IndexOf(burns, id) >= 0 then IndexOf(burns, id)
            else if e.id == id then |burns| else -1
  {
    if burns != [] {
      assert (burns + [e])[1..] == burns[1..] + [e];
      IndexOfAppend(burns[1..], e, id);
    }
  }

  /** Replaces the job at position `i`, keeping its id. */
  function SetJob(t: Table, i: nat, job: Job): (r: Table)
    requires i < |t.burns|
    ensures Ids(r.burns) == Ids(t.burns) && r.nextId == t.nextId
    ensures r.burns[i].job == job
    ensures forall k :: 0 <= k < |t.burns| && k != i ==> r.burns[k] == t.burns[k]
  {
    Table(t.burns[i := Entry(t.burns[i].id, job)], t.nextId)
  }

  /** `_burn_progress(current, total, id)`: records the bytes copied and
      marks the job updated; the copy goes on while the job is not
      cancelled. An unknown id stops the copy and changes nothing. */
  function Progress(t: Table, id: nat, current: int): (r: (Table, bool))
    ensures Lookup(t, id) == None ==> r == (t, false)
    ensures Lookup(t, id).Some? ==>
      && r.1 == !Lookup(t, id).value.cancelled
      && Lookup(r.0, id) == Some(Lookup(t, id).value.(bytesTransferred := current, updated := true))
    ensures Ids(r.0.burns) == Ids(t.burns) && r.0.nextId == t.nextId
    ensures forall k :: k != id ==> Lookup(r.0, k) == Lookup(t, k)
  {
    var i := IndexOf(t.burns, id);
    if i < 0 then (t, false)
    else
      var job := t.burns[i].job;
      var t' := SetJob(t, i, job.(bytesTransferred := current, updated := true));
      SetJobLookup(t, i, t'.burns[i].job);
      (t', !job.cancelled)
  }

  /** Replacing one job leaves every lookup of another id alone. */
  lemma SetJobLookup(t: Table, i: nat, job: Job)
    requires i < |t.burns| && IndexOf(t.burns, t.burns[i].id) == i
    ensures Lookup(SetJob(t, i, job), t.burns[i].id) == Some(job)
    ensures forall k :: k != t.burns[i].id ==> Lookup(SetJob(t, i, job), k) == Lookup(t, k)
  {
    var t' := SetJob(t, i, job);
    forall k
      ensures IndexOf(t'.burns, k) == IndexOf(t.burns, k)
    {
      SameIdsSameIndex(t.burns, t'.burns, k);
    }
  }

  lemma {:induction false} SameIdsSameIndex(a: seq<Entry>, b: seq<Entry>, id: nat)
    requires Ids(a) == Ids(b)
    ensures IndexOf(a, id) == IndexOf(b, id)
  {
    if a != [] {
      assert Ids(a)[0] == Ids(b)[0];
      assert Ids(a[1..]) == Ids(a)[1..];
      assert Ids(b[1..]) == Ids(b)[1..];
      SameIdsSameIndex(a[1..], b[1..], id);
    }
  }

  /** What the worker's copy step and patch step end in. */
  datatype Error = RuntimeError(message: string) | IOError(message: string) | OtherError
  datatype Phase = Copying | Patching
  datatype Outcome = Completed | Raised(phase: Phase, error: Error)

  /** The `text` the worker writes as it enters a phase. */
  function PhaseLabel(p: Phase): string {
    match p
    case Copying => "Burning image"
    case Patching => "Copying contents"
  }

  /** The `text` the worker last wrote: the copy label while copying (only
      when not `contents_only`), then the patch label. */
  function PhaseText(contentsOnly: bool, outcome: Outcome): string {
    if !contentsOnly && outcome.Raised? && outcome.phase == Copying then PhaseLabel(Copying)
    else PhaseLabel(Patching)
  }

  /** The worker entering a phase: it writes the phase's label into `text`
      and nothing else. A job removed meanwhile makes that write raise a
      `KeyError`, which ends the worker: nothing changes. */
  function SetPhase(t: Table, id: nat, p: Phase): (r: Table)
    ensures Lookup(t, id) == None ==> r == t
    ensures Lookup(t, id).Some? ==> Lookup(r, id) == Some(Lookup(t, id).value.(text := PhaseLabel(p)))
    ensures Ids(r.burns) == Ids(t.burns) && r.nextId == t.nextId
    ensures forall k :: k != id ==> Lookup(r, k) == Lookup(t, k)
  {
    var i := IndexOf(t.burns, id);
    if i < 0 then t
    else
      var job := t.burns[i].job.(text := PhaseLabel(p));
      SetJobLookup(t, i, job);
      SetJob(t, i, job)
  }

  /** The label the worker wrote is what `get_progress` reports for the job
      from then on, whatever `only_updated` is. */
  lemma PhaseReported(t: Table, id: nat, p: Phase, onlyUpdated: bool)
    requires Lookup(t, id).Some?
    ensures var r := GetProgress(SetPhase(t, id, p), onlyUpdated);
      exists k :: 0 <= k < |r.1| && r.1[k].id == id && r.1[k].job.text == PhaseLabel(p)
  {
    var t' := SetPhase(t, id, p);
    var r := GetProgress(t', onlyUpdated);
    var i := IndexOf(t'.burns, id);
    SameIdsSameIndex(t'.burns, r.1, id);
    assert r.1[i].job.(updated := t'.burns[i].job.updated) == t'.burns[i].job;
  }

  const BurntMessage: string := "Burnt and patched successfully"
  const PatchedMessage: string := "Patched successfully"

  /** `_burn_thread` after it ran: success records 0 and a message, a
      `RuntimeError` 1, an `IOError` 2 (each with the error's message); any
      other exception escapes the thread and the job never finishes. Either
      way the worker has ended. A job removed from the table meanwhile makes
      the thread fail on its first lookup: nothing changes. */
  function Finish(t: Table, id: nat, contentsOnly: bool, outcome: Outcome): (r: Table)
    ensures Lookup(t, id) == None ==> r == t
    ensures Lookup(t, id).Some? ==> (
      Lookup(r, id).Some? &&
      var before := Lookup(t, id).value;
      var after := Lookup(r, id).value;
      && after.text == PhaseText(contentsOnly, outcome)
      && after.workerEnded
      && (after.finished <==> before.finished || !(outcome.Raised? && outcome.error.OtherError?))
      && (outcome.Completed? ==>
            after.result == Some(0)
            && after.output == Some(if contentsOnly then PatchedMessage else BurntMessage))
      && (outcome.Raised? && outcome.error.RuntimeError? ==>
            after.result == Some(1) && after.output == Some(outcome.error.message))
      && (outcome.Raised? && outcome.error.IOError? ==>
            after.result == Some(2) && after.output == Some(outcome.error.message))
      && (outcome.Raised? && outcome.error.OtherError? ==>
            after.result == before.result && after.output == before.output)
      && after.(text := before.text, finished := before.finished, result := before.result, output := before.output,
                workerEnded := before.workerEnded)
         == before)
    ensures Ids(r.burns) == Ids(t.burns) && r.nextId == t.nextId
    ensures forall k :: k != id ==> Lookup(r, k) == Lookup(t, k)
  {
    var i := IndexOf(t.burns, id);
    if i < 0 then t
    else
      var job := t.burns[i].job.(text := PhaseText(contentsOnly, outcome), workerEnded := true);
      var job' :=
        match outcome
        case Completed =>
          job.(result := Some(0), output := Some(if contentsOnly then PatchedMessage else BurntMessage),
               finished := true)
        case Raised(_, RuntimeError(m)) => job.(result := Some(1), output := Some(m), finished := true)
        case Raised(_, IOError(m)) => job.(result := Some(2), output := Some(m), finished := true)
        case Raised(_, OtherError) => job;
      SetJobLookup(t, i, job');
      SetJob(t, i, job')
  }

  /** `get_progress(only_updated)`: every job, in insertion order, whatever
      `only_updated` is; with `only_updated` the updated flags are cleared on
      the way. */
  function GetProgress(t: Table, onlyUpdated: bool): (r: (Table, seq<Entry>))
    ensures r.1 == r.0.burns
    ensures Ids(r.1) == Ids(t.burns) && r.0.nextId == t.nextId
    ensures forall k :: 0 <= k < |r.1| ==> r.1[k].job.(updated := t.burns[k].job.updated) == t.burns[k].job
    ensures onlyUpdated ==> forall k :: 0 <= k < |r.1| ==> !r.1[k].job.updated
    ensures !onlyUpdated ==> r.0 == t
  {
    var burns := if onlyUpdated then ClearUpdated(t.burns) else t.burns;
    (Table(burns, t.nextId), burns)
  }

  function ClearUpdated(burns: seq<Entry>): (r: seq<Entry>)
    ensures |r| == |burns|
    ensures forall k :: 0 <= k < |r| ==> r[k] == Entry(burns[k].id, burns[k].job.(updated := false))
  {
    if burns == [] then []
    else [Entry(burns[0].id, burns[0].job.(updated := false))] + ClearUpdated(burns[1..])
  }

  /** Position of the first job with its updated flag set, or -1. */
  function FirstUpdated(burns: seq<Entry>): (r: int)
    ensures -1 <= r < |burns|
    ensures r >= 0 ==> burns[r].job.updated && forall k :: 0 <= k < r ==> !burns[k].job.updated
    ensures r < 0 <==> forall k :: 0 <= k < |burns| ==> !burns[k].job.updated
  {
    if burns == [] then -1
    else if burns[0].job.updated then 0
    else
      var r := FirstUpdated(burns[1..]);
      if r < 0 then -1 else r + 1
  }

  /** The selection step of `wait`, after the event fired: the first updated
      job, with only its flag cleared; none when no job is updated. */
  function WaitSelect(t: Table): (r: (Table, Option<Entry>))
    ensures r.1.None? <==> forall k :: 0 <= k < |t.burns| ==> !t.burns[k].job.updated
    ensures r.1.None? ==> r.0 == t
    ensures r.1.Some? ==> exists i :: 0 <= i < |t.burns| && SelectedAt(t, r, i)
  {
    var i := FirstUpdated(t.burns);
    if i < 0 then (t, None)
    else
      var job := t.burns[i].job.(updated := false);
      var t' := SetJob(t, i, job);
      assert SelectedAt(t, (t', Some(Entry(t.burns[i].id, job))), i);
      (t', Some(Entry(t.burns[i].id, job)))
  }

  /** `r` is `t` with the job at `i` picked: it is the first updated one,
      it comes back with its flag cleared, and nothing else changes. */
  predicate SelectedAt(t: Table, r: (Table, Option<Entry>), i: nat)
    requires i < |t.burns|
  {
    && t.burns[i].job.updated
    && (forall k :: 0 <= k < i ==> !t.burns[k].job.updated)
    && r.1 == Some(Entry(t.burns[i].id, t.burns[i].job.(updated := false)))
    && Ids(r.0.burns) == Ids(t.burns) && r.0.nextId == t.nextId
    && r.0.burns[i] == r.1.value
    && (forall k :: 0 <= k < |t.burns| && k != i ==> r.0.burns[k] == t.burns[k])
  }

  /** The first loop of `cancel`: every job is marked cancelled. */
  function MarkCancelled(burns: seq<Entry>): (r: seq<Entry>)
    ensures |r| == |burns|
    ensures forall k :: 0 <= k < |r| ==> r[k] == Entry(burns[k].id, burns[k].job.(cancelled := true))
  {
    if burns == [] then []
    else [Entry(burns[0].id, burns[0].job.(cancelled := true))] + MarkCancelled(burns[1..])
  }

  /** `clear`: the table is emptied; the id counter is kept. */
  function Clear(t: Table): (r: Table)
    ensures r.burns == [] && r.nextId == t.nextId
    ensures Valid(t) ==> Valid(r)
  {
    t.(burns := [])
  }

  /** A job `cancel` waits for in vain: unfinished, with its worker gone. */
  predicate Orphaned(job: Job) {
    !job.finished && job.workerEnded
  }

  /** `cancel`: every job is marked cancelled, then the loop waits until
      every job has finished, then the table is emptied. The wait never ends
      when a job's worker has already returned without finishing it (an
      escaped exception): `None`. Otherwise the result is the state after
      the running workers have seen their flags and finished. */
  function Cancel(t: Table): (r: Option<(Table, seq<Entry>)>)
    ensures r.None? <==> exists k :: 0 <= k < |t.burns| && Orphaned(t.burns[k].job)
    ensures r.Some? ==> r.value.1 == MarkCancelled(t.burns)
    ensures r.Some? ==> forall k :: 0 <= k < |r.value.1| ==> r.value.1[k].job.cancelled
    ensures r.Some? ==> r.value.0.burns == [] && r.value.0.nextId == t.nextId
  {
    if exists k :: 0 <= k < |t.burns| && Orphaned(t.burns[k].job) then None
    else
      var marked := MarkCancelled(t.burns);
      Some((Clear(Table(marked, t.nextId)), marked))
  }

  /** Marking keeps the ids, so a marked table is as valid as before. */
  lemma MarkKeepsIds(t: Table)
    requires Valid(t)
    ensures Ids(MarkCancelled(t.burns)) == Ids(t.burns)
    ensures Valid(Table(MarkCancelled(t.burns), t.nextId))
  {
    var m := MarkCancelled(t.burns);
    assert forall i :: 0 <= i < |m| ==> Ids(m)[i] == Ids(t.burns)[i];
    KeepIdsValid(t, Table(m, t.nextId));
  }

  /** A worker that ends by an exception other than `RuntimeError` or
      `IOError` makes any later `cancel` spin forever. */
  lemma CancelHangsAfterEscape(t: Table, totalSize: nat, target: string, contentsOnly: bool, phase: Phase)
    requires Valid(t)
    ensures var s := Submit(t, totalSize, target);
      Cancel(Finish(s.0, s.1, contentsOnly, Raised(phase, OtherError))) == None
  {
    var s := Submit(t, totalSize, target);
    var f := Finish(s.0, s.1, contentsOnly, Raised(phase, OtherError));
    var i := IndexOf(f.burns, s.1);
    assert Orphaned(f.burns[i].job);
  }

  // ---------------------------------------------------------------------
  // A run of the burner

  datatype Command =
    | SubmitCmd(totalSize: nat, target: string)
    | ProgressCmd(id: nat, current: int)
    | FinishCmd(id: nat, contentsOnly: bool, outcome: Outcome)
    | PhaseCmd(id: nat, phase: Phase)
    | GetProgressCmd(onlyUpdated: bool)
    | WaitCmd
    | CancelCmd
    | ClearCmd

  /** One command: the new table and the id it handed out, if any. A
      `cancel` that spins forever leaves the table with every job marked
      cancelled; only the worker threads act on it after that. */
  function Step(t: Table, c: Command): (r: (Table, Option<nat>))
    requires Valid(t)
    ensures Valid(r.0)
    ensures r.0.nextId == t.nextId + (if c.SubmitCmd? then 1 else 0)
    ensures r.1.Some? <==> c.SubmitCmd?
    ensures r.1.Some? ==> r.1.value == t.nextId
  {
    match c
    case SubmitCmd(size, target) =>
      var (t', id) := Submit(t, size, target); (t', Some(id))
    case ProgressCmd(id, current) =>
      KeepIdsValid(t, Progress(t, id, current).0); (Progress(t, id, current).0, None)
    case FinishCmd(id, only, outcome) =>
      KeepIdsValid(t, Finish(t, id, only, outcome)); (Finish(t, id, only, outcome), None)
    case PhaseCmd(id, phase) =>
      KeepIdsValid(t, SetPhase(t, id, phase)); (SetPhase(t, id, phase), None)
    case GetProgressCmd(only) =>
      KeepIdsValid(t, GetProgress(t, only).0); (GetProgress(t, only).0, None)
    case WaitCmd =>
      KeepIdsValid(t, WaitSelect(t).0); (WaitSelect(t).0, None)
    case CancelCmd =>
      (match Cancel(t)
       case Some(c) => (c.0, None)
       case None => MarkKeepsIds(t); (Table(MarkCancelled(t.burns), t.nextId), None))
    case ClearCmd => (Clear(t), None)
  }

  /** A change that keeps the ids and the counter keeps the table valid. */
  lemma KeepIdsValid(t: Table, r: Table)
    requires Valid(t) && Ids(r.burns) == Ids(t.burns) && r.nextId == t.nextId
    ensures Valid(r)
  {
    assert forall i :: 0 <= i < |r.burns| ==> r.burns[i].id == Ids(t.burns)[i];
  }

  /** Running a sequence of commands: the final table and the ids handed
      out, in order. */
  function Run(t: Table, cs: seq<Command>): (r: (Table, seq<nat>))
    requires Valid(t)
    ensures Valid(r.0)
    decreases |cs|
  {
    if cs == [] then (t, [])
    else
      var first := Step(t, cs[0]);
      var rest := Run(first.0, cs[1..]);
      (rest.0, (if first.1.Some? then [first.1.value] else []) + rest.1)
  }

  /** `ids` rise strictly and all lie in `[lo, hi)`. */
  predicate FreshIds(ids: seq<nat>, lo: nat, hi: nat) {
    && (forall i :: 0 <= i < |ids| ==> lo <= ids[i] < hi)
    && (forall i, j :: 0 <= i < j < |ids| ==> ids[i] < ids[j])
  }

  lemma FreshIdsCons(id: nat, ids: seq<nat>, lo: nat, hi: nat)
    requires FreshIds(ids, id + 1, hi) && lo <= id < hi
    ensures FreshIds([id] + ids, lo, hi)
  {
    var r := [id] + ids;
    assert forall i :: 1 <= i < |r| ==> r[i] == ids[i - 1];
  }

  /** Ids handed out over a run are strictly increasing, start at the
      counter, and stay below the final counter: no id is ever reused, not
      even after `clear` or `cancel`. */
  lemma {:induction false} IdsNeverReused(t: Table, cs: seq<Command>)
    requires Valid(t)
    ensures t.nextId <= Run(t, cs).0.nextId
    ensures FreshIds(Run(t, cs).1, t.nextId, Run(t, cs).0.nextId)
    decreases |cs|
  {
    if cs != [] {
      var t1 := Step(t, cs[0]).0;
      RunCons(t, cs);
      IdsNeverReused(t1, cs[1..]);
      if cs[0].SubmitCmd? {
        FreshIdsCons(t.nextId, Run(t1, cs[1..]).1, t.nextId, Run(t1, cs[1..]).0.nextId);
      }
    }
  }

  /** One command of a run, unfolded. */
  lemma RunCons(t: Table, cs: seq<Command>)
    requires Valid(t) && cs != []
    ensures var t1 := Step(t, cs[0]).0;
      && t1.nextId == t.nextId + (if cs[0].SubmitCmd? then 1 else 0)
      && Run(t, cs).0 == Run(t1, cs[1..]).0
      && Run(t, cs).1 == (if cs[0].SubmitCmd? then [t.nextId] + Run(t1, cs[1..]).1 else Run(t1, cs[1..]).1)
  {
    var first := Step(t, cs[0]);
    assert [] + Run(first.0, cs[1..]).1 == Run(first.0, cs[1..]).1;
  }

  /** No command sets a job's cancelled flag back to False. */
  lemma CancelledStays(t: Table, c: Command, id: nat)
    requires Valid(t)
    requires Lookup(t, id).Some? && Lookup(t, id).value.cancelled
    ensures var t' := Step(t, c).0;
      Lookup(t', id).Some? ==> Lookup(t', id).value.cancelled
  {
    match c
    case SubmitCmd(size, target) =>
      assert Step(t, c).0 == Submit(t, size, target).0;
    case ProgressCmd(k, current) =>
      assert Step(t, c).0 == Progress(t, k, current).0;
    case FinishCmd(k, only, outcome) =>
      assert Step(t, c).0 == Finish(t, k, only, outcome);
    case PhaseCmd(k, phase) =>
      assert Step(t, c).0 == SetPhase(t, k, phase);
    case GetProgressCmd(only) =>
      assert Step(t, c).0 == GetProgress(t, only).0;
      GetProgressKeepsCancelled(t, only, id);
    case WaitCmd =>
      assert Step(t, c).0 == WaitSelect(t).0;
      WaitKeepsCancelled(t, id);
    case CancelCmd =>
      if Cancel(t).None? {
        MarkKeepsCancelled(t, id);
      }
    case ClearCmd =>
      assert Step(t, c).0.burns == [];
  }

  lemma MarkKeepsCancelled(t: Table, id: nat)
    requires Valid(t) && Lookup(t, id).Some?
    ensures var m := Table(MarkCancelled(t.burns), t.nextId);
      Lookup(m, id).Some? && Lookup(m, id).value.cancelled
  {
    MarkKeepsIds(t);
    SameIdsSameIndex(t.burns, MarkCancelled(t.burns), id);
  }

  lemma GetProgressKeepsCancelled(t: Table, only: bool, id: nat)
    requires Lookup(t, id).Some? && Lookup(t, id).value.cancelled
    ensures Lookup(GetProgress(t, only).0, id).Some?
    ensures Lookup(GetProgress(t, only).0, id).value.cancelled
  {
    var t' := GetProgress(t, only).0;
    SameIdsSameIndex(t.burns, t'.burns, id);
    var i := IndexOf(t.burns, id);
    assert t'.burns[i].job.(updated := t.burns[i].job.updated) == t.burns[i].job;
  }

  lemma WaitKeepsCancelled(t: Table, id: nat)
    requires Lookup(t, id).Some? && Lookup(t, id).value.cancelled
    ensures Lookup(WaitSelect(t).0, id).Some?
    ensures Lookup(WaitSelect(t).0, id).value.cancelled
  {
    var r := WaitSelect(t);
    SameIdsSameIndex(t.burns, r.0.burns, id);
    var i := IndexOf(t.burns, id);
    if r.1.Some? {
      var j :| 0 <= j < |t.burns| && SelectedAt(t, r, j);
      if i != j {
        assert r.0.burns[i] == t.burns[i];
      }
    }
  }

  /** A progress report on a job reaches the next `wait`: it is the job
      `wait` picks unless an earlier job is also updated. */
  lemma ProgressThenWait(t: Table, id: nat, current: int)
    requires Valid(t) && Lookup(t, id).Some?
    requires forall k :: 0 <= k < |t.burns| ==> !t.burns[k].job.updated
    ensures WaitSelect(Progress(t, id, current).0).1
      == Some(Entry(id, Lookup(t, id).value.(bytesTransferred := current)))
  {
    var i := IndexOf(t.burns, id);
    var t' := Progress(t, id, current).0;
    assert t' == SetJob(t, i, t.burns[i].job.(bytesTransferred := current, updated := true));
    assert FirstUpdated(t'.burns) == i;
  }
}
