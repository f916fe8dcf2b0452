/** The front end's upload queue (`useGameUploads`): an ordered list of upload
    items, the updaters that change it (append, merge-by-name, remove-by-name,
    clear completed), and the per-file task that drives one item from upload
    progress through job polling to its end.

    Each run of `processFile` is a `Transfer` object whose `Step` consumes one
    event delivered at an `await` point of the source (a progress callback, the
    upload's answer, the end of the one-second wait, a poll answer, a rejected
    request). Interleaving `Step` calls of several transfers with the queue's
    own methods is how the model represents the source's concurrency. */
module Uploads {
  import opened Text

  datatype Status = Pending | Uploading | Processing | Completed | Error

  /** The `progress` number of an item: a whole percentage, or the NaN or
      Infinity that `Math.round(loaded * 100 / 0)` yields. */
  datatype Progress = Percent(n: int) | NonFinite

  /** The browser `File`: only its name and byte size matter here. */
  datatype File = File(name: string, size: nat)

  /** An `AbortController`: one per submitted file, shared by the queue item
      and the task that uploads and polls for it. */
  class Controller {
    var aborted: bool

    constructor ()
      ensures !aborted
    {
      aborted := false;
    }

    method Abort()
      modifies this
      ensures aborted
    {
      aborted := true;
    }
  }

  /** `FileUploadItem`. */
  datatype Item = Item(file: File, progress: Progress, status: Status,
                       displayTitle: Option<string>, coverUrl: Option<string>,
                       controller: Controller)

  /** `Partial<FileUploadItem>`: each field is either absent (`None`) or given.
      A given `displayTitle`/`coverUrl` may itself be `undefined` (inner `None`),
      as when a poll answer carries no title. */
  datatype Patch = Patch(progress: Option<Progress>, status: Option<Status>,
                         displayTitle: Option<Option<string>>,
                         coverUrl: Option<Option<string>>)

  /** `{ ...item, ...update }`: every field the patch gives replaces the item's,
      every other field is kept. */
  function Merge(it: Item, p: Patch): (r: Item)
    ensures r.file == it.file && r.controller == it.controller
    ensures r.progress == (if p.progress.Some? then p.progress.value else it.progress)
    ensures r.status == (if p.status.Some? then p.status.value else it.status)
    ensures r.displayTitle == (if p.displayTitle.Some? then p.displayTitle.value else it.displayTitle)
    ensures r.coverUrl == (if p.coverUrl.Some? then p.coverUrl.value else it.coverUrl)
  {
    Item(it.file,
         if p.progress.Some? then p.progress.value else it.progress,
         if p.status.Some? then p.status.value else it.status,
         if p.displayTitle.Some? then p.displayTitle.value else it.displayTitle,
         if p.coverUrl.Some? then p.coverUrl.value else it.coverUrl,
         it.controller)
  }

  /** Merging the same patch twice is merging it once. */
  lemma MergeIdempotent(it: Item, p: Patch)
    ensures Merge(Merge(it, p), p) == Merge(it, p)
  {
  }

  // ---------------------------------------------------------------------------
  // The queue updaters, as functions on the list

  /** The updater of `updateItem`: `prev.map(item => name matches ? merged : item)`.
      Same length, same order; every item of that name, duplicates included,
      receives the patch; every other item is left as it was. */
  function UpdateByName(q: seq<Item>, name: string, p: Patch): (r: seq<Item>)
    ensures |r| == |q|
    ensures forall i :: 0 <= i < |q| && q[i].file.name == name ==> r[i] == Merge(q[i], p)
    ensures forall i :: 0 <= i < |q| && q[i].file.name != name ==> r[i] == q[i]
  {
    if q == [] then []
    else [if q[0].file.name == name then Merge(q[0], p) else q[0]] + UpdateByName(q[1..], name, p)
  }

  /** An update for a name that no item carries leaves the queue unchanged. */
  lemma UpdateAbsentIsNoOp(q: seq<Item>, name: string, p: Patch)
    requires forall i :: 0 <= i < |q| ==> q[i].file.name != name
    ensures UpdateByName(q, name, p) == q
  {
  }

  /** A task's optional queue change: nothing, or an `updateItem` for its file. */
  function Apply(q: seq<Item>, name: string, patch: Option<Patch>): seq<Item> {
    if patch.Some? then UpdateByName(q, name, patch.value) else q
  }

  function HasOtherName(name: string): Item -> bool {
    (it: Item) => it.file.name != name
  }

  function NotCompleted(it: Item): bool {
    it.status != Completed
  }

  /** The updater of `removeFile`: `prev.filter(i => i.fileObject.name !== name)`. */
  function Without(q: seq<Item>, name: string): seq<Item> {
    Filter(q, HasOtherName(name))
  }

  /** The updater of `clearCompleted`: `prev.filter(i => i.status !== 'completed')`. */
  function WithoutCompleted(q: seq<Item>): seq<Item> {
    Filter(q, NotCompleted)
  }

  /** `prev.find(i => i.fileObject.name === name)`, as the index of the first match. */
  function FindFirst(q: seq<Item>, name: string): (r: Option<nat>)
    ensures r.Some? ==> r.value < |q| && q[r.value].file.name == name
    ensures forall j :: 0 <= j < |q| && (r.None? || j < r.value) ==> q[j].file.name != name
  {
    if q == [] then None
    else if q[0].file.name == name then Some(0)
    else match FindFirst(q[1..], name)
      case None => None
      case Some(k) => Some(k + 1)
  }

  /** The controller `removeFile` aborts: that of the first item with the name, if any. */
  function FirstController(q: seq<Item>, name: string): set<Controller> {
    match FindFirst(q, name)
    case None => {}
    case Some(k) => {q[k].controller}
  }

  /** Removing by name drops every item of that name and keeps every other item,
      each as often as before, in the original order (the result of removing from
      a concatenation is the concatenation of the results). */
  lemma RemoveByName(q: seq<Item>, q': seq<Item>, name: string)
    ensures forall i :: 0 <= i < |Without(q, name)| ==> Without(q, name)[i].file.name != name
    ensures forall it :: it in q && it.file.name != name ==>
              multiset(Without(q, name))[it] == multiset(q)[it]
    ensures Without(q + q', name) == Without(q, name) + Without(q', name)
  {
    forall it | it in q && it.file.name != name
      ensures multiset(Without(q, name))[it] == multiset(q)[it]
    {
      FilterMultiset(q, HasOtherName(name), it);
    }
    FilterAppend(q, q', HasOtherName(name));
  }

  /** Removing a name no item carries changes nothing, and finds nothing to abort. */
  lemma RemoveAbsentIsNoOp(q: seq<Item>, name: string)
    requires forall i :: 0 <= i < |q| ==> q[i].file.name != name
    ensures Without(q, name) == q
    ensures FirstController(q, name) == {}
  {
    FilterKeepsAll(q, HasOtherName(name));
  }

  /** Once an item is removed, a late update for its name (progress, completion or
      failure of the cancelled task) cannot bring it back or change anything. */
  lemma LateUpdateAfterRemove(q: seq<Item>, name: string, patch: Option<Patch>)
    ensures Apply(Without(q, name), name, patch) == Without(q, name)
  {
    var r := Without(q, name);
    if patch.Some? {
      UpdateAbsentIsNoOp(r, name, patch.value);
    }
  }

  /** Clearing keeps exactly the items that are not completed (pending, uploading,
      processing and failed ones), each as often as before and in order. */
  lemma ClearCompletedKeepsOthers(q: seq<Item>, q': seq<Item>)
    ensures forall i :: 0 <= i < |WithoutCompleted(q)| ==> WithoutCompleted(q)[i].status != Completed
    ensures forall it :: it in q ==>
              multiset(WithoutCompleted(q))[it] == if it.status == Completed then 0 else multiset(q)[it]
    ensures WithoutCompleted(q + q') == WithoutCompleted(q) + WithoutCompleted(q')
  {
    forall it | it in q
      ensures multiset(WithoutCompleted(q))[it] == if it.status == Completed then 0 else multiset(q)[it]
    {
      FilterMultiset(q, NotCompleted, it);
    }
    FilterAppend(q, q', NotCompleted);
  }

  /** Clearing completed items twice is clearing them once. */
  lemma ClearCompletedIdempotent(q: seq<Item>)
    ensures WithoutCompleted(WithoutCompleted(q)) == WithoutCompleted(q)
  {
    FilterIdempotent(q, NotCompleted);
  }

  // ---------------------------------------------------------------------------
  // Submitting files

  /** What `processFile` sets synchronously, before its first `await`. */
  const StartPatch := Patch(Some(Percent(0)), Some(Uploading), None, None)

  /** The item `uploadFiles` appends for a file. */
  function NewItem(f: File, c: Controller): Item {
    Item(f, Percent(0), Pending, None, None, c)
  }

  /** The pending items appended for the started tasks, one per task, in order. */
  function NewItems(tasks: seq<Transfer>): seq<Item> {
    seq(|tasks|, i requires 0 <= i < |tasks| => NewItem(tasks[i].file, tasks[i].controller))
  }

  /** The queue after the synchronous `updateItem` of each file's task, applied in
      submission order to the queue as it was before the append. */
  function Started(q: seq<Item>, files: seq<File>): seq<Item> {
    if files == [] then q
    else UpdateByName(Started(q, files[..|files| - 1]), files[|files| - 1].name, StartPatch)
  }

  /** The synchronous start update reaches only items that were already in the
      queue under the name of a submitted file; it never reaches the new items
      (they are appended afterwards). */
  lemma {:induction false} StartedShape(q: seq<Item>, files: seq<File>)
    ensures |Started(q, files)| == |q|
    ensures forall i :: 0 <= i < |q| ==>
              Started(q, files)[i] ==
                if exists j :: 0 <= j < |files| && files[j].name == q[i].file.name
                then Merge(q[i], StartPatch) else q[i]
  {
    if files != [] {
      var init := files[..|files| - 1];
      var last := files[|files| - 1];
      StartedShape(q, init);
      forall i | 0 <= i < |q|
        ensures Started(q, files)[i] ==
                if exists j :: 0 <= j < |files| && files[j].name == q[i].file.name
                then Merge(q[i], StartPatch) else q[i]
      {
        MergeIdempotent(q[i], StartPatch);
        if exists j :: 0 <= j < |files| && files[j].name == q[i].file.name {
          var j :| 0 <= j < |files| && files[j].name == q[i].file.name;
          if j < |files| - 1 {
            assert init[j] == files[j];
          }
        } else {
          forall j | 0 <= j < |init| ensures init[j].name != q[i].file.name {
            assert init[j] == files[j];
          }
        }
      }
    }
  }

  /** When no submitted file shares a name with a queued item, the start updates
      are all no-ops. */
  lemma StartedFreshNames(q: seq<Item>, files: seq<File>)
    requires forall i, j :: 0 <= i < |q| && 0 <= j < |files| ==> files[j].name != q[i].file.name
    ensures Started(q, files) == q
  {
    StartedShape(q, files);
  }

  // ---------------------------------------------------------------------------
  // One task: upload progress, polling, failure

  /** `e.total || file.size`: a missing or zero total falls back to the file size. */
  function EffectiveTotal(total: Option<nat>, size: nat): nat {
    if total.None? || total.value == 0 then size else total.value
  }

  /** `Math.round((loaded * 100) / total)`, halves rounding up. */
  function RoundPercent(loaded: nat, total: nat): Progress {
    if total == 0 then NonFinite else Percent((200 * loaded + total) / (2 * total))
  }

  /** The percentage is the integer nearest to 100 * loaded / total (a half
      rounds up): 100 * loaded / total - 1/2 <= n < 100 * loaded / total + 1/2. */
  lemma RoundPercentIsNearest(loaded: nat, total: nat)
    requires total > 0
    ensures RoundPercent(loaded, total).Percent?
    ensures var n := RoundPercent(loaded, total).n;
            2 * total * n <= 200 * loaded + total < 2 * total * n + 2 * total
  {
    var d := 2 * total;
    var x := 200 * loaded + total;
    var n := x / d;
    assert x == d * n + x % d;
  }

  /** With 0 <= loaded <= total, the percentage lies in 0..100. */
  lemma RoundPercentInRange(loaded: nat, total: nat)
    requires 0 < total && loaded <= total
    ensures 0 <= RoundPercent(loaded, total).n <= 100
  {
    RoundPercentIsNearest(loaded, total);
    var n := RoundPercent(loaded, total).n;
    if n > 100 {
      assert 2 * total * n >= 2 * total * 101 by {
        assert n >= 101;
        MulMonotone(2 * total, 101, n);
      }
    }
  }

  /** More bytes sent never gives a smaller percentage. */
  lemma RoundPercentMonotone(l1: nat, l2: nat, total: nat)
    requires 0 < total && l1 <= l2
    ensures RoundPercent(l1, total).n <= RoundPercent(l2, total).n
  {
    RoundPercentIsNearest(l1, total);
    RoundPercentIsNearest(l2, total);
    var n1 := RoundPercent(l1, total).n;
    var n2 := RoundPercent(l2, total).n;
    if n1 > n2 {
      assert 2 * total * n1 >= 2 * total * (n2 + 1) by {
        MulMonotone(2 * total, n2 + 1, n1);
      }
    }
  }

  /** With loaded <= total, the item moves to processing exactly from 99.5% sent on. */
  lemma RoundPercentReaches100(loaded: nat, total: nat)
    requires 0 < total && loaded <= total
    ensures RoundPercent(loaded, total) == Percent(100) <==> 200 * loaded >= 199 * total
  {
    RoundPercentIsNearest(loaded, total);
    RoundPercentInRange(loaded, total);
    var n := RoundPercent(loaded, total).n;
    if n < 100 {
      assert 2 * total * n <= 2 * total * 99 by {
        MulMonotone(2 * total, n, 99);
      }
    }
  }

  lemma MulMonotone(k: nat, a: int, b: int)
    requires a <= b
    ensures k * a <= k * b
  {
  }

  /** The `onUploadProgress` update: 100 means processing, anything else uploading. */
  function ProgressPatch(pct: Progress): Patch {
    Patch(Some(pct), Some(if pct == Percent(100) then Processing else Uploading), None, None)
  }

  /** The update for a `completed`/`success` poll answer. */
  function CompletedPatch(title: Option<string>, coverUrl: Option<string>): Patch {
    Patch(None, Some(Completed), Some(title), Some(coverUrl))
  }

  /** The update for an `error` poll answer. */
  const JobErrorPatch := Patch(None, Some(Error), None, None)

  /** The update in the `catch` for a failure that is not a cancellation. */
  const FailurePatch := Patch(Some(Percent(0)), Some(Error), None, None)

  /** Where `processFile` is suspended. */
  datatype Phase =
    | Posting               // awaiting the `POST /upload` answer
    | Waiting(jobId: string)  // awaiting the one-second `wait`
    | Fetching(jobId: string) // awaiting the `GET /job/{id}` answer
    | Finished              // returned (after a break, a throw, or a catch)

  /** What can resume a suspended `processFile`. */
  datatype Event =
    | UploadProgress(loaded: nat, total: Option<nat>)
    | UploadDone(jobId: string)
    | WaitOver
    | JobReply(status: string, title: Option<string>, coverUrl: Option<string>)
    | RequestFailed(cancelled: bool)  // `cancelled`: `axios.isCancel(error)`

  /** The phase a task moves to, and the queue update it issues on the way. */
  datatype Outcome = Outcome(phase: Phase, patch: Option<Patch>)

  /** The abort check before and after each wait: an aborted task throws
      "Cancelled by user", which the `catch` swallows without an update. */
  function Checkpoint(aborted: bool, next: Phase): Outcome {
    if aborted then Outcome(Finished, None) else Outcome(next, None)
  }

  /** The `catch` block: a cancellation is silent, any other failure marks the
      item as failed with progress 0. */
  function Failure(cancelled: bool): Outcome {
    Outcome(Finished, if cancelled then None else Some(FailurePatch))
  }

  /** One resumption of `processFile`. An event that cannot arrive in the
      current phase leaves the task as it is. */
  function Next(ph: Phase, size: nat, ev: Event, aborted: bool): Outcome {
    match ph
    case Posting =>
      (match ev
       case UploadProgress(l, t) =>
         Outcome(Posting, Some(ProgressPatch(RoundPercent(l, EffectiveTotal(t, size)))))
       case UploadDone(job) => Checkpoint(aborted, Waiting(job))
       case RequestFailed(c) => Failure(c)
       case _ => Outcome(ph, None))
    case Waiting(job) =>
      (match ev
       case WaitOver => Checkpoint(aborted, Fetching(job))
       case _ => Outcome(ph, None))
    case Fetching(job) =>
      (match ev
       case JobReply(st, title, cover) =>
         if st == "completed" || st == "success" then Outcome(Finished, Some(CompletedPatch(title, cover)))
         else if st == "error" then Outcome(Finished, Some(JobErrorPatch))
         else Checkpoint(aborted, Waiting(job))
       case RequestFailed(c) => Failure(c)
       case _ => Outcome(ph, None))
    case Finished => Outcome(Finished, None)
  }

  /** How far a phase is along upload, polling, end. */
  function Rank(ph: Phase): nat {
    match ph
    case Posting => 0
    case Waiting(_) => 1
    case Fetching(_) => 1
    case Finished => 2
  }

  /** A task never goes back: from polling it never returns to uploading, a
      finished task stays finished and issues no more updates, and polling
      keeps the job id of the upload's answer. */
  lemma NextMovesForward(ph: Phase, size: nat, ev: Event, aborted: bool)
    ensures Rank(ph) <= Rank(Next(ph, size, ev, aborted).phase)
    ensures ph == Finished ==> Next(ph, size, ev, aborted) == Outcome(Finished, None)
    ensures ph.Waiting? || ph.Fetching? ==>
              Next(ph, size, ev, aborted).phase in {Finished, Waiting(ph.jobId), Fetching(ph.jobId)}
  {
  }

  /** No update ever sets an item back to pending; the status it sets tells
      which event caused it: completed only from a completed/success answer,
      processing only from a progress report of 100, and error with progress 0
      only from a failed request that was not a cancellation. */
  lemma NextPatchOrigin(ph: Phase, size: nat, ev: Event, aborted: bool)
    ensures var o := Next(ph, size, ev, aborted);
            o.patch.Some? ==> o.patch.value.status.Some? && o.patch.value.status.value != Pending
    ensures var o := Next(ph, size, ev, aborted);
            o.patch.Some? && o.patch.value.status == Some(Completed) <==>
              ph.Fetching? && ev.JobReply? && (ev.status == "completed" || ev.status == "success")
    ensures var o := Next(ph, size, ev, aborted);
            o.patch.Some? && o.patch.value.status == Some(Processing) <==>
              ph.Posting? && ev.UploadProgress? &&
              RoundPercent(ev.loaded, EffectiveTotal(ev.total, size)) == Percent(100)
    ensures var o := Next(ph, size, ev, aborted);
            o.patch == Some(FailurePatch) <==>
              (ph.Posting? || ph.Fetching?) && ev.RequestFailed? && !ev.cancelled
  {
  }

  /** A completed/success answer finishes the task as completed, carrying the
      answer's title and cover; an error answer finishes it as failed; any
      other answer goes back to waiting, unless the task was aborted meanwhile,
      in which case it ends silently. */
  lemma PollAnswer(job: string, size: nat, st: string, title: Option<string>, cover: Option<string>, aborted: bool)
    ensures (st == "completed" || st == "success") ==>
              Next(Fetching(job), size, JobReply(st, title, cover), aborted) == Outcome(Finished, Some(CompletedPatch(title, cover)))
    ensures st == "error" ==>
              Next(Fetching(job), size, JobReply(st, title, cover), aborted) == Outcome(Finished, Some(JobErrorPatch))
    ensures st !in {"completed", "success", "error"} ==>
              Next(Fetching(job), size, JobReply(st, title, cover), aborted) ==
                (if aborted then Outcome(Finished, None) else Outcome(Waiting(job), None))
  {
  }

  /** Cancellation: an aborted task stops at its next check (after the upload
      answer, after a wait, after a non-final poll answer) with no queue update,
      and a cancelled request never produces one either. */
  lemma AbortedTaskEndsSilently(ph: Phase, size: nat, ev: Event)
    requires ev.UploadDone? || ev.WaitOver? || (ev.JobReply? && ev.status !in {"completed", "success", "error"})
    requires ph != Finished
    requires ph.Posting? <==> ev.UploadDone?
    requires ph.Waiting? <==> ev.WaitOver?
    ensures Next(ph, size, ev, true) == Outcome(Finished, None)
    ensures Next(ph, size, RequestFailed(true), true).patch.None?
  {
  }

  // ---------------------------------------------------------------------------
  // The state: the queue and its tasks

  /** The `queue` state cell of the hook. */
  class UploadQueue {
    var items: seq<Item>

    constructor ()
      ensures items == []
    {
      items := [];
    }

    /** `updateItem(name, update)`. */
    method UpdateItem(name: string, p: Patch)
      modifies this
      ensures items == UpdateByName(old(items), name, p)
    {
      items := UpdateByName(items, name, p);
    }

    /** `uploadFiles(files)`: for each file in order, a fresh controller and a
        started task, whose synchronous start update is queued against the
        queue as it was; then one append of all new pending items after the
        existing ones. */
    method UploadFiles(files: Option<seq<File>>) returns (tasks: seq<Transfer>)
      modifies this
      ensures files.None? ==> items == old(items) && tasks == []
      ensures files.Some? ==> |tasks| == |files.value|
      ensures forall i :: 0 <= i < |tasks| ==>
                && fresh(tasks[i]) && fresh(tasks[i].controller)
                && tasks[i].file == files.value[i]
                && tasks[i].phase == Posting && !tasks[i].controller.aborted
      ensures forall i, j :: 0 <= i < j < |tasks| ==> tasks[i].controller != tasks[j].controller
      ensures files.Some? ==> items == Started(old(items), files.value) + NewItems(tasks)
    {
      if files.None? {
        return [];
      }
      tasks := NewTasks(files.value);
      items := Started(items, files.value) + NewItems(tasks);
    }

    /** The `files.map` of `uploadFiles`: one fresh controller and one started
        task per file, in order. */
    static method NewTasks(fs: seq<File>) returns (tasks: seq<Transfer>)
      ensures |tasks| == |fs|
      ensures forall i :: 0 <= i < |tasks| ==>
                && fresh(tasks[i]) && fresh(tasks[i].controller)
                && tasks[i].file == fs[i]
                && tasks[i].phase == Posting && !tasks[i].controller.aborted
      ensures forall i, j :: 0 <= i < j < |tasks| ==> tasks[i].controller != tasks[j].controller
    {
      tasks := [];
      var i := 0;
      while i < |fs|
        invariant 0 <= i <= |fs| && |tasks| == i
        invariant forall k :: 0 <= k < i ==>
                    && fresh(tasks[k]) && fresh(tasks[k].controller)
                    && tasks[k].file == fs[k]
                    && tasks[k].phase == Posting && !tasks[k].controller.aborted
        invariant forall k, l :: 0 <= k < l < i ==> tasks[k].controller != tasks[l].controller
      {
        var c := new Controller();
        var t := new Transfer(fs[i], c);
        tasks := tasks + [t];
        i := i + 1;
      }
    }

    /** `removeFile(name)`: aborts the controller of the first item with that
        name (and no other), then drops every item with that name. */
    method RemoveFile(name: string)
      modifies this, FirstController(items, name)
      ensures items == Without(old(items), name)
      ensures FindFirst(old(items), name).Some? ==>
                old(items)[FindFirst(old(items), name).value].controller.aborted
      ensures forall i :: 0 <= i < |old(items)| && old(items)[i].controller !in FirstController(old(items), name) ==>
                old(items)[i].controller.aborted == old(items[i].controller.aborted)
    {
      var k := FindFirst(items, name);
      if k.Some? {
        items[k.value].controller.Abort();
      }
      items := Without(items, name);
    }

    /** `clearCompleted()`. */
    method ClearCompleted()
      modifies this
      ensures items == WithoutCompleted(old(items))
    {
      items := WithoutCompleted(items);
    }
  }

  /** One run of `processFile(file, controller)`. */
  class Transfer {
    const file: File
    const controller: Controller
    var phase: Phase

    constructor (file: File, controller: Controller)
      ensures this.file == file && this.controller == controller && phase == Posting
    {
      this.file := file;
      this.controller := controller;
      phase := Posting;
    }

    /** Resume the task with one event: it reads its controller's abort flag,
        issues at most one `updateItem` for its file name, and moves on. */
    method Step(q: UploadQueue, ev: Event)
      modifies this, q
      ensures phase == Next(old(phase), file.size, ev, controller.aborted).phase
      ensures q.items == Apply(old(q.items), file.name, Next(old(phase), file.size, ev, controller.aborted).patch)
    {
      var o := Next(phase, file.size, ev, controller.aborted);
      if o.patch.Some? {
        q.UpdateItem(file.name, o.patch.value);
      }
      phase := o.phase;
    }
  }
}
