/** The contract between the two halves: how the upload queue's polling loop
    reads each answer `GET /job/{job_id}` can give. */
module Protocol {
  import opened Text
  import S = System
  import opened Server
  import U = Uploads

  /** The JSON answer for a job, as the poller sees it: its `status`, and the
      `title` and `cover_url` fields, which only a completed report carries. */
  function Answer(j: JobResult): (ev: U.Event)
    ensures ev.JobReply? && ev.status == JobStatus(j)
    ensures ev.title.Some? <==> j.Done? && j.report.Completed?
    ensures ev.coverUrl.Some? <==> j.Done? && j.report.Completed?
  {
    if j.Processing? then U.JobReply("processing", None, None)
    else if j.report.Completed? then U.JobReply("completed", Some(j.report.title), Some(j.report.coverUrl))
    else U.JobReply("error", None, None)
  }

  /** A processing job makes the poller wait and ask again (or stop silently
      once aborted); a completed report completes the item with the report's
      title and cover URL; an error report marks the item as failed. */
  lemma PollReadsJob(j: JobResult, job: string, size: nat, aborted: bool)
    ensures var o := U.Next(U.Fetching(job), size, Answer(j), aborted);
            && (j.Processing? ==> o == U.Checkpoint(aborted, U.Waiting(job)))
            && (j.Done? && j.report.Completed? ==>
                  o == U.Outcome(U.Finished, Some(U.CompletedPatch(Some(j.report.title), Some(j.report.coverUrl)))))
            && (j.Done? && j.report.Failed? ==> o == U.Outcome(U.Finished, Some(U.JobErrorPatch)))
  {
    U.PollAnswer(job, size, Answer(j).status, Answer(j).title, Answer(j).coverUrl, aborted);
  }

  /** The poller finishes on a job's answer exactly when the job is done, and
      an id the server does not know keeps it polling until the user aborts. */
  lemma PollFinishesIffDone(jobs: map<string, JobResult>, job: string, size: nat, aborted: bool)
    ensures var o := U.Next(U.Fetching(job), size, Answer(GetJobStatus(jobs, job)), aborted);
            && (o.phase == U.Finished && o.patch.Some? <==> job in jobs && jobs[job].Done?)
            && (job !in jobs ==> o.patch.None? && (o.phase == U.Finished <==> aborted))
  {
    PollReadsJob(GetJobStatus(jobs, job), job, size, aborted);
  }
}
