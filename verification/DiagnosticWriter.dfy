/** The bounded queue between MQTT callbacks and the diagnostic storage worker. */
module DiagnosticWriter {
  import opened Wire

  datatype Job = Job(path: string, text: seq<byte>)

  function SizeOf(j: Job): nat { |j.text| }

  function TotalSize(jobs: seq<Job>): nat {
    if jobs == [] then 0 else TotalSize(jobs[..|jobs| - 1]) + SizeOf(jobs[|jobs| - 1])
  }

  lemma {:induction false} TotalSizeHead(jobs: seq<Job>)
    requires jobs != []
    ensures TotalSize(jobs) == SizeOf(jobs[0]) + TotalSize(jobs[1..])
  {
    var init := jobs[..|jobs| - 1];
    if init != [] {
      TotalSizeHead(init);
      assert jobs[1..][..|jobs| - 2] == init[1..];
    }
  }

  lemma TotalSizeAppend(jobs: seq<Job>, job: Job)
    ensures TotalSize(jobs + [job]) == TotalSize(jobs) + SizeOf(job)
  {
    DropLast(jobs, job);
  }

  lemma DropLast(jobs: seq<Job>, job: Job)
    ensures (jobs + [job])[..|jobs|] == jobs
  {}

  lemma AcceptLast(accepted: seq<Job>, handed: seq<Job>, queue: seq<Job>, job: Job)
    requires accepted == handed + queue
    ensures accepted + [job] == handed + (queue + [job])
  {}

  /** Every method is one critical section of the condition's lock; the worker's storage call runs between two of
      them. */
  class Writer {
    const maxJobs: nat
    const maxBytes: nat
    var queue: seq<Job>
    var bytes: nat
    var active: bool
    var closed: bool
    var started: bool
    /** The job the worker has taken and not yet finished. */
    ghost var inHand: Option<Job>
    ghost var exited: bool
    /** Everything accepted, everything handed to storage and everything done with, each in order. */
    ghost var accepted: seq<Job>
    ghost var handed: seq<Job>
    ghost var finished: seq<Job>

    ghost predicate Valid()
      reads this
    {
      && accepted == handed + queue
      && handed == finished + (if inHand.Some? then [inHand.value] else [])
      && bytes == TotalSize(queue) + (if inHand.Some? then SizeOf(inHand.value) else 0)
      && (active <==> inHand.Some?)
      && |queue| <= maxJobs && bytes <= maxBytes
      && (!started ==> queue == [] && !active && !exited)
      && (exited ==> closed && queue == [] && !active)
    }

    constructor (maxJobs: nat, maxBytes: nat)
      ensures Valid() && accepted == [] && !closed && this.maxJobs == maxJobs && this.maxBytes == maxBytes
    {
      this.maxJobs, this.maxBytes := maxJobs, maxBytes;
      queue, bytes, active, closed, started := [], 0, false, false, false;
      inHand, exited, accepted, handed, finished := None, false, [], [], [];
    }

    /** startsOk says whether a worker thread can be started now. */
    method Submit(path: string, text: seq<byte>, startsOk: bool) returns (ok: bool)
      requires Valid()
      modifies this
      ensures Valid()
      ensures ok <==>
        !old(closed) && |old(queue)| < maxJobs && old(bytes) + |text| <= maxBytes && (old(started) || startsOk)
      ensures ok ==>
        && started && queue == old(queue) + [Job(path, text)] && accepted == old(accepted) + [Job(path, text)]
        && bytes == old(bytes) + |text|
      ensures !ok ==>
        queue == old(queue) && accepted == old(accepted) && bytes == old(bytes) && started == old(started)
      ensures closed == old(closed) && active == old(active) && exited == old(exited)
      ensures inHand == old(inHand) && handed == old(handed) && finished == old(finished)
    {
      var job := Job(path, text);
      if closed {
        return false;
      }
      if |queue| >= maxJobs || bytes + SizeOf(job) > maxBytes {
        return false;
      }
      TotalSizeAppend(queue, job);
      AcceptLast(accepted, handed, queue, job);
      DropLast(queue, job);
      queue := queue + [job];
      bytes := bytes + SizeOf(job);
      if !started {
        if !startsOk {
          queue := queue[..|queue| - 1];
          bytes := bytes - SizeOf(job);
          return false;
        }
        started := true;
      }
      accepted := accepted + [job];
      return true;
    }

    /** The worker wakes with the lock held. It waits only while there is nothing to do, and leaves only when closed and
        drained. */
    method Take() returns (job: Option<Job>)
      requires Valid() && started && !active && !exited
      requires queue != [] || closed
      modifies this
      ensures Valid()
      ensures job.None? <==> exited
      ensures exited <==> old(closed) && old(queue) == []
      ensures job.Some? ==>
        && job.value == old(queue)[0] && queue == old(queue)[1..]
        && handed == old(handed) + [job.value] && inHand == job
      ensures job.None? ==> queue == [] && handed == old(handed) == accepted
      ensures bytes == old(bytes) && accepted == old(accepted) && finished == old(finished)
      ensures closed == old(closed) && started == old(started)
    {
      if queue == [] {
        exited := true;
        assert handed + [] == handed;
        return None;
      }
      TotalSizeHead(queue);
      assert handed + queue == handed + [queue[0]] + queue[1..];
      job := Some(queue[0]);
      queue, active := queue[1..], true;
      assert finished + [] == finished;
      inHand, handed := job, handed + [job.value];
    }

    /** Storage has returned, successfully or not: the worker accounts for its job. */
    method Finish(job: Job)
      requires Valid() && inHand == Some(job)
      modifies this
      ensures Valid()
      ensures !active && bytes == old(bytes) - SizeOf(job) && finished == old(finished) + [job] == handed
      ensures queue == old(queue) && accepted == old(accepted) && handed == old(handed)
      ensures closed == old(closed) && started == old(started) && exited == old(exited)
    {
      bytes := bytes - SizeOf(job);
      active := false;
      inHand, finished := None, finished + [job];
      assert finished + [] == finished;
    }

    method Close()
      requires Valid()
      modifies this`closed
      ensures Valid() && closed
    {
      closed := true;
    }

    /** flush succeeds on this condition: everything ever accepted has been through storage. */
    lemma FlushedMeansDone()
      requires Valid() && queue == [] && !active
      ensures finished == handed == accepted && bytes == 0
    {
      assert handed + [] == handed && finished + [] == finished;
    }

    /** Order and completeness: what storage has seen is always a prefix of what was accepted, lacking exactly the
        queue. */
    lemma HandedInOrder()
      requires Valid()
      ensures handed <= accepted && finished <= handed && |handed| <= |finished| + 1
      ensures accepted[|handed|..] == queue
    {}
  }
}
