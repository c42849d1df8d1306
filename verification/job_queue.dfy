/** The linked job queue of thpool.c with its binary semaphore, as the machine's queue and token. */
module JobQueues {

  class Job<T> {
    var prev: Job?<T>
    const work: T

    constructor (work: T)
      ensures this.work == work && prev == null
    {
      this.work := work;
      prev := null;
    }
  }

  class JobQueue<T> {
    var front: Job?<T>
    var rear: Job?<T>
    var len: nat
    var v: nat                        // has_jobs->v
    ghost var jobs: seq<Job<T>>       // front first

    /** The job pulled right after job i. */
    ghost function Behind(i: nat): Job?<T>
      reads this
    {
      if i + 1 < |jobs| then jobs[i + 1] else null
    }

    ghost predicate Valid()
      reads this, jobs
    {
      && len == |jobs| && v <= 1
      && (forall i, j | 0 <= i < j < |jobs| :: jobs[i] != jobs[j])
      && (forall i {:trigger jobs[i].prev} | 0 <= i < |jobs| :: jobs[i].prev == Behind(i))
      && (if |jobs| == 0 then front == null else front == jobs[0] && rear == jobs[|jobs| - 1])
    }

    /** jobqueue_init. */
    constructor ()
      ensures Valid() && jobs == [] && v == 0
    {
      front, rear, len, v, jobs := null, null, 0, 0, [];
    }

    /** jobqueue_push: the job goes to the rear and the semaphore is set. */
    method Push(newjob: Job<T>)
      requires Valid() && newjob !in jobs
      modifies this, newjob, jobs
      ensures Valid() && jobs == old(jobs) + [newjob] && v == 1
    {
      newjob.prev := null;
      if len == 0 {
        front := newjob;
        rear := newjob;
      } else {
        rear.prev := newjob;
        rear := newjob;
      }
      len := len + 1;
      v := 1;
      jobs := jobs + [newjob];
    }

    /** jobqueue_pull: the front job leaves, and the semaphore is set again exactly if others remain. */
    method Pull() returns (job: Job?<T>)
      requires Valid()
      modifies this
      ensures Valid()
      ensures job == null <==> old(jobs) == []
      ensures job != null ==> job == old(jobs)[0] && jobs == old(jobs)[1..]
      ensures job == null ==> jobs == []
      ensures v == if |jobs| > 0 then 1 else old(v)
    {
      job := front;
      if len == 0 {
      } else if len == 1 {
        front := null;
        rear := null;
        len := 0;
        jobs := jobs[1..];
      } else {
        front := job.prev;
        len := len - 1;
        v := 1;
        jobs := jobs[1..];
        forall i | 0 <= i < |jobs| ensures jobs[i].prev == Behind(i) {
          assert jobs[i].prev == old(jobs[i + 1].prev) == old(Behind(i + 1));
        }
        assert Valid();
      }
    }
  }
}
