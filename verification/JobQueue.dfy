/** The linked job queue of Project-2/webserver_part2.c on heap nodes, as its mutex protects it. */
module JobQueue {
  import opened ThreadPool

  class JobNode {
    const job: Job
    var prev: JobNode?

    constructor (job: Job)
      ensures this.job == job && prev == null
    {
      this.job := job;
      prev := null;
    }
  }

  function JobsOf(nodes: seq<JobNode>): seq<Job> {
    seq(|nodes|, i requires 0 <= i < |nodes| => nodes[i].job)
  }

  class Queue {
    var front: JobNode?
    var rear: JobNode?
    var len: int
    /** The semaphore's value. */
    var v: int
    ghost var nodes: seq<JobNode>

    /** `nodes` leads from `front` along `prev` to `rear`. */
    ghost predicate Valid()
      reads this, nodes
    {
      && len == |nodes|
      && (forall i, j :: 0 <= i < j < |nodes| ==> nodes[i] != nodes[j])
      && (nodes == [] ==> front == null && rear == null)
      && (nodes != [] ==> front == nodes[0] && rear == nodes[|nodes| - 1])
      && (forall i {:trigger nodes[i].prev} :: 0 <= i < |nodes| ==>
            nodes[i].prev == if i + 1 < |nodes| then nodes[i + 1] else null)
    }

    ghost function Jobs(): seq<Job>
      reads this
    {
      JobsOf(nodes)
    }

    /** `jobqueue_init` */
    constructor ()
      ensures Valid() && Jobs() == [] && v == 0
    {
      front, rear, len, v, nodes := null, null, 0, 0, [];
    }

    /** `jobqueue_push`: the job joins the rear and the semaphore is posted. */
    method Push(newjob: JobNode)
      requires Valid() && newjob !in nodes
      modifies this, nodes, newjob
      ensures Valid() && nodes == old(nodes) + [newjob] && Jobs() == old(Jobs()) + [newjob.job] && v == 1
    {
      newjob.prev := null;
      if len == 0 {
        front, rear := newjob, newjob;
      } else {
        rear.prev := newjob;
        rear := newjob;
      }
      len := len + 1;
      nodes := nodes + [newjob];
      v := 1;
    }

    /** `jobqueue_pull`: the front job, or null; the semaphore is posted while jobs remain. */
    method Pull() returns (job: JobNode?)
      requires Valid()
      modifies this
      ensures Valid()
      ensures old(Jobs()) == [] ==> job == null && nodes == [] && v == old(v)
      ensures old(Jobs()) != [] ==> job == old(nodes)[0] && nodes == old(nodes)[1..]
                                    && [job.job] + Jobs() == old(Jobs())
                                    && v == if Jobs() == [] then old(v) else 1
    {
      job := front;
      if len == 0 {
      } else if len == 1 {
        front, rear, len := null, null, 0;
        nodes := [];
      } else {
        front := job.prev;
        len := len - 1;
        nodes := nodes[1..];
        v := 1;
      }
    }

    /** `jobqueue_clear`: it pulls every job, in order, and resets the semaphore. */
    method Clear() returns (ghost freed: seq<Job>)
      requires Valid()
      modifies this
      ensures Valid() && Jobs() == [] && v == 0 && freed == old(Jobs())
    {
      freed := [];
      while len != 0
        invariant Valid() && freed + Jobs() == old(Jobs())
        decreases |nodes|
      {
        var job := Pull();
        freed := freed + [job.job];
      }
      front, rear, len, v := null, null, 0, 0;
    }
  }
}
