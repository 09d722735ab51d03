/**
 * The job table of the tiny shell: a fixed array of MAXJOBS slots and the
 * `nextjid` counter, with the helper routines that add, delete and look up jobs.
 */
module TshJobs {
  import opened Common

  const MAXJOBS := 16

  /** Job states. */
  const UNDEF := 0
  const FG := 1
  const BG := 2
  const ST := 3

  /** One slot of the table (`struct job_t`); `cmdline` is the C string it holds. */
  datatype Job = Job(pid: int, jid: int, state: int, cmdline: string)

  /** A slot after `clearjob`. */
  const Cleared := Job(0, 0, UNDEF, "")

  /** Index of the first slot satisfying `p`, or |s| when there is none. */
  function FirstWhere(s: seq<Job>, p: Job -> bool): (i: nat)
    ensures i <= |s|
    ensures i < |s| ==> p(s[i])
    ensures forall j :: 0 <= j < i ==> !p(s[j])
  {
    if s == [] then 0
    else if p(s[0]) then 0
    else 1 + FirstWhere(s[1..], p)
  }

  /** The largest jid in the table, or 0 when every jid is 0 or less. */
  function MaxJidOf(s: seq<Job>): (m: int)
    ensures m >= 0
    ensures forall i :: 0 <= i < |s| ==> s[i].jid <= m
    ensures m == 0 || exists i :: 0 <= i < |s| && s[i].jid == m
  {
    if s == [] then 0
    else
      var rest := MaxJidOf(s[..|s| - 1]);
      if s[|s| - 1].jid > rest then s[|s| - 1].jid else rest
  }

  /** The slot invariant the table keeps: a slot is empty (pid 0) exactly when its jid is 0. */
  predicate SlotOk(j: Job) {
    j.pid >= 0 && j.jid >= 0 && (j.pid == 0 <==> j.jid == 0)
  }

  predicate TableOk(s: seq<Job>, nextjid: int) {
    nextjid >= 1 && forall i :: 0 <= i < |s| ==> SlotOk(s[i])
  }

  /** The value of `nextjid` after a job takes the jid `jid` in `addjob`. */
  function Bump(jid: int): int {
    if jid + 1 > MAXJOBS then 1 else jid + 1
  }

  class JobTable {
    var jobs: array<Job>
    var nextjid: int

    ghost predicate Valid()
      reads this, jobs
    {
      jobs.Length == MAXJOBS && TableOk(jobs[..], nextjid)
    }

    /** The zero-initialised globals `jobs` and `nextjid = 1`. */
    constructor ()
      ensures Valid() && fresh(jobs)
      ensures nextjid == 1 && forall i :: 0 <= i < MAXJOBS ==> jobs[i] == Cleared
    {
      jobs := new Job[MAXJOBS](_ => Cleared);
      nextjid := 1;
    }

    /** clearjob: reset one slot. */
    method ClearJob(i: nat)
      requires Valid() && i < MAXJOBS
      modifies jobs
      ensures Valid()
      ensures jobs[..] == old(jobs[..])[i := Cleared]
    {
      jobs[i] := Cleared;
    }

    /** initjobs: clear every slot. */
    method InitJobs()
      requires Valid()
      modifies jobs
      ensures Valid()
      ensures forall i :: 0 <= i < MAXJOBS ==> jobs[i] == Cleared
    {
      for i := 0 to MAXJOBS
        invariant forall j :: 0 <= j < i ==> jobs[j] == Cleared
        invariant forall j :: i <= j < MAXJOBS ==> jobs[j] == old(jobs[j])
      {
        ClearJob(i);
      }
    }

    /** maxjid: the largest jid in the table, 0 if there is none above 0. */
    method MaxJid() returns (max: int)
      requires Valid()
      ensures max >= 0
      ensures forall i :: 0 <= i < MAXJOBS ==> jobs[i].jid <= max
      ensures max == 0 || exists i :: 0 <= i < MAXJOBS && jobs[i].jid == max
    {
      max := 0;
      for i := 0 to MAXJOBS
        invariant max >= 0
        invariant forall j :: 0 <= j < i ==> jobs[j].jid <= max
        invariant max == 0 || exists j :: 0 <= j < i && jobs[j].jid == max
      {
        if jobs[i].jid > max {
          max := jobs[i].jid;
        }
      }
    }

    /**
     * addjob: put `pid` into the first empty slot with jid = nextjid, then
     * advance nextjid, wrapping to 1 once it exceeds MAXJOBS. The messages it
     * prints are not modelled.
     */
    method AddJob(pid: int, state: int, cmdline: string) returns (r: int)
      requires Valid()
      modifies this, jobs
      ensures Valid() && jobs == old(jobs)
      ensures var i := FirstWhere(old(jobs[..]), (j: Job) => j.pid == 0);
        && r == (if pid >= 1 && i < MAXJOBS then 1 else 0)
        && (r == 1 ==> jobs[..] == old(jobs[..])[i := Job(pid, old(nextjid), state, cmdline)]
                       && nextjid == Bump(old(nextjid)))
        && (r == 0 ==> jobs[..] == old(jobs[..]) && nextjid == old(nextjid))
    {
      if pid < 1 {
        return 0;
      }
      for i := 0 to MAXJOBS
        invariant forall j :: 0 <= j < i ==> jobs[j].pid != 0
        invariant jobs[..] == old(jobs[..]) && nextjid == old(nextjid)
      {
        if jobs[i].pid == 0 {
          jobs[i] := Job(pid, nextjid, state, cmdline);
          nextjid := nextjid + 1;
          if nextjid > MAXJOBS {
            nextjid := 1;
          }
          assert FirstWhere(old(jobs[..]), (j: Job) => j.pid == 0) == i;
          return 1;
        }
      }
      return 0;
    }

    /** deletejob: clear the first slot holding `pid` and set nextjid to maxjid + 1. */
    method DeleteJob(pid: int) returns (r: int)
      requires Valid()
      modifies this, jobs
      ensures Valid() && jobs == old(jobs)
      ensures var i := FirstWhere(old(jobs[..]), (j: Job) => j.pid == pid);
        && r == (if pid >= 1 && i < MAXJOBS then 1 else 0)
        && (r == 1 ==> jobs[..] == old(jobs[..])[i := Cleared] && nextjid == MaxJidOf(jobs[..]) + 1)
        && (r == 0 ==> jobs[..] == old(jobs[..]) && nextjid == old(nextjid))
    {
      if pid < 1 {
        return 0;
      }
      for i := 0 to MAXJOBS
        invariant forall j :: 0 <= j < i ==> jobs[j].pid != pid
        invariant jobs[..] == old(jobs[..]) && nextjid == old(nextjid)
      {
        if jobs[i].pid == pid {
          ClearJob(i);
          var m := MaxJid();
          MaxJidIsMaxJidOf(jobs[..], m);
          nextjid := m + 1;
          assert FirstWhere(old(jobs[..]), (j: Job) => j.pid == pid) == i;
          return 1;
        }
      }
      return 0;
    }

    /** fgpid: the pid of the first foreground job, or 0. */
    method FgPid() returns (pid: int)
      requires Valid()
      ensures var i := FirstWhere(jobs[..], (j: Job) => j.state == FG);
        pid == if i < MAXJOBS then jobs[i].pid else 0
    {
      for i := 0 to MAXJOBS
        invariant forall j :: 0 <= j < i ==> jobs[j].state != FG
      {
        if jobs[i].state == FG {
          assert FirstWhere(jobs[..], (j: Job) => j.state == FG) == i;
          return jobs[i].pid;
        }
      }
      return 0;
    }

    /** getjobpid: the first slot holding `pid` (a pointer into the table), or NULL. */
    method GetJobPid(pid: int) returns (r: Option<nat>)
      requires Valid()
      ensures pid < 1 ==> r == None
      ensures r.None? ==> pid < 1 || forall j :: 0 <= j < MAXJOBS ==> jobs[j].pid != pid
      ensures r.Some? ==> r.value < MAXJOBS && jobs[r.value].pid == pid
                          && forall j :: 0 <= j < r.value ==> jobs[j].pid != pid
    {
      if pid < 1 {
        return None;
      }
      for i := 0 to MAXJOBS
        invariant forall j :: 0 <= j < i ==> jobs[j].pid != pid
      {
        if jobs[i].pid == pid {
          return Some(i);
        }
      }
      return None;
    }

    /** getjobjid: the first slot holding job id `jid`, or NULL; such a slot is never empty. */
    method GetJobJid(jid: int) returns (r: Option<nat>)
      requires Valid()
      ensures jid < 1 ==> r == None
      ensures r.None? ==> jid < 1 || forall j :: 0 <= j < MAXJOBS ==> jobs[j].jid != jid
      ensures r.Some? ==> r.value < MAXJOBS && jobs[r.value].jid == jid && jobs[r.value].pid >= 1
                          && forall j :: 0 <= j < r.value ==> jobs[j].jid != jid
    {
      if jid < 1 {
        return None;
      }
      for i := 0 to MAXJOBS
        invariant forall j :: 0 <= j < i ==> jobs[j].jid != jid
      {
        if jobs[i].jid == jid {
          assert SlotOk(jobs[..][i]);
          return Some(i);
        }
      }
      return None;
    }

    /** pid2jid: the job id of the first slot holding `pid`, or 0; a found job's id is at least 1. */
    method Pid2Jid(pid: int) returns (jid: int)
      requires Valid()
      ensures pid < 1 ==> jid == 0
      ensures var i := FirstWhere(jobs[..], (j: Job) => j.pid == pid);
        jid == if pid >= 1 && i < MAXJOBS then jobs[i].jid else 0
      ensures jid >= 1 <==> pid >= 1 && exists j :: 0 <= j < MAXJOBS && jobs[j].pid == pid
    {
      if pid < 1 {
        return 0;
      }
      for i := 0 to MAXJOBS
        invariant forall j :: 0 <= j < i ==> jobs[j].pid != pid
      {
        if jobs[i].pid == pid {
          assert SlotOk(jobs[..][i]);
          assert FirstWhere(jobs[..], (j: Job) => j.pid == pid) == i;
          return jobs[i].jid;
        }
      }
      return 0;
    }
  }

  /** The value `maxjid` returns is the table's maximum jid. */
  lemma MaxJidIsMaxJidOf(s: seq<Job>, m: int)
    requires m >= 0
    requires forall i :: 0 <= i < |s| ==> s[i].jid <= m
    requires m == 0 || exists i :: 0 <= i < |s| && s[i].jid == m
    ensures m == MaxJidOf(s)
  {
    var k := MaxJidOf(s);
    if m != 0 {
      var i :| 0 <= i < |s| && s[i].jid == m;
      assert m <= k;
    }
    if k != 0 {
      var i :| 0 <= i < |s| && s[i].jid == k;
      assert k <= m;
    }
  }
}
