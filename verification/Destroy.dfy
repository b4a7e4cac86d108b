/** Destroying a run with a bounded pool of concurrent workers (scripts/pve-destroy-run.sh). */
module Destroy {
  import opened Text
  import opened Identifiers
  import opened Cluster
  import opened Restart

  datatype Job = Job(host: string, vmid: int, name: string)

  /** What a worker finds its target to be; Unread when the name cannot be read, which ends the worker at once. */
  datatype Status = Missing | Unsafe | Destroyed | Unread {
    predicate Fails() { Unsafe? || Unread? }
  }

  /** Where one worker stands: not started, about to query the VMID, to read its name, to stop it, to delete it, to
      write its status file, or exited with a success flag. */
  datatype Phase = Waiting | Querying | Naming | Stopping | Deleting
                 | Recording(status: Status) | Exited(success: bool) {
    predicate Active() { !Waiting? && !Exited? }

    function Rank(): nat {
      match this
      case Waiting => 6
      case Querying => 5
      case Naming => 4
      case Stopping => 3
      case Deleting => 2
      case Recording(_) => 1
      case Exited(_) => 0
    }
  }

  /** The pool: the cluster's VMs, a phase per job, how many jobs were launched, and the status files by name. */
  datatype Pool = Pool(vms: map<int, Vm>, phases: seq<Phase>, launched: nat, files: map<string, (string, Status)>)

  /** safe_status_name: every character outside A-Za-z0-9_.- becomes "_". */
  function FileName(host: string): string {
    if host == [] then []
    else
      var plain := IsNameChar(host[0]) || 'A' <= host[0] <= 'Z' || host[0] in "_.-";
      [if plain then host[0] else '_'] + FileName(host[1..])
  }

  /** Character by character; so a name of the accepted form is its own file name. */
  lemma {:induction false} FileNameExactly(host: string)
    ensures |FileName(host)| == |host|
    ensures forall i :: 0 <= i < |host| ==>
              FileName(host)[i] == if host[i] in "_.-" || '0' <= host[i] <= '9' || 'a' <= host[i] <= 'z'
                                      || 'A' <= host[i] <= 'Z' then host[i] else '_'
  {
    if host != [] { FileNameExactly(host[1..]); }
  }

  lemma FileNameOfName(host: string)
    requires forall c :: c in host ==> IsNameChar(c) || c == '-'
    ensures FileName(host) == host
  {
    FileNameExactly(host);
    assert "_.-"[2] == '-';
  }

  function ActiveCount(phases: seq<Phase>): nat {
    if phases == [] then 0
    else (if phases[|phases| - 1].Active() then 1 else 0) + ActiveCount(phases[..|phases| - 1])
  }

  function Left(phases: seq<Phase>): nat {
    if phases == [] then 0 else phases[|phases| - 1].Rank() + Left(phases[..|phases| - 1])
  }

  // ---------- transitions ----------

  /** The Proxmox commands that fail. By VMID, during verification and then in the workers: asking for the status, which
      reads as a missing VM, and reading the name; stopping and deleting the VM. By name: deleting VNets and zones. */
  datatype Failing = Failing(verifyStatus: set<int>, verifyName: set<int>, status: set<int>, naming: set<int>,
                             stop: set<int>, delete: set<int>, vnets: set<string>, zones: set<string>) {
    /** All queries are answered. */
    predicate Answers() { verifyStatus == verifyName == status == naming == {} }
  }

  const NOTHING_FAILS := Failing({}, {}, {}, {}, {}, {}, {}, {})

  predicate CanLaunch(jobs: seq<Job>, limit: nat, p: Pool) {
    p.launched < |jobs| && ActiveCount(p.phases) < limit
  }

  function Launch(p: Pool): Pool
    requires p.launched < |p.phases|
  {
    p.(phases := p.phases[p.launched := Querying], launched := p.launched + 1)
  }

  function AfterStop(failing: Failing, v: int, vm: Vm): Vm {
    if v in failing.stop then vm else vm.(running := false)
  }

  /** One move of worker i. */
  function Work(jobs: seq<Job>, failing: Failing, p: Pool, i: nat): Pool
    requires i < |jobs| == |p.phases| && p.phases[i].Active()
  {
    var job := jobs[i];
    match p.phases[i]
    case Querying =>
      var seen := job.vmid in p.vms && job.vmid !in failing.status;
      p.(phases := p.phases[i := if seen then Naming else Recording(Missing)])
    case Naming =>
      var own := job.vmid in p.vms && p.vms[job.vmid].name == job.name;
      p.(phases := p.phases[i := if job.vmid in failing.naming then Exited(false)
                                 else if own then Stopping else Recording(Unsafe)])
    case Stopping =>
      p.(phases := p.phases[i := Deleting],
         vms := if job.vmid in p.vms then p.vms[job.vmid := AfterStop(failing, job.vmid, p.vms[job.vmid])] else p.vms)
    case Deleting =>
      p.(phases := p.phases[i := Recording(Destroyed)],
         vms := if job.vmid in failing.delete then p.vms else p.vms - {job.vmid})
    case Recording(s) =>
      p.(phases := p.phases[i := Exited(!s.Fails())], files := p.files[FileName(job.host) := (job.host, s)])
  }

  datatype Move = LaunchNext | WorkerMove(i: nat)

  predicate Enabled(jobs: seq<Job>, limit: nat, p: Pool, m: Move)
    requires |p.phases| == |jobs|
  {
    match m
    case LaunchNext => CanLaunch(jobs, limit, p)
    case WorkerMove(i) => i < |jobs| && p.phases[i].Active()
  }

  function Apply(jobs: seq<Job>, failing: Failing, limit: nat, p: Pool, m: Move): Pool
    requires |p.phases| == |jobs| && Enabled(jobs, limit, p, m)
  {
    match m
    case LaunchNext => Launch(p)
    case WorkerMove(i) => Work(jobs, failing, p, i)
  }

  function Initial(jobs: seq<Job>, vms: map<int, Vm>): Pool {
    Pool(vms, seq(|jobs|, i => Waiting), 0, map[])
  }

  // ---------- what every interleaving keeps ----------

  /** What must become of a job, given the cluster as it was found and the queries that fail. */
  function Verdict(failing: Failing, vms: map<int, Vm>, job: Job): Status {
    if job.vmid !in vms || job.vmid in failing.status then Missing
    else if job.vmid in failing.naming then Unread
    else if vms[job.vmid].name != job.name then Unsafe
    else Destroyed
  }

  predicate Same(before: map<int, Vm>, now: map<int, Vm>, v: int) {
    (v in now <==> v in before) && (v in before ==> now[v] == before[v])
  }

  lemma SameEverywhere(before: map<int, Vm>, now: map<int, Vm>)
    requires forall v :: Same(before, now, v)
    ensures before == now
  {
    forall v ensures v in now <==> v in before ensures v in before ==> now[v] == before[v] {
      assert Same(before, now, v);
    }
  }

  /** What is left under a job's VMID once it has been deleted: nothing, or when deletion failed the VM, stopped unless
      that failed too. */
  predicate Gone(before: map<int, Vm>, failing: Failing, now: map<int, Vm>, v: int)
    requires v in before
  {
    if v in failing.delete then v in now && now[v] == AfterStop(failing, v, before[v]) else v !in now
  }

  predicate JobOk(before: map<int, Vm>, failing: Failing, now: map<int, Vm>, job: Job, phase: Phase) {
    var verdict := Verdict(failing, before, job);
    match phase
    case Waiting | Querying => Same(before, now, job.vmid)
    case Naming => verdict != Missing && Same(before, now, job.vmid)
    case Stopping => verdict == Destroyed && Same(before, now, job.vmid)
    case Deleting =>
      verdict == Destroyed && job.vmid in now && now[job.vmid] == AfterStop(failing, job.vmid, before[job.vmid])
    case Recording(s) => s == verdict && s != Unread && Settled(before, failing, now, job)
    case Exited(success) => success == !verdict.Fails() && Settled(before, failing, now, job)
  }

  predicate Settled(before: map<int, Vm>, failing: Failing, now: map<int, Vm>, job: Job) {
    if Verdict(failing, before, job) == Destroyed then Gone(before, failing, now, job.vmid)
    else Same(before, now, job.vmid)
  }

  predicate IsJobVmid(jobs: seq<Job>, v: int) { exists i :: 0 <= i < |jobs| && jobs[i].vmid == v }

  predicate JobsDistinct(jobs: seq<Job>) {
    && (forall i, j :: 0 <= i < j < |jobs| ==> jobs[i].vmid != jobs[j].vmid)
    && (forall i, j :: 0 <= i < j < |jobs| ==> FileName(jobs[i].host) != FileName(jobs[j].host))
  }

  /** One status file per exited worker that could read its target, none for the others, each saying what its job's
      verdict was. */
  predicate FilesOk(jobs: seq<Job>, failing: Failing, before: map<int, Vm>, p: Pool)
    requires |p.phases| == |jobs|
  {
    && (forall f :: f in p.files ==> exists i :: 0 <= i < |jobs| && f == FileName(jobs[i].host))
    && forall i :: 0 <= i < |jobs| ==> FileOk(p.files, jobs[i], p.phases[i], Verdict(failing, before, jobs[i]))
  }

  predicate FileOk(files: map<string, (string, Status)>, job: Job, phase: Phase, verdict: Status) {
    var f := FileName(job.host);
    (f in files <==> phase.Exited? && verdict != Unread) && (f in files ==> files[f] == (job.host, verdict))
  }

  predicate LaunchedOk(jobs: seq<Job>, p: Pool) {
    && |p.phases| == |jobs| && p.launched <= |jobs|
    && forall i :: 0 <= i < |jobs| ==> (p.phases[i].Waiting? <==> i >= p.launched)
  }

  predicate JobsOk(jobs: seq<Job>, failing: Failing, before: map<int, Vm>, p: Pool)
    requires |p.phases| == |jobs|
  {
    forall i :: 0 <= i < |jobs| ==> JobOk(before, failing, p.vms, jobs[i], p.phases[i])
  }

  ghost predicate OthersSame(jobs: seq<Job>, before: map<int, Vm>, p: Pool) {
    forall v :: !IsJobVmid(jobs, v) ==> Same(before, p.vms, v)
  }

  ghost predicate Inv(jobs: seq<Job>, failing: Failing, limit: nat, before: map<int, Vm>, p: Pool) {
    && LaunchedOk(jobs, p)
    && JobsOk(jobs, failing, before, p)
    && OthersSame(jobs, before, p)
    && FilesOk(jobs, failing, before, p)
    && ActiveCount(p.phases) <= limit
  }

  lemma {:induction false} CountUpdate(phases: seq<Phase>, i: nat, x: Phase)
    requires i < |phases|
    ensures ActiveCount(phases[i := x]) ==
            ActiveCount(phases) - (if phases[i].Active() then 1 else 0) + (if x.Active() then 1 else 0)
    ensures Left(phases[i := x]) == Left(phases) - phases[i].Rank() + x.Rank()
    decreases |phases|
  {
    var n := |phases| - 1;
    if i < n {
      CountUpdate(phases[..n], i, x);
      assert phases[i := x][..n] == phases[..n][i := x];
    } else {
      assert phases[i := x][..n] == phases[..n];
    }
  }

  lemma {:induction false} NoneActive(phases: seq<Phase>)
    ensures (forall i :: 0 <= i < |phases| ==> phases[i].Waiting?) ==> ActiveCount(phases) == 0
    ensures (forall i :: 0 <= i < |phases| ==> !phases[i].Active()) ==> ActiveCount(phases) == 0
    ensures Left(phases) <= 6 * |phases|
  {
    if phases != [] { NoneActive(phases[..|phases| - 1]); }
  }

  lemma InitialInv(jobs: seq<Job>, failing: Failing, limit: nat, vms: map<int, Vm>)
    ensures Inv(jobs, failing, limit, vms, Initial(jobs, vms))
    ensures Left(Initial(jobs, vms).phases) <= 6 * |jobs|
  {
    NoneActive(Initial(jobs, vms).phases);
  }

  lemma LaunchInv(jobs: seq<Job>, failing: Failing, limit: nat, before: map<int, Vm>, p: Pool)
    requires Inv(jobs, failing, limit, before, p) && CanLaunch(jobs, limit, p)
    ensures Inv(jobs, failing, limit, before, Launch(p)) && Left(Launch(p).phases) < Left(p.phases)
  {
    var q := Launch(p);
    CountUpdate(p.phases, p.launched, Querying);
    assert JobsOk(jobs, failing, before, q) by {
      assert JobOk(before, failing, p.vms, jobs[p.launched], p.phases[p.launched]);
    }
    assert FilesOk(jobs, failing, before, q);
  }

  lemma WorkJobs(jobs: seq<Job>, failing: Failing, before: map<int, Vm>, p: Pool, i: nat)
    requires |p.phases| == |jobs| && i < |jobs| && p.phases[i].Active() && JobsDistinct(jobs)
    requires JobsOk(jobs, failing, before, p) && OthersSame(jobs, before, p)
    ensures JobsOk(jobs, failing, before, Work(jobs, failing, p, i))
    ensures OthersSame(jobs, before, Work(jobs, failing, p, i))
  {
    var q := Work(jobs, failing, p, i);
    assert JobOk(before, failing, p.vms, jobs[i], p.phases[i]);
    forall j | 0 <= j < |jobs| ensures JobOk(before, failing, q.vms, jobs[j], q.phases[j]) {
      if j != i {
        assert jobs[j].vmid != jobs[i].vmid && Same(p.vms, q.vms, jobs[j].vmid);
        assert JobOk(before, failing, p.vms, jobs[j], p.phases[j]);
      }
    }
    forall v | !IsJobVmid(jobs, v) ensures Same(before, q.vms, v) {
      assert v != jobs[i].vmid && Same(before, p.vms, v);
    }
  }

  lemma WorkFiles(jobs: seq<Job>, failing: Failing, before: map<int, Vm>, p: Pool, i: nat)
    requires |p.phases| == |jobs| && i < |jobs| && p.phases[i].Active() && JobsDistinct(jobs)
    requires JobOk(before, failing, p.vms, jobs[i], p.phases[i]) && FilesOk(jobs, failing, before, p)
    ensures FilesOk(jobs, failing, before, Work(jobs, failing, p, i))
  {
    var q := Work(jobs, failing, p, i);
    OwnFile(jobs[i], failing, before, p, q, jobs, i);
    forall j | 0 <= j < |jobs| ensures FileOk(q.files, jobs[j], q.phases[j], Verdict(failing, before, jobs[j])) {
      assert FileOk(p.files, jobs[j], p.phases[j], Verdict(failing, before, jobs[j]));
      if j != i {
        assert q.phases[j] == p.phases[j] && FileName(jobs[j].host) != FileName(jobs[i].host);
      }
    }
  }

  lemma OwnFile(job: Job, failing: Failing, before: map<int, Vm>, p: Pool, q: Pool, jobs: seq<Job>, i: nat)
    requires |p.phases| == |jobs| && i < |jobs| && p.phases[i].Active() && job == jobs[i]
    requires q == Work(jobs, failing, p, i) && JobOk(before, failing, p.vms, job, p.phases[i])
    requires FileOk(p.files, job, p.phases[i], Verdict(failing, before, job))
    ensures FileOk(q.files, job, q.phases[i], Verdict(failing, before, job))
    ensures q.files == p.files || q.files == p.files[FileName(job.host) := (job.host, Verdict(failing, before, job))]
  {
    if p.phases[i].Recording? {
      assert q.files == p.files[FileName(job.host) := (job.host, p.phases[i].status)];
    }
  }

  lemma WorkInv(jobs: seq<Job>, failing: Failing, limit: nat, before: map<int, Vm>, p: Pool, i: nat)
    requires Inv(jobs, failing, limit, before, p) && i < |jobs| && p.phases[i].Active() && JobsDistinct(jobs)
    ensures Inv(jobs, failing, limit, before, Work(jobs, failing, p, i))
    ensures Left(Work(jobs, failing, p, i).phases) < Left(p.phases)
  {
    WorkJobs(jobs, failing, before, p, i);
    WorkFiles(jobs, failing, before, p, i);
    var q := Work(jobs, failing, p, i);
    assert q.phases == p.phases[i := q.phases[i]] && q.launched == p.launched;
    WorkRank(jobs, failing, p, i);
    CountUpdate(p.phases, i, q.phases[i]);
  }

  lemma WorkRank(jobs: seq<Job>, failing: Failing, p: Pool, i: nat)
    requires |p.phases| == |jobs| && i < |jobs| && p.phases[i].Active()
    ensures var x := Work(jobs, failing, p, i).phases[i];
            !x.Waiting? && x.Rank() < p.phases[i].Rank()
  {
  }

  /** Every move keeps the invariant, in particular the bound on running workers, and uses up one of finitely many
      moves. */
  lemma MoveInv(jobs: seq<Job>, failing: Failing, limit: nat, before: map<int, Vm>, p: Pool, m: Move)
    requires Inv(jobs, failing, limit, before, p) && JobsDistinct(jobs) && Enabled(jobs, limit, p, m)
    ensures Inv(jobs, failing, limit, before, Apply(jobs, failing, limit, p, m))
    ensures Left(Apply(jobs, failing, limit, p, m).phases) < Left(p.phases)
  {
    match m
    case LaunchNext => LaunchInv(jobs, failing, limit, before, p);
    case WorkerMove(i) => WorkInv(jobs, failing, limit, before, p, i);
  }

  // ---------- runs of the pool ----------

  ghost predicate IsSchedule(jobs: seq<Job>, failing: Failing, limit: nat, before: map<int, Vm>, moves: seq<Move>,
                             p: Pool)
    decreases |moves|
  {
    if moves == [] then p == Initial(jobs, before)
    else
      var last := moves[|moves| - 1];
      exists q: Pool :: IsSchedule(jobs, failing, limit, before, moves[..|moves| - 1], q) && |q.phases| == |jobs|
                        && Enabled(jobs, limit, q, last) && p == Apply(jobs, failing, limit, q, last)
  }

  /** For every interleaving: at most `limit` workers run at any moment, and no schedule has more than six moves per
      job. */
  lemma {:induction false} ScheduleInv(jobs: seq<Job>, failing: Failing, limit: nat, before: map<int, Vm>,
                                       moves: seq<Move>, p: Pool)
    requires JobsDistinct(jobs) && IsSchedule(jobs, failing, limit, before, moves, p)
    ensures Inv(jobs, failing, limit, before, p)
    ensures |moves| + Left(p.phases) <= 6 * |jobs|
    decreases |moves|
  {
    if moves == [] {
      InitialInv(jobs, failing, limit, before);
    } else {
      var last := moves[|moves| - 1];
      var q: Pool :| IsSchedule(jobs, failing, limit, before, moves[..|moves| - 1], q) && |q.phases| == |jobs|
                     && Enabled(jobs, limit, q, last) && p == Apply(jobs, failing, limit, q, last);
      ScheduleInv(jobs, failing, limit, before, moves[..|moves| - 1], q);
      MoveInv(jobs, failing, limit, before, q, last);
    }
  }

  predicate AllExited(p: Pool) { forall i :: 0 <= i < |p.phases| ==> p.phases[i].Exited? }

  /** The pool never gets stuck before every worker has exited. */
  lemma NoDeadlock(jobs: seq<Job>, failing: Failing, limit: nat, before: map<int, Vm>, p: Pool)
    requires Inv(jobs, failing, limit, before, p) && limit >= 1 && !AllExited(p)
    ensures exists m :: Enabled(jobs, limit, p, m)
  {
    if i :| 0 <= i < |jobs| && p.phases[i].Active() {
      assert Enabled(jobs, limit, p, WorkerMove(i));
    } else {
      NoneActive(p.phases);
      var i :| 0 <= i < |jobs| && !p.phases[i].Exited?;
      assert p.phases[i].Waiting?;
      assert Enabled(jobs, limit, p, LaunchNext);
    }
  }

  /** The cluster a finished destroy leaves: without every VM whose VMID and name both match a job, except that a VM
      whose deletion failed is still there, stopped. */
  ghost predicate Outcome(jobs: seq<Job>, failing: Failing, before: map<int, Vm>, after: map<int, Vm>) {
    && (forall i :: 0 <= i < |jobs| ==> Settled(before, failing, after, jobs[i]))
    && (forall v :: !IsJobVmid(jobs, v) ==> Same(before, after, v))
  }

  /** The status files and the failure flag of a finished pool. */
  predicate Reports(jobs: seq<Job>, failing: Failing, before: map<int, Vm>, p: Pool)
    requires |p.phases| == |jobs|
  {
    && p.files.Keys ==
       (set i | 0 <= i < |jobs| && Verdict(failing, before, jobs[i]) != Unread :: FileName(jobs[i].host))
    && (forall i :: 0 <= i < |jobs| && Verdict(failing, before, jobs[i]) != Unread ==>
          p.files[FileName(jobs[i].host)] == (jobs[i].host, Verdict(failing, before, jobs[i])))
    && ((exists i :: 0 <= i < |jobs| && p.phases[i] == Exited(false)) <==>
        exists i :: 0 <= i < |jobs| && Verdict(failing, before, jobs[i]).Fails())
  }

  /** When every worker has exited, whatever the interleaving and whatever failed: the cluster is the initial one minus
      exactly the matching VMs that were seen and could be deleted, each job whose target's name could be read has
      exactly one status file saying what was found, and the failure flag is set exactly when some VMID was seen to
      carry another name or a name could not be read. */
  lemma FinishedExactly(jobs: seq<Job>, failing: Failing, limit: nat, before: map<int, Vm>, moves: seq<Move>, p: Pool)
    requires JobsDistinct(jobs) && IsSchedule(jobs, failing, limit, before, moves, p) && AllExited(p)
    ensures Outcome(jobs, failing, before, p.vms) && |p.phases| == |jobs| && Reports(jobs, failing, before, p)
  {
    ScheduleInv(jobs, failing, limit, before, moves, p);
    FinishedFromInv(jobs, failing, limit, before, p);
  }

  lemma FinishedFromInv(jobs: seq<Job>, failing: Failing, limit: nat, before: map<int, Vm>, p: Pool)
    requires Inv(jobs, failing, limit, before, p) && AllExited(p)
    ensures Outcome(jobs, failing, before, p.vms) && Reports(jobs, failing, before, p)
  {
    forall i | 0 <= i < |jobs|
      ensures Settled(before, failing, p.vms, jobs[i])
      ensures p.phases[i] == Exited(false) <==> Verdict(failing, before, jobs[i]).Fails()
    {
      assert JobOk(before, failing, p.vms, jobs[i], p.phases[i]);
    }
  }

  /** The VMs that go: seen, readable, the job's own, and not failing to be deleted. */
  function Removed(jobs: seq<Job>, failing: Failing, before: map<int, Vm>): set<int> {
    set i | 0 <= i < |jobs| && Verdict(failing, before, jobs[i]) == Destroyed && jobs[i].vmid !in failing.delete ::
      jobs[i].vmid
  }

  /** Exactly the removed VMs are gone, and with no failing deletion the outcome is the plain map difference. */
  lemma OutcomeIsDifference(jobs: seq<Job>, failing: Failing, before: map<int, Vm>, after: map<int, Vm>)
    requires Outcome(jobs, failing, before, after)
    ensures after.Keys == before.Keys - Removed(jobs, failing, before)
    ensures failing.delete == {} ==> after == before - Removed(jobs, failing, before)
  {
    var gone := Removed(jobs, failing, before);
    forall v ensures v in after <==> v in before && v !in gone
             ensures failing.delete == {} && v in after && v in before && v !in gone ==> after[v] == before[v] {
      if IsJobVmid(jobs, v) {
        var i :| 0 <= i < |jobs| && jobs[i].vmid == v;
        assert Settled(before, failing, after, jobs[i]);
        if v in gone {
          var j :| 0 <= j < |jobs| && Verdict(failing, before, jobs[j]) == Destroyed && jobs[j].vmid == v;
          assert Settled(before, failing, after, jobs[j]);
        }
      }
    }
  }

  /** The outcome is one and the same cluster for all interleavings. */
  lemma OutcomeUnique(jobs: seq<Job>, failing: Failing, before: map<int, Vm>, after: map<int, Vm>, other: map<int, Vm>)
    requires Outcome(jobs, failing, before, after) && Outcome(jobs, failing, before, other)
    ensures after == other
  {
    OutcomeIsDifference(jobs, failing, before, after);
    OutcomeIsDifference(jobs, failing, before, other);
    forall v | v in after ensures v in other && after[v] == other[v] {
      if IsJobVmid(jobs, v) {
        var i :| 0 <= i < |jobs| && jobs[i].vmid == v;
        assert Settled(before, failing, after, jobs[i]) && Settled(before, failing, other, jobs[i]);
      } else {
        assert Same(before, after, v) && Same(before, other, v);
      }
    }
  }

  /** What becomes of one job in a finished run. A VM that is not there stays away; one that is not seen, cannot be read
      or has another name stays as it is, and the status file then says missing, is not written, or says unsafe. The
      job's own VM is gone, or, when it could not be deleted, unchanged but for running only if it ran and could not be
      stopped; the status file says destroyed in both cases. */
  lemma JobExactly(jobs: seq<Job>, failing: Failing, limit: nat, before: map<int, Vm>, moves: seq<Move>, p: Pool,
                   i: nat)
    requires JobsDistinct(jobs) && IsSchedule(jobs, failing, limit, before, moves, p) && AllExited(p) && i < |jobs|
    ensures var v, after, file := jobs[i].vmid, p.vms, FileName(jobs[i].host);
            if v !in before then v !in after && file in p.files && p.files[file] == (jobs[i].host, Missing)
            else if v in failing.status then
              v in after && after[v] == before[v] && file in p.files && p.files[file] == (jobs[i].host, Missing)
            else if v in failing.naming then v in after && after[v] == before[v] && file !in p.files
            else if before[v].name != jobs[i].name then
              v in after && after[v] == before[v] && file in p.files && p.files[file] == (jobs[i].host, Unsafe)
            else
              && file in p.files && p.files[file] == (jobs[i].host, Destroyed)
              && (v in after <==> v in failing.delete)
              && (v in after ==>
                    && after[v].name == before[v].name && after[v].nets == before[v].nets
                    && after[v].serial == before[v].serial && after[v].sized == before[v].sized
                    && (after[v].running <==> before[v].running && v in failing.stop))
  {
    ScheduleInv(jobs, failing, limit, before, moves, p);
    assert JobOk(before, failing, p.vms, jobs[i], p.phases[i]);
    assert FileOk(p.files, jobs[i], p.phases[i], Verdict(failing, before, jobs[i]));
  }

  // ---------- the script ----------

  function JobsOf(t: Topo): seq<Job> {
    seq(|t.hosts|, i requires 0 <= i < |t.hosts| => Job(t.hosts[i].name, t.VmidOf(t.hosts[i]), t.NameOf(t.hosts[i])))
  }

  /** A rendered topology gives every job its own VMID and its own status file. */
  lemma JobsOfDistinct(t: Topo)
    requires t.Rendered()
    ensures JobsDistinct(JobsOf(t))
  {
    forall i, j | 0 <= i < j < |t.hosts| ensures FileName(t.hosts[i].name) != FileName(t.hosts[j].name) {
      assert t.hosts[i] in t.hosts && t.hosts[j] in t.hosts;
      FileNameOfName(t.hosts[i].name);
      FileNameOfName(t.hosts[j].name);
    }
  }

  /** Verification lets an entry pass: its VM is not there, or seems not to be, or is seen to carry the right name. */
  predicate Passes(failing: Failing, vms: map<int, Vm>, job: Job) {
    job.vmid in vms && job.vmid !in failing.verifyStatus ==>
      job.vmid !in failing.verifyName && vms[job.vmid].name == job.name
  }

  predicate Verified(failing: Failing, vms: map<int, Vm>, jobs: seq<Job>) {
    forall i :: 0 <= i < |jobs| ==> Passes(failing, vms, jobs[i])
  }

  /** The whole of destroy reports success. */
  predicate Succeeds(failing: Failing, vms: map<int, Vm>, jobs: seq<Job>) {
    Verified(failing, vms, jobs) && forall i :: 0 <= i < |jobs| ==> !Verdict(failing, vms, jobs[i]).Fails()
  }

  /** When all queries are answered, destroy's verification and create's clone loop refuse the same clusters, and what
      is verified succeeds. */
  lemma UnsafeIsConflict(t: Topo, failing: Failing, c: Pve)
    requires failing.Answers()
    ensures Verified(failing, c.vms, JobsOf(t)) <==> NoConflict(t, c)
    ensures Succeeds(failing, c.vms, JobsOf(t)) <==> NoConflict(t, c)
  {
    forall i | 0 <= i < |t.hosts|
      ensures Passes(failing, c.vms, JobsOf(t)[i]) <==> OwnOrFree(t, c, t.hosts[i])
      ensures Verdict(failing, c.vms, JobsOf(t)[i]).Fails() <==> !OwnOrFree(t, c, t.hosts[i])
    {}
    assert NoConflict(t, c) <==> forall i :: 0 <= i < |t.hosts| ==> OwnOrFree(t, c, t.hosts[i]);
  }

  method VerifyTargets(pve: Proxmox, jobs: seq<Job>, failing: Failing) returns (ok: bool)
    ensures ok <==> Verified(failing, pve.vms, jobs)
  {
    for k := 0 to |jobs|
      invariant forall i :: 0 <= i < k ==> Passes(failing, pve.vms, jobs[i])
    {
      var v := jobs[k].vmid;
      if v !in pve.vms || v in failing.verifyStatus {
        continue;
      }
      if v in failing.verifyName || pve.vms[v].name != jobs[k].name {
        return false;
      }
    }
    return true;
  }

  /** The pool, scheduled any way at all. */
  method RunWorkers(pve: Proxmox, jobs: seq<Job>, failing: Failing, limit: nat) returns (p: Pool)
    requires JobsDistinct(jobs) && limit >= 1
    modifies pve`vms
    ensures AllExited(p) && p.vms == pve.vms && Inv(jobs, failing, limit, old(pve.vms), p)
  {
    p := Initial(jobs, pve.vms);
    InitialInv(jobs, failing, limit, pve.vms);
    while !AllExited(p)
      invariant Inv(jobs, failing, limit, old(pve.vms), p) && p.vms == pve.vms
      decreases Left(p.phases)
    {
      NoDeadlock(jobs, failing, limit, old(pve.vms), p);
      var launch := *;
      if CanLaunch(jobs, limit, p) && (launch || forall i :: 0 <= i < |jobs| ==> !p.phases[i].Active()) {
        LaunchInv(jobs, failing, limit, old(pve.vms), p);
        p := Launch(p);
      } else {
        SomeoneActive(jobs, limit, p);
        var i: nat :| i < |jobs| && p.phases[i].Active();
        WorkInv(jobs, failing, limit, old(pve.vms), p, i);
        p := Work(jobs, failing, p, i);
        pve.vms := p.vms;
      }
    }
  }

  lemma SomeoneActive(jobs: seq<Job>, limit: nat, p: Pool)
    requires |p.phases| == |jobs| && exists m :: Enabled(jobs, limit, p, m)
    requires !CanLaunch(jobs, limit, p) || exists i :: 0 <= i < |jobs| && p.phases[i].Active()
    ensures exists i :: 0 <= i < |jobs| && p.phases[i].Active()
  {
    var m :| Enabled(jobs, limit, p, m);
    if m.WorkerMove? {
      assert p.phases[m.i].Active();
    }
  }

  function VnetNames(t: Topo, k: nat): set<string>
    requires k <= |t.networks|
  {
    set i | 0 <= i < k :: Vnet(t.networks[i].prefix, t.run)
  }

  /** Deletes the run's VNets and zone, those whose deletion fails excepted; the name guard never refuses a generated
      name. */
  method DeleteSdn(pve: Proxmox, t: Topo, failing: Failing) returns (ok: bool)
    requires t.Rendered()
    modifies pve`zones, pve`vnets
    ensures ok
    ensures pve.vnets == old(pve.vnets) - (VnetNames(t, |t.networks|) - failing.vnets)
    ensures pve.zones == old(pve.zones) - ({Zone(t.run)} - failing.zones)
  {
    for k := 0 to |t.networks|
      invariant pve.vnets == old(pve.vnets) - (VnetNames(t, k) - failing.vnets)
      invariant pve.zones == old(pve.zones)
    {
      var vnet := Vnet(t.networks[k].prefix, t.run);
      assert t.networks[k] in t.networks;
      VnetPassesGuard(t.networks[k].prefix, t.run);
      if !IsGeneratedSdnName(vnet) {
        return false;
      }
      if vnet !in failing.vnets {
        pve.vnets := pve.vnets - {vnet};
      }
      assert VnetNames(t, k + 1) == VnetNames(t, k) + {vnet};
    }
    GuardFor("pq", t.run);
    if !IsGeneratedSdnName(Zone(t.run)) {
      return false;
    }
    if Zone(t.run) !in failing.zones {
      pve.zones := pve.zones - {Zone(t.run)};
    }
    return true;
  }

  /** What a destroy of run t does to a cluster, and whether it reports success. Verification that fails leaves all as
      it was; otherwise the VMs are dealt with, and the VNets and the zone only after every worker succeeded. */
  ghost predicate Destroys(t: Topo, failing: Failing, before: Pve, after: Pve, ok: bool) {
    var jobs := JobsOf(t);
    && (ok <==> Succeeds(failing, before.vms, jobs))
    && (if Verified(failing, before.vms, jobs) then Outcome(jobs, failing, before.vms, after.vms)
        else after.vms == before.vms)
    && after.vnets == before.vnets - (if ok && t.qinq then VnetNames(t, |t.networks|) - failing.vnets else {})
    && after.zones == before.zones - (if ok && t.qinq then {Zone(t.run)} - failing.zones else {})
  }

  /** Destroying a run, whatever the schedule of the workers and whichever commands fail. When all queries are answered
      it succeeds exactly if no target VMID carries a foreign name, and otherwise changes nothing. */
  method DestroyRun(pve: Proxmox, t: Topo, failing: Failing, limit: nat) returns (ok: bool)
    requires t.Rendered() && limit >= 1
    modifies pve
    ensures Destroys(t, failing, old(pve.State()), pve.State(), ok)
    ensures failing.Answers() ==> (ok <==> NoConflict(t, old(pve.State())))
    ensures failing.Answers() && !ok ==> pve.State() == old(pve.State())
  {
    ghost var before := pve.State();
    ok := RunScript(pve, t, failing, limit);
    if failing.Answers() { WhenAnswered(t, failing, before, pve.State(), ok); }
  }

  lemma WhenAnswered(t: Topo, failing: Failing, before: Pve, after: Pve, ok: bool)
    requires Destroys(t, failing, before, after, ok) && failing.Answers()
    ensures (ok <==> NoConflict(t, before)) && (!ok ==> after == before)
  {
    UnsafeIsConflict(t, failing, before);
  }

  /** Verification refuses when it sees a VMID of the run in use whose name differs or cannot be read, and only then:
      nothing is changed at all in that case, and otherwise every VM is dealt with. */
  lemma RefusesExactly(t: Topo, failing: Failing, before: Pve, after: Pve, ok: bool)
    requires Destroys(t, failing, before, after, ok)
    ensures var refused := exists h :: h in t.hosts && SeenForeign(t, failing, before, h);
            if refused then !ok && after == before else Outcome(JobsOf(t), failing, before.vms, after.vms)
  {
    forall i | 0 <= i < |t.hosts|
      ensures Passes(failing, before.vms, JobsOf(t)[i]) <==> !SeenForeign(t, failing, before, t.hosts[i])
    {
    }
    assert Verified(failing, before.vms, JobsOf(t)) <==>
           forall i :: 0 <= i < |t.hosts| ==> !SeenForeign(t, failing, before, t.hosts[i]);
  }

  predicate SeenForeign(t: Topo, failing: Failing, c: Pve, h: HostSpec) {
    var v := t.VmidOf(h);
    v in c.vms && v !in failing.verifyStatus && (v in failing.verifyName || c.vms[v].name != t.NameOf(h))
  }

  method RunScript(pve: Proxmox, t: Topo, failing: Failing, limit: nat) returns (ok: bool)
    requires t.Rendered() && limit >= 1
    modifies pve
    ensures Destroys(t, failing, old(pve.State()), pve.State(), ok)
  {
    JobsOfDistinct(t);
    ok := DestroyVms(pve, JobsOf(t), failing, limit);
    if ok && t.qinq {
      ok := DeleteSdn(pve, t, failing);
    }
  }

  /** Verification, then the workers; false when verification or a worker fails. */
  method DestroyVms(pve: Proxmox, jobs: seq<Job>, failing: Failing, limit: nat) returns (ok: bool)
    requires JobsDistinct(jobs) && limit >= 1
    modifies pve`vms
    ensures ok <==> Succeeds(failing, old(pve.vms), jobs)
    ensures if Verified(failing, old(pve.vms), jobs) then Outcome(jobs, failing, old(pve.vms), pve.vms)
            else pve.vms == old(pve.vms)
  {
    ok := VerifyTargets(pve, jobs, failing);
    if !ok {
      return;
    }
    ghost var before := pve.vms;
    var p := RunWorkers(pve, jobs, failing, limit);
    FinishedFromInv(jobs, failing, limit, before, p);
    return !exists i :: 0 <= i < |jobs| && p.phases[i] == Exited(false);
  }

  // ---------- what a successful destroy may leave ----------

  /** A VM of the run, one of its VNets or its zone is on the cluster. */
  predicate Present(t: Topo, c: Pve) {
    || (exists h :: h in t.hosts && Live(t, h, c))
    || VnetNames(t, |t.networks|) * c.vnets.Keys != {}
    || Zone(t.run) in c.zones
  }

  /** The job's VM is there and stays: it is not seen, or cannot be deleted. */
  predicate Escapes(t: Topo, failing: Failing, h: HostSpec, c: Pve) {
    Live(t, h, c) && t.VmidOf(h) in failing.status + failing.delete
  }

  lemma LiveAfter(t: Topo, failing: Failing, before: Pve, after: Pve, i: nat)
    requires Succeeds(failing, before.vms, JobsOf(t)) && Outcome(JobsOf(t), failing, before.vms, after.vms)
    requires i < |t.hosts|
    ensures Live(t, t.hosts[i], after) <==> Escapes(t, failing, t.hosts[i], before)
  {
    assert Settled(before.vms, failing, after.vms, JobsOf(t)[i]);
    assert !Verdict(failing, before.vms, JobsOf(t)[i]).Fails();
  }

  /** A destroy that reports success leaves something of the run behind if and only if one of its VMs was not seen or
      could not be deleted, or one of its VNets or the zone was there and could not be deleted. */
  lemma LeavesNothingExactly(t: Topo, failing: Failing, before: Pve, after: Pve)
    requires t.qinq && Destroys(t, failing, before, after, true)
    ensures Present(t, after) <==>
            || (exists h :: h in t.hosts && Escapes(t, failing, h, before))
            || VnetNames(t, |t.networks|) * failing.vnets * before.vnets.Keys != {}
            || Zone(t.run) in failing.zones * before.zones.Keys
  {
    forall h | h in t.hosts ensures Live(t, h, after) <==> Escapes(t, failing, h, before) {
      var i :| 0 <= i < |t.hosts| && t.hosts[i] == h;
      LiveAfter(t, failing, before, after, i);
    }
    var names := VnetNames(t, |t.networks|);
    assert names * after.vnets.Keys == names * failing.vnets * before.vnets.Keys;
  }

  function ExampleTopo(run: nat, offset: int): Topo {
    Topo(run, true, [HostSpec("a", offset, [], false)], [NetSpec("n", 1)], 3000)
  }

  lemma ExampleRendered(run: nat, offset: int)
    ensures ExampleTopo(run, offset).Rendered()
  {
  }

  function ExampleVm(name: string): Vm { Vm(name, map[], true, false, true) }

  /** A run's VM is there, the worker's status query fails: destroy deletes the zone, reports success and leaves the VM,
      running, although no deletion failed. */
  lemma UnseenLeftBehind() returns (t: Topo, failing: Failing, before: Pve)
    ensures t.Rendered() && failing.stop == failing.delete == {} && failing.vnets == failing.zones == {}
    ensures |t.hosts| == 1 && Live(t, t.hosts[0], before) && Zone(t.run) in before.zones
    ensures forall after, ok :: Destroys(t, failing, before, after, ok) ==>
              ok && after.vms == before.vms && Zone(t.run) !in after.zones
  {
    t := ExampleTopo(1, 1);
    ExampleRendered(1, 1);
    var h := t.hosts[0];
    failing := NOTHING_FAILS.(status := {t.VmidOf(h)});
    before := Pve(map[t.VmidOf(h) := ExampleVm(t.NameOf(h))], map[Zone(1) := Sdn(Zone(1), 3000)], map[]);
    forall after, ok | Destroys(t, failing, before, after, ok)
      ensures ok && after.vms == before.vms && Zone(t.run) !in after.zones
    {
      OneJobStays(t, failing, before, after);
    }
  }

  lemma OneJobStays(t: Topo, failing: Failing, before: Pve, after: Pve)
    requires |t.hosts| == 1 && Outcome(JobsOf(t), failing, before.vms, after.vms)
    requires t.VmidOf(t.hosts[0]) in failing.status
    ensures after.vms == before.vms
  {
    var jobs := JobsOf(t);
    assert Settled(before.vms, failing, after.vms, jobs[0]);
    forall v ensures Same(before.vms, after.vms, v) {
      if IsJobVmid(jobs, v) { assert jobs[0].vmid == v; }
    }
    SameEverywhere(before.vms, after.vms);
  }

  /** The VM cannot be deleted: destroy reports success and leaves it. */
  lemma UndeletedLeftBehind() returns (t: Topo, failing: Failing, before: Pve)
    ensures t.Rendered() && failing.Answers() && |t.hosts| == 1 && Live(t, t.hosts[0], before)
    ensures forall after, ok :: Destroys(t, failing, before, after, ok) ==> ok && Live(t, t.hosts[0], after)
  {
    t := ExampleTopo(1, 1);
    ExampleRendered(1, 1);
    var h := t.hosts[0];
    failing := NOTHING_FAILS.(delete := {t.VmidOf(h)});
    before := Pve(map[t.VmidOf(h) := ExampleVm(t.NameOf(h))], map[], map[]);
    forall after, ok | Destroys(t, failing, before, after, ok) ensures ok && Live(t, t.hosts[0], after) {
      UnsafeIsConflict(t, failing, before);
      LiveAfter(t, failing, before, after, 0);
    }
  }

  /** Verification does not see that a VMID is another's, and its worker does: destroy fails, after another worker has
      deleted a VM. */
  lemma FailsHalfway() returns (t: Topo, failing: Failing, before: Pve)
    ensures t.Rendered() && |t.hosts| == 2 && Live(t, t.hosts[0], before)
    ensures forall after, ok :: Destroys(t, failing, before, after, ok) ==> !ok && t.VmidOf(t.hosts[0]) !in after.vms
  {
    t := Topo(1, true, [HostSpec("a", 1, [], false), HostSpec("b", 2, [], false)], [], 3000);
    var v, w := t.VmidOf(t.hosts[0]), t.VmidOf(t.hosts[1]);
    failing := NOTHING_FAILS.(verifyStatus := {w});
    before := Pve(map[v := ExampleVm(t.NameOf(t.hosts[0])), w := ExampleVm("other")], map[], map[]);
    assert JobsOf(t)[1].name[0] == 'p';
    forall after, ok | Destroys(t, failing, before, after, ok) ensures !ok && v !in after.vms {
      assert Verdict(failing, before.vms, JobsOf(t)[1]) == Unsafe;
      assert Settled(before.vms, failing, after.vms, JobsOf(t)[0]);
    }
  }
}
