/** The dashboard (`index`, app.py): per-job head counts and the players of
    each job. */
module Dashboard {
  import opened Roster

  /** One job's line on the dashboard. */
  datatype JobStat = JobStat(job: string, total: int, leave: int, canFight: int)

  /** `Player.query.filter_by(job=job).all()`, in table order. */
  function OfJob(ps: seq<Player>, job: string): (r: seq<Player>)
    ensures forall i :: 0 <= i < |r| ==> r[i].job == job
  {
    if ps == [] then []
    else (if ps[0].job == job then [ps[0]] else []) + OfJob(ps[1..], job)
  }

  /** Every index moved one place on, past a new first element. */
  function Shifted(at: seq<nat>): (r: seq<nat>)
    ensures |r| == |at|
    ensures forall j :: 0 <= j < |at| ==> r[j] == at[j] + 1
  {
    seq(|at|, j requires 0 <= j < |at| => at[j] + 1)
  }

  /** The table indices of the players of a job, in table order. */
  function JobIndices(ps: seq<Player>, job: string): (at: seq<nat>)
    ensures forall j :: 0 <= j < |at| ==> at[j] < |ps|
  {
    if ps == [] then []
    else (if ps[0].job == job then [0] else []) + Shifted(JobIndices(ps[1..], job))
  }

  lemma {:induction false} JobIndicesSelect(ps: seq<Player>, job: string)
    ensures |JobIndices(ps, job)| == |OfJob(ps, job)|
    ensures forall j :: 0 <= j < |JobIndices(ps, job)| ==> ps[JobIndices(ps, job)[j]] == OfJob(ps, job)[j]
  {
    if ps != [] {
      var tail := ps[1..];
      JobIndicesSelect(tail, job);
      var before := JobIndices(tail, job);
      var at := JobIndices(ps, job);
      var listed := OfJob(ps, job);
      var rest := OfJob(tail, job);
      var h := if ps[0].job == job then 1 else 0;
      assert at == (if ps[0].job == job then [0] else []) + Shifted(before);
      assert listed == (if ps[0].job == job then [ps[0]] else []) + rest;
      forall j | h <= j < |at| ensures ps[at[j]] == listed[j] {
        assert at[j] == before[j - h] + 1 && tail[before[j - h]] == rest[j - h];
      }
    }
  }

  lemma {:induction false} JobIndicesIncreasing(ps: seq<Player>, job: string)
    ensures forall j, k :: 0 <= j < k < |JobIndices(ps, job)| ==> JobIndices(ps, job)[j] < JobIndices(ps, job)[k]
  {
    if ps != [] {
      JobIndicesIncreasing(ps[1..], job);
      var before := JobIndices(ps[1..], job);
      var at := JobIndices(ps, job);
      var h := if ps[0].job == job then 1 else 0;
      assert at == (if ps[0].job == job then [0] else []) + Shifted(before);
      forall j, k | 0 <= j < k < |at| ensures at[j] < at[k] {
        assert at[k] == before[k - h] + 1;
        if j >= h {
          assert at[j] == before[j - h] + 1;
        }
      }
    }
  }

  lemma {:induction false} JobIndicesComplete(ps: seq<Player>, job: string, i: nat) returns (j: nat)
    requires i < |ps| && ps[i].job == job
    ensures j < |JobIndices(ps, job)| && JobIndices(ps, job)[j] == i
  {
    var before := JobIndices(ps[1..], job);
    var sh := Shifted(before);
    if i == 0 {
      j := 0;
      assert JobIndices(ps, job) == [0] + sh;
    } else {
      assert ps[1..][i - 1] == ps[i];
      var m := JobIndicesComplete(ps[1..], job, i - 1);
      assert sh[m] == i;
      if ps[0].job == job {
        j := m + 1;
        assert JobIndices(ps, job) == [0] + sh;
      } else {
        j := m;
        assert JobIndices(ps, job) == sh;
      }
    }
  }

  /** The listing keeps every player of the job, in table order: `at` lists
      their indices in the table. */
  lemma OfJobInTableOrder(ps: seq<Player>, job: string) returns (at: seq<nat>)
    ensures |at| == |OfJob(ps, job)|
    ensures forall j :: 0 <= j < |at| ==> at[j] < |ps| && ps[at[j]] == OfJob(ps, job)[j]
    ensures forall j, k :: 0 <= j < k < |at| ==> at[j] < at[k]
    ensures forall i :: 0 <= i < |ps| && ps[i].job == job ==> i in at
  {
    at := JobIndices(ps, job);
    JobIndicesSelect(ps, job);
    JobIndicesIncreasing(ps, job);
    forall i | 0 <= i < |ps| && ps[i].job == job ensures i in at {
      var j := JobIndicesComplete(ps, job, i);
    }
  }

  /** `Player.query.filter_by(job=job).count()`. */
  function CountJob(ps: seq<Player>, job: string): (n: nat)
    ensures n <= |ps|
    ensures n == 0 <==> forall i :: 0 <= i < |ps| ==> ps[i].job != job
  {
    if ps == [] then 0 else (if ps[0].job == job then 1 else 0) + CountJob(ps[1..], job)
  }

  /** `Player.query.filter_by(job=job, can_fight=False).count()`. */
  function CountLeave(ps: seq<Player>, job: string): (n: nat)
    ensures n <= |ps|
    ensures n == 0 <==> forall i :: 0 <= i < |ps| && ps[i].job == job ==> ps[i].canFight
  {
    if ps == [] then 0
    else (if ps[0].job == job && !ps[0].canFight then 1 else 0) + CountLeave(ps[1..], job)
  }

  /** Nobody is on leave without being counted in the job's total. */
  lemma {:induction false} LeaveWithinTotal(ps: seq<Player>, job: string)
    ensures CountLeave(ps, job) <= CountJob(ps, job)
  {
    if ps != [] {
      LeaveWithinTotal(ps[1..], job);
    }
  }

  /** The listing of a job has exactly as many players as its total. */
  lemma {:induction false} ListingMatchesTotal(ps: seq<Player>, job: string)
    ensures |OfJob(ps, job)| == CountJob(ps, job)
  {
    if ps != [] {
      ListingMatchesTotal(ps[1..], job);
    }
  }

  /** `index`: the eight stat lines in job order, and every job mapped to its
      players (an empty list for a job nobody plays). */
  method Index(ps: seq<Player>) returns (stats: seq<JobStat>, grouped: map<string, seq<Player>>)
    ensures |stats| == |JOBS|
    ensures forall i :: 0 <= i < |JOBS| ==>
      && stats[i].job == JOBS[i]
      && stats[i].total == CountJob(ps, JOBS[i])
      && stats[i].leave == CountLeave(ps, JOBS[i])
      && 0 <= stats[i].leave <= stats[i].total
      && stats[i].canFight == stats[i].total - stats[i].leave
    ensures grouped.Keys == set j | j in JOBS
    ensures forall j :: j in grouped ==> grouped[j] == OfJob(ps, j) && |grouped[j]| == CountJob(ps, j)
  {
    stats := [];
    for i := 0 to |JOBS|
      invariant |stats| == i
      invariant forall k :: 0 <= k < i ==>
        && stats[k].job == JOBS[k]
        && stats[k].total == CountJob(ps, JOBS[k])
        && stats[k].leave == CountLeave(ps, JOBS[k])
        && 0 <= stats[k].leave <= stats[k].total
        && stats[k].canFight == stats[k].total - stats[k].leave
    {
      var job := JOBS[i];
      var total := CountJob(ps, job);
      var leave := CountLeave(ps, job);
      LeaveWithinTotal(ps, job);
      stats := stats + [JobStat(job, total, leave, total - leave)];
    }
    grouped := map j | j in JOBS :: OfJob(ps, j);
    forall j | j in grouped ensures |grouped[j]| == CountJob(ps, j) {
      ListingMatchesTotal(ps, j);
    }
  }

  // ------------------------------------------------------------ properties

  /** No edit changes a job total. */
  lemma {:induction false} CountsOfModified(ps: seq<Player>, id: int, e: Edit, job: string)
    ensures CountJob(Modified(ps, id, e), job) == CountJob(ps, job)
  {
    if ps != [] {
      CountsOfModified(ps[1..], id, e, job);
      assert Modified(ps, id, e)[1..] == Modified(ps[1..], id, e);
    }
  }

  /** Toggling a player moves them into or out of their job's leave count and
      changes no total. */
  lemma {:induction false} ToggleShiftsLeave(ps: seq<Player>, id: int, job: string)
    requires IdsAscending(ps)
    ensures CountJob(Modified(ps, id, Toggle), job) == CountJob(ps, job)
    ensures CountLeave(Modified(ps, id, Toggle), job) ==
      CountLeave(ps, job) + (match Find(ps, id)
        case None => 0
        case Some(p) => if p.job != job then 0 else if p.canFight then 1 else -1)
  {
    CountsOfModified(ps, id, Toggle, job);
    match Position(ps, id)
    case None =>
      ModifiedNowhere(ps, id, Toggle);
    case Some(k) =>
      ModifiedAt(ps, id, Toggle, k);
      LeaveAfterUpdate(ps, k, ps[k].(canFight := !ps[k].canFight), job);
  }

  lemma {:induction false} LeaveAfterUpdate(ps: seq<Player>, k: nat, p: Player, job: string)
    requires k < |ps| && p.job == ps[k].job
    ensures CountLeave(ps[k := p], job) ==
      CountLeave(ps, job)
      - (if ps[k].job == job && !ps[k].canFight then 1 else 0)
      + (if p.job == job && !p.canFight then 1 else 0)
  {
    if k > 0 {
      LeaveAfterUpdate(ps[1..], k - 1, p, job);
      assert ps[k := p][1..] == ps[1..][k - 1 := p];
    } else {
      assert ps[k := p][1..] == ps[1..];
    }
  }

  /** Toggling the same player twice leaves every job's numbers as they were. */
  lemma ToggleTwiceKeepsStats(ps: seq<Player>, id: int, job: string)
    ensures CountLeave(Modified(Modified(ps, id, Toggle), id, Toggle), job) == CountLeave(ps, job)
    ensures OfJob(Modified(Modified(ps, id, Toggle), id, Toggle), job) == OfJob(ps, job)
  {
    ToggleTwice(ps, id);
  }

  /** A deleted player disappears from their job's listing, which shrinks by
      one; other jobs are unchanged. */
  lemma DeleteLeavesListing(ps: seq<Player>, id: int, job: string)
    requires IdsAscending(ps)
    ensures forall i :: 0 <= i < |OfJob(Without(ps, id), job)| ==> OfJob(Without(ps, id), job)[i].id != id
    ensures CountJob(Without(ps, id), job) ==
      CountJob(ps, job) - (match Find(ps, id) case None => 0 case Some(p) => if p.job == job then 1 else 0)
  {
    ListingAvoids(Without(ps, id), id, job);
    match Position(ps, id)
    case None =>
      WithoutNowhere(ps, id);
    case Some(k) =>
      WithoutAt(ps, id, k);
      assert ps == ps[..k] + [ps[k]] + ps[k + 1..];
      CountJobAppend(ps[..k] + [ps[k]], ps[k + 1..], job);
      CountJobAppend(ps[..k], [ps[k]], job);
      CountJobAppend(ps[..k], ps[k + 1..], job);
  }

  lemma {:induction false} ListingAvoids(ps: seq<Player>, id: int, job: string)
    requires forall i :: 0 <= i < |ps| ==> ps[i].id != id
    ensures forall i :: 0 <= i < |OfJob(ps, job)| ==> OfJob(ps, job)[i].id != id
  {
    if ps != [] {
      ListingAvoids(ps[1..], id, job);
    }
  }

  lemma {:induction false} CountJobAppend(a: seq<Player>, b: seq<Player>, job: string)
    ensures CountJob(a + b, job) == CountJob(a, job) + CountJob(b, job)
  {
    if a != [] {
      CountJobAppend(a[1..], b, job);
      assert (a + b)[1..] == a[1..] + b;
    } else {
      assert a + b == b;
    }
  }
}
