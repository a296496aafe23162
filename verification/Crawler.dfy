/**
  AsyncCrawler of python/async_crawler.py: a scheduler that keeps at most maxPending crawls going, at most maxPerDomain of
  them for one domain, and puts those of a busy domain in a queue.

  A crawl is a job that is going until `Wait` gives it out as done; which jobs are done, and when, is up to the network.
*/
module Crawlers {
  import opened Sums
  import opened Wrappers

  datatype CrawlTask = CrawlTask(url: string, domain: Option<string>)

  /** A task whose domain is known; it also stands for its result, which copies both, whatever the outcome. */
  datatype Job = Job(url: string, domain: string)

  function JobOf(extract: string -> string, task: CrawlTask): Job {
    Job(task.url, if task.domain.Some? then task.domain.value else extract(task.url))
  }

  /** A given domain is kept, and only a missing one is taken from the address. */
  function JobsOf(extract: string -> string, tasks: seq<CrawlTask>): (jobs: seq<Job>)
    ensures |jobs| == |tasks|
    ensures forall i :: 0 <= i < |tasks| ==> jobs[i].url == tasks[i].url
    ensures forall i :: 0 <= i < |tasks| ==>
      tasks[i].domain == Some(jobs[i].domain) || (tasks[i].domain == None && jobs[i].domain == extract(tasks[i].url))
  {
    seq(|tasks|, i requires 0 <= i < |tasks| => JobOf(extract, tasks[i]))
  }

  /** Counts the jobs of one domain. */
  function InDomain(d: string): Job -> int { (job: Job) => if job.domain == d then 1 else 0 }

  function Lookup(counts: map<string, nat>, d: string): nat { if d in counts then counts[d] else 0 }

  function QueueOf(queues: map<string, seq<Job>>, d: string): seq<Job> { if d in queues then queues[d] else [] }

  /** The counters are exact and within the limit; `late` jobs are done but not yet seen to. */
  ghost predicate Counted(going: seq<Job>, late: seq<Job>, perDomain: map<string, nat>, most: nat) {
    forall d: string :: Lookup(perDomain, d) == Sum(going, InDomain(d)) + Sum(late, InDomain(d)) <= most
  }

  /** Only a domain at its limit has a queue, and the queue holds only its jobs. */
  ghost predicate QueuesOk(queues: map<string, seq<Job>>, perDomain: map<string, nat>, most: nat) {
    && (forall d: string :: QueueOf(queues, d) != [] ==> Lookup(perDomain, d) == most)
    && (forall d: string, k: nat :: k < |QueueOf(queues, d)| ==> QueueOf(queues, d)[k].domain == d)
  }

  /** Every job of `all` is in exactly one place. */
  ghost predicate Accounted(all: seq<Job>, results: seq<Job>, going: seq<Job>, queues: map<string, seq<Job>>, rest: seq<Job>) {
    forall job: Job :: multiset(results)[job] + multiset(going)[job] + multiset(QueueOf(queues, job.domain))[job] + multiset(rest)[job] == multiset(all)[job]
  }

  // ---- One change at a time -------------------------------------------------------------------------------------

  lemma SumOne(job: Job, d: string)
    ensures Sum([job], InDomain(d)) == if job.domain == d then 1 else 0
  {
    assert [job][1..] == [];
  }

  /** Starting a job keeps the counters exact. */
  lemma Started(going: seq<Job>, late: seq<Job>, perDomain: map<string, nat>, most: nat, job: Job)
    requires Counted(going, late, perDomain, most) && Lookup(perDomain, job.domain) < most
    ensures Counted(going + [job], late, perDomain[job.domain := Lookup(perDomain, job.domain) + 1], most)
  {
    forall d: string
      ensures Sum(going + [job], InDomain(d)) == Sum(going, InDomain(d)) + if job.domain == d then 1 else 0
    {
      SumConcat(going, [job], InDomain(d));
      SumOne(job, d);
    }
  }

  /** Seeing to a finished job keeps them exact. */
  lemma Finished(going: seq<Job>, late: seq<Job>, perDomain: map<string, nat>, most: nat)
    requires Counted(going, late, perDomain, most) && late != []
    ensures 0 < Lookup(perDomain, late[0].domain)
    ensures Counted(going, late[1..], perDomain[late[0].domain := Lookup(perDomain, late[0].domain) - 1], most)
  {
    var job := late[0];
    assert late == [job] + late[1..];
    forall d: string
      ensures Sum(late, InDomain(d)) == Sum(late[1..], InDomain(d)) + if job.domain == d then 1 else 0
    {
      SumConcat([job], late[1..], InDomain(d));
      SumOne(job, d);
    }
    LoadNonNegative(going, job.domain);
    LoadNonNegative(late[1..], job.domain);
  }

  lemma LoadNonNegative(jobs: seq<Job>, d: string)
    ensures 0 <= Sum(jobs, InDomain(d))
  {
    SumNonNegative(jobs, InDomain(d));
  }

  /** Waiting splits the jobs that are going into the late ones and the others. */
  lemma Waited(going: seq<Job>, done: seq<Job>, left: seq<Job>, perDomain: map<string, nat>, most: nat)
    requires Counted(going, [], perDomain, most) && multiset(going) == multiset(done) + multiset(left)
    ensures Counted(left, done, perDomain, most) && |going| == |done| + |left|
  {
    assert multiset(done + left) == multiset(going);
    assert |multiset(going)| == |going| && |multiset(done + left)| == |done + left|;
    forall d: string ensures Sum(going, InDomain(d)) == Sum(done, InDomain(d)) + Sum(left, InDomain(d)) {
      SumPermutation(done + left, going, InDomain(d));
      SumConcat(done, left, InDomain(d));
    }
  }

  lemma WithinLimit(going: seq<Job>, late: seq<Job>, perDomain: map<string, nat>, most: nat, d: string)
    requires Counted(going, late, perDomain, most)
    ensures Sum(going, InDomain(d)) <= Lookup(perDomain, d) <= most
  {
    LoadNonNegative(late, d);
  }

  lemma QueuesStarted(queues: map<string, seq<Job>>, perDomain: map<string, nat>, most: nat, d: string)
    requires QueuesOk(queues, perDomain, most) && Lookup(perDomain, d) < most
    ensures QueuesOk(queues, perDomain[d := Lookup(perDomain, d) + 1], most)
  {}

  lemma QueuesJoined(queues: map<string, seq<Job>>, perDomain: map<string, nat>, most: nat, job: Job)
    requires QueuesOk(queues, perDomain, most) && Lookup(perDomain, job.domain) == most
    ensures QueuesOk(queues[job.domain := QueueOf(queues, job.domain) + [job]], perDomain, most)
  {
    var queues' := queues[job.domain := QueueOf(queues, job.domain) + [job]];
    forall d: string, k: nat | k < |QueueOf(queues', d)| ensures QueueOf(queues', d)[k].domain == d {
      if d != job.domain { assert QueueOf(queues', d) == QueueOf(queues, d); }
    }
  }

  lemma QueuesUnneeded(queues: map<string, seq<Job>>, perDomain: map<string, nat>, most: nat, d: string)
    requires QueuesOk(queues, perDomain, most) && 0 < Lookup(perDomain, d) && QueueOf(queues, d) == []
    ensures QueuesOk(queues, perDomain[d := Lookup(perDomain, d) - 1], most)
  {}

  lemma QueuesLeft(queues: map<string, seq<Job>>, perDomain: map<string, nat>, most: nat, d: string)
    requires QueuesOk(queues, perDomain, most) && 0 < Lookup(perDomain, d) && QueueOf(queues, d) != []
    ensures QueueOf(queues, d)[0].domain == d && Lookup(perDomain, d) == most
    ensures QueuesOk(queues[d := QueueOf(queues, d)[1..]], perDomain[d := most], most)
  {
    var queues' := queues[d := QueueOf(queues, d)[1..]];
    forall c: string ensures QueueOf(queues', c) == if c == d then QueueOf(queues, d)[1..] else QueueOf(queues, c) {}
    forall c: string, k: nat | k < |QueueOf(queues', c)| ensures QueueOf(queues', c)[k].domain == c {
      if c == d { assert QueueOf(queues', c)[k] == QueueOf(queues, d)[k + 1]; }
    }
    forall c: string | QueueOf(queues', c) != [] ensures Lookup(perDomain[d := most], c) == most {
      assert QueueOf(queues, c) != [];
    }
  }

  // ---- No job is lost -------------------------------------------------------------------------------------------

  lemma FirstJob(extract: string -> string, tasks: seq<CrawlTask>)
    requires tasks != []
    ensures JobsOf(extract, tasks) == [JobOf(extract, tasks[0])] + JobsOf(extract, tasks[1..])
  {}

  lemma JobQueued(all: seq<Job>, results: seq<Job>, going: seq<Job>, queues: map<string, seq<Job>>, rest: seq<Job>, job: Job)
    requires Accounted(all, results, going, queues, [job] + rest)
    ensures Accounted(all, results, going, queues[job.domain := QueueOf(queues, job.domain) + [job]], rest)
  {
    var queues' := queues[job.domain := QueueOf(queues, job.domain) + [job]];
    forall x: Job
      ensures multiset(QueueOf(queues', x.domain))[x] + multiset(rest)[x] == multiset(QueueOf(queues, x.domain))[x] + multiset([job] + rest)[x]
    {}
  }

  lemma JobStarted(all: seq<Job>, results: seq<Job>, going: seq<Job>, queues: map<string, seq<Job>>, rest: seq<Job>, job: Job)
    requires Accounted(all, results, going, queues, [job] + rest)
    ensures Accounted(all, results, going + [job], queues, rest)
  {
    assert multiset([job] + rest) == multiset{job} + multiset(rest);
    assert multiset(going + [job]) == multiset{job} + multiset(going);
  }

  lemma JobYielded(all: seq<Job>, results: seq<Job>, going: seq<Job>, queues: map<string, seq<Job>>, rest: seq<Job>, late: seq<Job>)
    requires late != [] && Accounted(all, results, going + late, queues, rest)
    ensures Accounted(all, results + [late[0]], going + late[1..], queues, rest)
  {
    assert late == [late[0]] + late[1..];
    assert multiset(going + late) == multiset(going + late[1..]) + multiset{late[0]};
    assert multiset(results + [late[0]]) == multiset(results) + multiset{late[0]};
  }

  lemma JobResumed(all: seq<Job>, results: seq<Job>, going: seq<Job>, queues: map<string, seq<Job>>, rest: seq<Job>, late: seq<Job>, queue: seq<Job>)
    requires queue != [] && queue == QueueOf(queues, queue[0].domain) && Accounted(all, results, going + late, queues, rest)
    ensures Accounted(all, results, going + [queue[0]] + late, queues[queue[0].domain := queue[1..]], rest)
  {
    var job := queue[0];
    var queues' := queues[job.domain := queue[1..]];
    assert queue == [job] + queue[1..];
    assert multiset(queue) == multiset{job} + multiset(queue[1..]);
    assert multiset(going + [job] + late) == multiset(going + late) + multiset{job};
    forall x: Job
      ensures multiset(QueueOf(queues', x.domain))[x] + multiset{job}[x] == multiset(QueueOf(queues, x.domain))[x]
    {
      if x.domain != job.domain { assert QueueOf(queues', x.domain) == QueueOf(queues, x.domain); }
    }
  }

  lemma SameTotals(all: seq<Job>, results: seq<Job>, going: seq<Job>, going': seq<Job>, queues: map<string, seq<Job>>, rest: seq<Job>)
    requires Accounted(all, results, going + [], queues, rest) && multiset(going') == multiset(going)
    ensures Accounted(all, results, going', queues, rest)
  {
    assert going + [] == going;
  }

  lemma AtMostAll(all: seq<Job>, results: seq<Job>, going: seq<Job>, queues: map<string, seq<Job>>, rest: seq<Job>)
    requires Accounted(all, results, going + [], queues, rest)
    ensures |results| <= |all|
  {
    assert multiset(results) <= multiset(all);
    assert multiset(all) == multiset(results) + (multiset(all) - multiset(results));
    assert |multiset(all)| == |all| && |multiset(results)| == |results|;
  }

  /** With nothing going no domain is at its limit, so no queue holds anything: everything has been yielded. */
  lemma AllDone(all: seq<Job>, results: seq<Job>, queues: map<string, seq<Job>>, perDomain: map<string, nat>, most: nat)
    requires 0 < most && Counted([], [], perDomain, most) && QueuesOk(queues, perDomain, most) && Accounted(all, results, [], queues, [])
    ensures multiset(results) == multiset(all) && forall d: string :: QueueOf(queues, d) == []
  {
    forall d: string ensures QueueOf(queues, d) == [] {
      assert Lookup(perDomain, d) == 0;
    }
  }

  // ---- The jobs of a domain take turns ----------------------------------------------------------------------------

  /** The jobs of one domain, in their order. */
  function OfDomain(jobs: seq<Job>, d: string): seq<Job> {
    if jobs == [] then []
    else (if jobs[0].domain == d then [jobs[0]] else []) + OfDomain(jobs[1..], d)
  }

  lemma {:induction false} OfDomainConcat(a: seq<Job>, b: seq<Job>, d: string)
    ensures OfDomain(a + b, d) == OfDomain(a, d) + OfDomain(b, d)
    decreases |a|
  {
    if a == [] {
      assert a + b == b;
    } else {
      OfDomainConcat(a[1..], b, d);
      assert (a + b)[1..] == a[1..] + b;
    }
  }

  lemma OfDomainOne(job: Job, d: string)
    ensures OfDomain([job], d) == if job.domain == d then [job] else []
  {
    assert [job][1..] == [];
  }

  /** In every domain the started jobs, the queue and those to come are all its jobs in the order given. */
  ghost predicate InTurn(all: seq<Job>, started: seq<Job>, queues: map<string, seq<Job>>, rest: seq<Job>) {
    forall d: string :: OfDomain(started, d) + QueueOf(queues, d) + OfDomain(rest, d) == OfDomain(all, d)
  }

  lemma NoneStarted(all: seq<Job>)
    ensures InTurn(all, [], map[], all)
  {}

  lemma MovedToQueue(a: seq<Job>, q: seq<Job>, x: Job, rest: seq<Job>)
    ensures a + q + ([x] + rest) == a + (q + [x]) + rest
  {}

  lemma MovedToStarted(a: seq<Job>, q: seq<Job>, rest: seq<Job>)
    requires q != []
    ensures a + q + rest == a + [q[0]] + q[1..] + rest
  {}

  lemma TurnQueued(all: seq<Job>, started: seq<Job>, queues: map<string, seq<Job>>, rest: seq<Job>, job: Job)
    requires InTurn(all, started, queues, [job] + rest)
    ensures InTurn(all, started, queues[job.domain := QueueOf(queues, job.domain) + [job]], rest)
  {
    hide OfDomain;
    var queues' := queues[job.domain := QueueOf(queues, job.domain) + [job]];
    forall d: string ensures OfDomain(started, d) + QueueOf(queues', d) + OfDomain(rest, d) == OfDomain(all, d) {
      OfDomainConcat([job], rest, d);
      OfDomainOne(job, d);
      assert OfDomain(started, d) + QueueOf(queues, d) + OfDomain([job] + rest, d) == OfDomain(all, d);
      if d == job.domain {
        MovedToQueue(OfDomain(started, d), QueueOf(queues, d), job, OfDomain(rest, d));
      } else {
        assert OfDomain([job] + rest, d) == OfDomain(rest, d);
      }
    }
  }

  /** A job that starts at once passes nobody, since its domain has no queue. */
  lemma TurnStarted(all: seq<Job>, started: seq<Job>, queues: map<string, seq<Job>>, rest: seq<Job>, job: Job)
    requires InTurn(all, started, queues, [job] + rest) && QueueOf(queues, job.domain) == []
    ensures InTurn(all, started + [job], queues, rest)
  {
    hide OfDomain;
    forall d: string ensures OfDomain(started + [job], d) + QueueOf(queues, d) + OfDomain(rest, d) == OfDomain(all, d) {
      OfDomainConcat(started, [job], d);
      OfDomainConcat([job], rest, d);
      OfDomainOne(job, d);
      assert OfDomain(started, d) + QueueOf(queues, d) + OfDomain([job] + rest, d) == OfDomain(all, d);
      if d == job.domain {
        MovedToQueue(OfDomain(started, d), [], job, OfDomain(rest, d));
        assert OfDomain(started, d) + ([] + [job]) == OfDomain(started + [job], d) + [];
      } else {
        assert OfDomain([job] + rest, d) == OfDomain(rest, d) && OfDomain(started + [job], d) == OfDomain(started, d);
      }
    }
  }

  lemma TurnResumed(all: seq<Job>, started: seq<Job>, queues: map<string, seq<Job>>, rest: seq<Job>, d: string)
    requires InTurn(all, started, queues, rest) && QueueOf(queues, d) != [] && QueueOf(queues, d)[0].domain == d
    ensures InTurn(all, started + [QueueOf(queues, d)[0]], queues[d := QueueOf(queues, d)[1..]], rest)
  {
    hide OfDomain;
    var queue := QueueOf(queues, d);
    var queues' := queues[d := queue[1..]];
    forall c: string ensures OfDomain(started + [queue[0]], c) + QueueOf(queues', c) + OfDomain(rest, c) == OfDomain(all, c) {
      OfDomainConcat(started, [queue[0]], c);
      OfDomainOne(queue[0], c);
      assert OfDomain(started, c) + QueueOf(queues, c) + OfDomain(rest, c) == OfDomain(all, c);
      if c == d {
        MovedToStarted(OfDomain(started, c), queue, OfDomain(rest, c));
      } else {
        assert OfDomain(started + [queue[0]], c) == OfDomain(started, c) && QueueOf(queues', c) == QueueOf(queues, c);
      }
    }
  }

  lemma TurnsTaken(all: seq<Job>, started: seq<Job>, queues: map<string, seq<Job>>, rest: seq<Job>)
    requires InTurn(all, started, queues, rest)
    ensures forall d: string :: OfDomain(started, d) <= OfDomain(all, d)
    ensures rest == [] && (forall d: string :: QueueOf(queues, d) == []) ==> forall d: string :: OfDomain(started, d) == OfDomain(all, d)
  {
    forall d: string ensures OfDomain(started, d) <= OfDomain(all, d) {
      assert OfDomain(started, d) + QueueOf(queues, d) + OfDomain(rest, d) == OfDomain(all, d);
    }
  }

  // ---- The steps ------------------------------------------------------------------------------------------------

  /** `late` jobs are done and not yet seen to, `rest` are still to be taken. */
  ghost predicate BusyWith(all: seq<Job>, results: seq<Job>, going: seq<Job>, late: seq<Job>, perDomain: map<string, nat>,
      queues: map<string, seq<Job>>, rest: seq<Job>, maxPending: nat, most: nat)
  {
    && |going| + |late| <= maxPending
    && Counted(going, late, perDomain, most) && QueuesOk(queues, perDomain, most)
    && Accounted(all, results, going + late, queues, rest)
  }

  lemma NothingYet(all: seq<Job>, maxPending: nat, most: nat)
    ensures BusyWith(all, [], [], [], map[], map[], all, maxPending, most)
  {}

  lemma BusyCounted(all: seq<Job>, results: seq<Job>, going: seq<Job>, perDomain: map<string, nat>,
      queues: map<string, seq<Job>>, rest: seq<Job>, maxPending: nat, most: nat)
    requires BusyWith(all, results, going, [], perDomain, queues, rest, maxPending, most)
    ensures Counted(going, [], perDomain, most)
  {}

  lemma TaskQueued(all: seq<Job>, results: seq<Job>, going: seq<Job>, perDomain: map<string, nat>,
      queues: map<string, seq<Job>>, rest: seq<Job>, maxPending: nat, most: nat, job: Job)
    requires BusyWith(all, results, going, [], perDomain, queues, [job] + rest, maxPending, most) && most <= Lookup(perDomain, job.domain)
    ensures BusyWith(all, results, going, [], perDomain, queues[job.domain := QueueOf(queues, job.domain) + [job]], rest, maxPending, most)
  {
    hide Counted, QueuesOk, Accounted;
    WithinLimit(going, [], perDomain, most, job.domain);
    QueuesJoined(queues, perDomain, most, job);
    JobQueued(all, results, going + [], queues, rest, job);
  }

  lemma TaskStarted(all: seq<Job>, results: seq<Job>, going: seq<Job>, perDomain: map<string, nat>,
      queues: map<string, seq<Job>>, rest: seq<Job>, maxPending: nat, most: nat, job: Job)
    requires BusyWith(all, results, going, [], perDomain, queues, [job] + rest, maxPending, most)
    requires Lookup(perDomain, job.domain) < most && |going| < maxPending
    ensures BusyWith(all, results, going + [job], [], perDomain[job.domain := Lookup(perDomain, job.domain) + 1], queues, rest, maxPending, most)
  {
    hide Counted, QueuesOk, Accounted;
    Started(going, [], perDomain, most, job);
    QueuesStarted(queues, perDomain, most, job.domain);
    assert going + [] == going && going + [job] + [] == going + [job];
    JobStarted(all, results, going, queues, rest, job);
  }

  lemma SomeDone(all: seq<Job>, results: seq<Job>, going: seq<Job>, done: seq<Job>, left: seq<Job>, perDomain: map<string, nat>,
      queues: map<string, seq<Job>>, rest: seq<Job>, maxPending: nat, most: nat)
    requires BusyWith(all, results, going, [], perDomain, queues, rest, maxPending, most) && multiset(going) == multiset(done) + multiset(left)
    ensures BusyWith(all, results, left, done, perDomain, queues, rest, maxPending, most)
  {
    hide Counted, QueuesOk, Accounted;
    Waited(going, done, left, perDomain, most);
    SameTotals(all, results, going, left + done, queues, rest);
  }

  lemma NotMoreThanAll(all: seq<Job>, results: seq<Job>, going: seq<Job>, perDomain: map<string, nat>,
      queues: map<string, seq<Job>>, rest: seq<Job>, maxPending: nat, most: nat)
    requires BusyWith(all, results, going, [], perDomain, queues, rest, maxPending, most)
    ensures |results| <= |all| && (maxPending == 0 ==> going == []) && (most == 0 ==> going == [])
  {
    AtMostAll(all, results, going, queues, rest);
    if most == 0 && going != [] {
      TermAtMostSum(going, 0, InDomain(going[0].domain));
      WithinLimit(going, [], perDomain, most, going[0].domain);
    }
  }

  lemma NothingGoing(all: seq<Job>, results: seq<Job>, perDomain: map<string, nat>,
      queues: map<string, seq<Job>>, rest: seq<Job>, maxPending: nat, most: nat)
    requires BusyWith(all, results, [], [], perDomain, queues, rest, maxPending, most)
    ensures forall d: string :: Lookup(perDomain, d) == 0
    ensures rest == [] && 0 < most ==> multiset(results) == multiset(all) && forall d: string :: QueueOf(queues, d) == []
  {
    var none: seq<Job> := [];
    assert none + none == none;
    if rest == [] && 0 < most { AllDone(all, results, queues, perDomain, most); }
  }

  lemma PlaceFreed(all: seq<Job>, results: seq<Job>, going: seq<Job>, late: seq<Job>, perDomain: map<string, nat>,
      queues: map<string, seq<Job>>, rest: seq<Job>, maxPending: nat, most: nat)
    requires late != [] && BusyWith(all, results, going, late, perDomain, queues, rest, maxPending, most)
    requires QueueOf(queues, late[0].domain) == []
    ensures 0 < Lookup(perDomain, late[0].domain)
    ensures BusyWith(all, results + [late[0]], going, late[1..], perDomain[late[0].domain := Lookup(perDomain, late[0].domain) - 1],
      queues, rest, maxPending, most)
  {
    hide Counted, QueuesOk, Accounted;
    Finished(going, late, perDomain, most);
    QueuesUnneeded(queues, perDomain, most, late[0].domain);
    JobYielded(all, results, going, queues, rest, late);
  }

  lemma PlacePassedOn(all: seq<Job>, results: seq<Job>, going: seq<Job>, late: seq<Job>, perDomain: map<string, nat>,
      queues: map<string, seq<Job>>, rest: seq<Job>, maxPending: nat, most: nat, d: string, queue: seq<Job>)
    requires late != [] && BusyWith(all, results, going, late, perDomain, queues, rest, maxPending, most)
    requires d == late[0].domain && queue == QueueOf(queues, d) != []
    ensures 0 < most == Lookup(perDomain, d) && queue[0].domain == d && |going| < maxPending
    ensures Counted(going, late[1..], perDomain[d := most - 1], most)
    ensures BusyWith(all, results + [late[0]], going + [queue[0]], late[1..], perDomain[d := most], queues[d := queue[1..]], rest, maxPending, most)
  {
    hide Counted, QueuesOk, Accounted, QueueOf;
    Finished(going, late, perDomain, most);
    QueuesLeft(queues, perDomain, most, d);
    var fewer := perDomain[d := most - 1];
    JobYielded(all, results, going, queues, rest, late);
    Started(going, late[1..], fewer, most, queue[0]);
    JobResumed(all, results + [late[0]], going, queues, rest, late[1..], queue);
    assert fewer[d := most] == perDomain[d := most];
  }

  lemma NoQueue(all: seq<Job>, results: seq<Job>, going: seq<Job>, perDomain: map<string, nat>,
      queues: map<string, seq<Job>>, rest: seq<Job>, maxPending: nat, most: nat, d: string)
    requires BusyWith(all, results, going, [], perDomain, queues, rest, maxPending, most) && Lookup(perDomain, d) < most
    ensures QueueOf(queues, d) == []
  {}

  class AsyncCrawler {
    const maxPending: nat
    const maxPerDomain: nat
    const extract: string -> string
    var taskIter: seq<CrawlTask>
    var pending: seq<Job>
    var perDomain: map<string, nat>
    var queues: map<string, seq<Job>>
    /** The jobs in the order in which their crawls started. */
    ghost var started: seq<Job>

    constructor (maxPending: nat, maxPerDomain: nat, extract: string -> string)
      ensures this.maxPending == maxPending && this.maxPerDomain == maxPerDomain && this.extract == extract
      ensures pending == [] && perDomain == map[] && queues == map[] && taskIter == []
    {
      this.maxPending, this.maxPerDomain, this.extract := maxPending, maxPerDomain, extract;
      taskIter, pending, perDomain, queues := [], [], map[], map[];
      started := [];
    }

    /** `late` jobs are done and not yet seen to; `all` and `results` account for every job. */
    ghost predicate Busy(all: seq<Job>, results: seq<Job>, late: seq<Job>)
      reads this
    {
      BusyWith(all, results, pending, late, perDomain, queues, JobsOf(extract, taskIter), maxPending, maxPerDomain)
    }

    ghost predicate TakeTurns(all: seq<Job>)
      reads this
    {
      InTurn(all, started, queues, JobsOf(extract, taskIter))
    }

    /** The only place where a crawl starts: neither limit is passed. */
    method Start(job: Job, ghost late: seq<Job>)
      requires |pending| < maxPending && Lookup(perDomain, job.domain) < maxPerDomain && Counted(pending, late, perDomain, maxPerDomain)
      modifies this`pending, this`perDomain, this`started
      ensures started == old(started) + [job]
      ensures pending == old(pending) + [job] && perDomain == old(perDomain)[job.domain := Lookup(old(perDomain), job.domain) + 1]
      ensures Counted(pending, late, perDomain, maxPerDomain) && Sum(pending, InDomain(job.domain)) <= maxPerDomain && |pending| <= maxPending
    {
      hide Counted;
      Started(pending, late, perDomain, maxPerDomain, job);
      pending := pending + [job];
      started := started + [job];
      perDomain := perDomain[job.domain := Lookup(perDomain, job.domain) + 1];
      WithinLimit(pending, late, perDomain, maxPerDomain, job.domain);
    }

    /** Takes tasks until enough crawls are going or there are none left; those of a domain at its limit queue. */
    method PopulatePendingTasks(ghost all: seq<Job>, ghost results: seq<Job>)
      requires Busy(all, results, []) && TakeTurns(all)
      modifies this`taskIter, this`pending, this`perDomain, this`queues, this`started
      ensures Busy(all, results, []) && TakeTurns(all)
      ensures |pending| < maxPending ==> taskIter == []
    {
      hide BusyWith, Counted, JobsOf, InTurn;
      while |pending| < maxPending && taskIter != []
        invariant Busy(all, results, []) && TakeTurns(all)
        decreases |taskIter|
      {
        var job := JobOf(extract, taskIter[0]);
        FirstJob(extract, taskIter);
        taskIter := taskIter[1..];
        BusyCounted(all, results, pending, perDomain, queues, [job] + JobsOf(extract, taskIter), maxPending, maxPerDomain);
        assert Lookup(perDomain, job.domain) <= maxPerDomain by { WithinLimit(pending, [], perDomain, maxPerDomain, job.domain); }
        if Lookup(perDomain, job.domain) >= maxPerDomain {
          TaskQueued(all, results, pending, perDomain, queues, JobsOf(extract, taskIter), maxPending, maxPerDomain, job);
          TurnQueued(all, started, queues, JobsOf(extract, taskIter), job);
          queues := queues[job.domain := QueueOf(queues, job.domain) + [job]];
        } else {
          NoQueue(all, results, pending, perDomain, queues, [job] + JobsOf(extract, taskIter), maxPending, maxPerDomain, job.domain);
          TurnStarted(all, started, queues, JobsOf(extract, taskIter), job);
          TaskStarted(all, results, pending, perDomain, queues, JobsOf(extract, taskIter), maxPending, maxPerDomain, job);
          Start(job, []);
        }
      }
    }

    /** What follows one finished job: its place goes to the next job in its domain's queue. */
    method SeeTo(job: Job, ghost all: seq<Job>, ghost results: seq<Job>, ghost late: seq<Job>)
      requires late != [] && late[0] == job && Busy(all, results, late) && TakeTurns(all)
      modifies this`pending, this`perDomain, this`queues, this`started
      ensures Busy(all, results + [job], late[1..]) && TakeTurns(all)
    {
      hide BusyWith, Counted, JobsOf, InTurn;
      var queue := QueueOf(queues, job.domain);
      if queue == [] {
        PlaceFreed(all, results, pending, late, perDomain, queues, JobsOf(extract, taskIter), maxPending, maxPerDomain);
      } else {
        PlacePassedOn(all, results, pending, late, perDomain, queues, JobsOf(extract, taskIter), maxPending, maxPerDomain, job.domain, queue);
      }
      ghost var counts := perDomain;
      perDomain := perDomain[job.domain := Lookup(perDomain, job.domain) - 1];
      if queue != [] {
        assert perDomain[job.domain := maxPerDomain] == counts[job.domain := maxPerDomain];
        TurnResumed(all, started, queues, JobsOf(extract, taskIter), job.domain);
        queues := queues[job.domain := queue[1..]];
        Start(queue[0], late[1..]);
      }
    }

    /** asyncio.wait for the first to complete: some jobs that are going are done. */
    method Wait(going: seq<Job>) returns (done: seq<Job>, left: seq<Job>)
      requires going != []
      ensures done != [] && multiset(going) == multiset(done) + multiset(left)
    {
      done, left := going, [];
    }

    /** Every task yields exactly one result if both limits let any crawl start, and none does otherwise; at the end
        nothing is going.  The crawls of one domain start in the order of their tasks. */
    method CrawlAll(tasks: seq<CrawlTask>) returns (results: seq<Job>)
      requires pending == [] && perDomain == map[] && queues == map[]
      modifies this
      ensures 0 < maxPending && 0 < maxPerDomain ==> multiset(results) == multiset(JobsOf(extract, tasks))
      ensures maxPending == 0 || maxPerDomain == 0 ==> results == []
      ensures 0 < maxPending && 0 < maxPerDomain ==> taskIter == [] && forall d: string :: QueueOf(queues, d) == []
      ensures pending == [] && forall d: string :: Lookup(perDomain, d) == 0
      ensures forall d: string :: OfDomain(started, d) <= OfDomain(JobsOf(extract, tasks), d)
      ensures 0 < maxPending && 0 < maxPerDomain ==> forall d: string :: OfDomain(started, d) == OfDomain(JobsOf(extract, tasks), d)
    {
      hide BusyWith, InTurn;
      ghost var all := JobsOf(extract, tasks);
      taskIter, results, started := tasks, [], [];
      NoneStarted(all);
      NothingYet(all, maxPending, maxPerDomain);
      PopulatePendingTasks(all, results);
      while pending != []
        invariant Busy(all, results, []) && TakeTurns(all)
        invariant |pending| < maxPending ==> taskIter == []
        invariant maxPending == 0 || maxPerDomain == 0 ==> results == []
        decreases |all| - |results|
      {
        NotMoreThanAll(all, results, pending, perDomain, queues, JobsOf(extract, taskIter), maxPending, maxPerDomain);
        var done, left := Wait(pending);
        SomeDone(all, results, pending, done, left, perDomain, queues, JobsOf(extract, taskIter), maxPending, maxPerDomain);
        pending := left;
        ghost var before := results;
        for i := 0 to |done|
          invariant Busy(all, results, done[i..]) && TakeTurns(all)
          invariant results == before + done[..i]
        {
          SeeTo(done[i], all, results, done[i..]);
          assert done[i..][1..] == done[i + 1..];
          results := results + [done[i]];
        }
        assert done[|done|..] == [];
        PopulatePendingTasks(all, results);
      }
      NothingGoing(all, results, perDomain, queues, JobsOf(extract, taskIter), maxPending, maxPerDomain);
      TurnsTaken(all, started, queues, JobsOf(extract, taskIter));
    }
  }
}
