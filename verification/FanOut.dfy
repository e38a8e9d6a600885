/** The skeleton shared by the three multi-document operations of couchbase.cxx: extract all tuples or raise,
    then for each tuple build a request, which may raise, and execute it with a promise of its own; collect the
    responses in request order, while the cluster completes requests in any order, from the moment each is
    executed. Nothing is assumed about the cluster except that it calls each callback once. */
module FanOut {
  import opened Wrappers

  /** The extracted tuples, or the exception extraction raised, and how the body of the dispatch loop makes a request
      of a tuple before it executes it. */
  datatype Job<!T, +Req, +Exc> = Job(tuples: Result<seq<T>, Exc>, build: T -> Result<Req, Exc>)

  /** Where the calling thread is. */
  datatype Main<Exc> =
    | Start
    | Raised(exc: Exc)
    | Dispatching(next: nat)                   // about to build and execute request `next`, or to start collecting
    | Registered(request: nat, promise: nat)   // executed; before `barriers.emplace_back`
    | Collecting(got: nat)                     // about to wait for the future of barrier `got`
    | Done

  /** A request handed to the cluster, with the promise its callback captured. */
  datatype Operation<Req> = Operation(req: Req, promise: nat)

  /** `promises` is the heap of promises, named by their position. `executed` lists the calls of
      `cluster->execute` in order, `pending` those whose callback has not fired, and `answers` the responses the
      cluster gave, both by position in `executed`. */
  datatype State<Req, Resp, Exc> = State(
    main: Main<Exc>,
    executed: seq<Operation<Req>>,
    pending: set<nat>,
    answers: map<nat, Resp>,
    promises: seq<Option<Resp>>,
    barriers: seq<nat>,
    results: seq<Resp>)

  datatype Step<Resp> = Extract | Execute | Push | StartCollecting | Collect | Finish | Complete(op: nat, resp: Resp)

  function Size<T, Req, Exc>(job: Job<T, Req, Exc>): nat {
    if job.tuples.Ok? then |job.tuples.value| else 0
  }

  function Init<Req, Resp, Exc>(): State<Req, Resp, Exc> {
    State(Start, [], {}, map[], [], [], [])
  }

  predicate Enabled<T, Req, Resp, Exc>(job: Job<T, Req, Exc>, s: State<Req, Resp, Exc>, step: Step<Resp>) {
    match step
    case Extract => s.main.Start?
    case Execute => s.main.Dispatching? && s.main.next < Size(job)
    case Push => s.main.Registered?
    case StartCollecting => s.main.Dispatching? && s.main.next >= Size(job)
    case Collect =>
      && s.main.Collecting?
      && s.main.got < |s.barriers|
      && s.barriers[s.main.got] < |s.promises|
      && s.promises[s.barriers[s.main.got]].Some?
    case Finish => s.main.Collecting? && s.main.got >= |s.barriers|
    case Complete(op, _) => op in s.pending && op < |s.executed| && s.executed[op].promise < |s.promises|
  }

  /** Setting a promise twice throws. */
  datatype Outcome<Req, Resp, Exc> = Next(state: State<Req, Resp, Exc>) | PromiseAlreadySatisfied

  function Effect<T, Req, Resp, Exc>(job: Job<T, Req, Exc>, s: State<Req, Resp, Exc>, step: Step<Resp>)
    : Outcome<Req, Resp, Exc>
    requires Enabled(job, s, step)
  {
    match step
    case Extract =>
      Next(s.(main := if job.tuples.Ok? then Dispatching(0) else Raised(job.tuples.error)))
    case Execute =>
      var built := job.build(job.tuples.value[s.main.next]);
      if built.Err? then Next(s.(main := Raised(built.error)))
      else
        var p := |s.promises|;
        Next(s.(main := Registered(s.main.next, p),
                promises := s.promises + [None],
                executed := s.executed + [Operation(built.value, p)],
                pending := s.pending + {|s.executed|}))
    case Push =>
      Next(s.(main := Dispatching(s.main.request + 1), barriers := s.barriers + [s.main.promise]))
    case StartCollecting =>
      Next(s.(main := Collecting(0)))
    case Collect =>
      Next(s.(main := Collecting(s.main.got + 1), results := s.results + [s.promises[s.barriers[s.main.got]].value]))
    case Finish =>
      Next(s.(main := Done))
    case Complete(op, resp) =>
      var p := s.executed[op].promise;
      if s.promises[p].Some? then PromiseAlreadySatisfied
      else
        Next(s.(pending := s.pending - {op}, answers := s.answers[op := resp], promises := s.promises[p := Some(resp)]))
  }

  ghost predicate Transition<T, Req, Resp(!new), Exc>(
    job: Job<T, Req, Exc>, s: State<Req, Resp, Exc>, s': State<Req, Resp, Exc>)
  {
    exists step: Step<Resp> :: Enabled(job, s, step) && Effect(job, s, step) == Next(s')
  }

  ghost predicate IsRun<T, Req, Resp(!new), Exc>(job: Job<T, Req, Exc>, run: seq<State<Req, Resp, Exc>>) {
    && run != []
    && run[0] == Init()
    && forall i :: 0 <= i < |run| - 1 ==> Transition(job, run[i], run[i + 1])
  }

  // ----- the invariant

  /** How many requests have been executed, and how many results collected, at each place of the calling thread;
      a thread that raised may have executed some. */
  function Executed<Exc>(m: Main<Exc>, n: nat): nat {
    match m
    case Dispatching(i) => i
    case Registered(i, _) => i + 1
    case Collecting(_) => n
    case Done => n
    case _ => 0
  }

  function Collected<Exc>(m: Main<Exc>, n: nat): nat {
    match m
    case Collecting(j) => j
    case Done => n
    case _ => 0
  }

  ghost predicate PlaceInv<T, Req, Resp, Exc>(job: Job<T, Req, Exc>, s: State<Req, Resp, Exc>) {
    && (s.main.Raised? ==>
          if job.tuples.Err? then s.main.exc == job.tuples.error && s.executed == []
          else |s.executed| < Size(job) && job.build(job.tuples.value[|s.executed|]) == Err(s.main.exc))
    && (!s.main.Start? && !s.main.Raised? ==> job.tuples.Ok? && |s.executed| == Executed(s.main, Size(job)))
    && (s.main.Start? ==> s.executed == [])
    && (s.main.Dispatching? ==> s.main.next <= Size(job))
    && (s.main.Registered? ==> s.main.request < Size(job) && s.main.promise == s.main.request)
    && (s.main.Collecting? ==> s.main.got <= Size(job))
  }

  /** Tuple k, operation k, promise k and barrier k belong together. */
  ghost predicate Aligned<T, Req, Resp, Exc>(job: Job<T, Req, Exc>, s: State<Req, Resp, Exc>) {
    && |s.executed| == |s.promises| <= Size(job)
    && |s.barriers| == (if s.main.Registered? then s.main.request else |s.executed|)
    && (forall k :: 0 <= k < |s.executed| ==>
          s.executed[k].promise == k && job.build(job.tuples.value[k]) == Ok(s.executed[k].req))
    && (forall k :: 0 <= k < |s.barriers| ==> s.barriers[k] == k)
  }

  /** Every executed request is either pending, with its promise unset, or answered, with the answer in its promise. */
  ghost predicate Answered<Req, Resp, Exc>(s: State<Req, Resp, Exc>) {
    && |s.promises| == |s.executed|
    && (forall k :: k in s.pending ==> 0 <= k < |s.executed|)
    && (forall k :: k in s.answers ==> 0 <= k < |s.executed| && k !in s.pending)
    && (forall k :: 0 <= k < |s.promises| ==>
          s.promises[k] == if k in s.answers then Some(s.answers[k]) else None)
    && (forall k :: 0 <= k < |s.promises| ==> k in s.pending || k in s.answers)
  }

  ghost predicate InOrder<T, Req, Resp, Exc>(job: Job<T, Req, Exc>, s: State<Req, Resp, Exc>) {
    && |s.results| == Collected(s.main, Size(job))
    && forall j :: 0 <= j < |s.results| ==> j in s.answers && s.results[j] == s.answers[j]
  }

  ghost predicate Inv<T, Req, Resp, Exc>(job: Job<T, Req, Exc>, s: State<Req, Resp, Exc>) {
    PlaceInv(job, s) && Aligned(job, s) && Answered(s) && InOrder(job, s)
  }

  lemma StepSucceeds<T, Req, Resp, Exc>(job: Job<T, Req, Exc>, s: State<Req, Resp, Exc>, step: Step<Resp>)
    requires Inv(job, s) && Enabled(job, s, step)
    ensures Effect(job, s, step).Next?
  {
    hide InOrder, PlaceInv;
  }

  lemma PlacePreserved<T, Req, Resp, Exc>(job: Job<T, Req, Exc>, s: State<Req, Resp, Exc>, step: Step<Resp>)
    requires Inv(job, s) && Enabled(job, s, step) && Effect(job, s, step).Next?
    ensures PlaceInv(job, Effect(job, s, step).state)
  {
    hide InOrder, Answered;
  }

  lemma AlignedPreserved<T, Req, Resp, Exc>(job: Job<T, Req, Exc>, s: State<Req, Resp, Exc>, step: Step<Resp>)
    requires Inv(job, s) && Enabled(job, s, step) && Effect(job, s, step).Next?
    ensures Aligned(job, Effect(job, s, step).state)
  {
    hide InOrder, Answered;
  }

  lemma AnsweredPreserved<T, Req, Resp, Exc>(job: Job<T, Req, Exc>, s: State<Req, Resp, Exc>, step: Step<Resp>)
    requires Inv(job, s) && Enabled(job, s, step) && Effect(job, s, step).Next?
    ensures Answered(Effect(job, s, step).state)
  {
    hide InOrder, PlaceInv;
  }

  lemma OrderPreserved<T, Req, Resp, Exc>(job: Job<T, Req, Exc>, s: State<Req, Resp, Exc>, step: Step<Resp>)
    requires Inv(job, s) && Enabled(job, s, step) && Effect(job, s, step).Next?
    ensures InOrder(job, Effect(job, s, step).state)
  {
  }

  /** Every step keeps the invariant, and no promise is ever set twice. */
  lemma StepPreserves<T, Req, Resp, Exc>(job: Job<T, Req, Exc>, s: State<Req, Resp, Exc>, step: Step<Resp>)
    requires Inv(job, s) && Enabled(job, s, step)
    ensures Effect(job, s, step).Next? && Inv(job, Effect(job, s, step).state)
  {
    hide InOrder, Answered, Aligned, PlaceInv;
    StepSucceeds(job, s, step);
    PlacePreserved(job, s, step);
    AlignedPreserved(job, s, step);
    AnsweredPreserved(job, s, step);
    OrderPreserved(job, s, step);
  }

  lemma {:induction false} RunInvariant<T, Req, Resp(!new), Exc>(
    job: Job<T, Req, Exc>, run: seq<State<Req, Resp, Exc>>, i: nat)
    requires IsRun(job, run) && i < |run|
    ensures Inv(job, run[i])
  {
    if i > 0 {
      RunInvariant(job, run, i - 1);
      var s := run[i - 1];
      assert Transition(job, s, run[i - 1 + 1]);
      var step: Step<Resp> :| Enabled(job, s, step) && Effect(job, s, step) == Next(run[i]);
      StepPreserves(job, s, step);
    }
  }

  // ----- what is sent

  /** Extraction and every build succeed. */
  ghost predicate Sendable<T, Req, Exc>(job: Job<T, Req, Exc>) {
    job.tuples.Ok? && forall i :: 0 <= i < |job.tuples.value| ==> job.build(job.tuples.value[i]).Ok?
  }

  /** If building fails for any tuple, it fails for the first. */
  ghost predicate FailsFirst<T, Req, Exc>(job: Job<T, Req, Exc>) {
    job.tuples.Ok? ==>
      forall i :: 0 <= i < |job.tuples.value| && job.build(job.tuples.value[i]).Err? ==> job.build(job.tuples.value[0]).Err?
  }

  /** At every moment of every run, one request has been executed for each tuple of a prefix, in order, as built from it;
      an exception comes from extraction, with nothing executed, or from building the next request. */
  lemma ExecutedIsBuiltPrefix<T, Req, Resp(!new), Exc>(job: Job<T, Req, Exc>, run: seq<State<Req, Resp, Exc>>, i: nat)
    requires IsRun(job, run) && i < |run|
    ensures var s := run[i];
            && |s.executed| <= Size(job)
            && (forall k :: 0 <= k < |s.executed| ==> job.build(job.tuples.value[k]) == Ok(s.executed[k].req))
            && (s.main.Collecting? || s.main.Done? ==> Sendable(job) && |s.executed| == Size(job))
            && (s.main.Raised? ==>
                  if job.tuples.Err? then s.executed == [] && s.main.exc == job.tuples.error
                  else |s.executed| < Size(job) && job.build(job.tuples.value[|s.executed|]) == Err(s.main.exc))
  {
    RunInvariant(job, run, i);
  }

  /** All or nothing, when a build that fails for some tuple fails for the first: at every moment of every run, a job that
      can be sent has not raised, and one that cannot has executed nothing and never gets past dispatching. */
  lemma AllOrNothing<T, Req, Resp(!new), Exc>(job: Job<T, Req, Exc>, run: seq<State<Req, Resp, Exc>>, i: nat)
    requires FailsFirst(job) && IsRun(job, run) && i < |run|
    ensures var s := run[i];
            if Sendable(job) then !s.main.Raised?
            else s.executed == [] && (s.main.Start? || s.main == Dispatching(0) || s.main.Raised?)
  {
    RunInvariant(job, run, i);
    var s := run[i];
    if !Sendable(job) && job.tuples.Ok? {
      var k :| 0 <= k < Size(job) && job.build(job.tuples.value[k]).Err?;
      assert job.build(job.tuples.value[0]).Err?;
    }
  }

  // ----- when builds fail late

  lemma ExtendRun<T, Req, Resp(!new), Exc>(job: Job<T, Req, Exc>, run: seq<State<Req, Resp, Exc>>, step: Step<Resp>)
    requires IsRun(job, run) && Enabled(job, run[|run| - 1], step) && Effect(job, run[|run| - 1], step).Next?
    ensures IsRun(job, run + [Effect(job, run[|run| - 1], step).state])
  {
    var last := run[|run| - 1];
    var longer := run + [Effect(job, last, step).state];
    assert Transition(job, last, longer[|run|]);
    forall i | 0 <= i < |longer| - 1
      ensures Transition(job, longer[i], longer[i + 1])
    {
      if i < |run| - 1 {
        assert Transition(job, run[i], run[i + 1]);
      }
    }
  }

  /** As long as builds succeed, some run executes that many requests. */
  lemma {:induction false} DispatchReaches<T, Req, Resp(!new), Exc>(job: Job<T, Req, Exc>, k: nat)
    returns (run: seq<State<Req, Resp, Exc>>)
    requires job.tuples.Ok? && k <= Size(job)
    requires forall j :: 0 <= j < k ==> job.build(job.tuples.value[j]).Ok?
    ensures IsRun(job, run) && run[|run| - 1].main == Dispatching(k) && |run[|run| - 1].executed| == k
    ensures run[|run| - 1].answers == map[]
  {
    if k == 0 {
      var init: State<Req, Resp, Exc> := Init();
      run := [init];
      ExtendRun(job, run, Extract);
      run := run + [Effect(job, init, Extract).state];
    } else {
      run := DispatchReaches(job, k - 1);
      var s := run[|run| - 1];
      ExtendRun(job, run, Execute);
      var s1 := Effect(job, s, Execute).state;
      run := run + [s1];
      ExtendRun(job, run, Push);
      run := run + [Effect(job, s1, Push).state];
    }
  }

  /** A run that raises after `k` requests have been executed, when tuple `k` is the first whose build fails. */
  lemma RaisesAfter<T, Req, Resp(!new), Exc>(job: Job<T, Req, Exc>, k: nat) returns (run: seq<State<Req, Resp, Exc>>)
    requires job.tuples.Ok? && k < Size(job) && job.build(job.tuples.value[k]).Err?
    requires forall j :: 0 <= j < k ==> job.build(job.tuples.value[j]).Ok?
    ensures IsRun(job, run) && run[|run| - 1].main.Raised? && |run[|run| - 1].executed| == k
  {
    run := DispatchReaches(job, k);
    ExtendRun(job, run, Execute);
    run := run + [Effect(job, run[|run| - 1], Execute).state];
  }

  lemma {:induction false} FirstFailure<T, Req, Exc>(job: Job<T, Req, Exc>, i: nat) returns (k: nat)
    requires job.tuples.Ok? && i < Size(job) && job.build(job.tuples.value[i]).Err?
    ensures k <= i && job.build(job.tuples.value[k]).Err?
    ensures forall j :: 0 <= j < k ==> job.build(job.tuples.value[j]).Ok?
  {
    if j :| 0 <= j < i && job.build(job.tuples.value[j]).Err? {
      k := FirstFailure(job, j);
    } else {
      k := i;
    }
  }

  /** No run raises after executing a request. */
  ghost predicate NeverHalfSent<T, Req(!new), Resp(!new), Exc(!new)>(job: Job<T, Req, Exc>) {
    forall run: seq<State<Req, Resp, Exc>> ::
      IsRun(job, run) && run[|run| - 1].main.Raised? ==> run[|run| - 1].executed == []
  }

  /** The loop is all or nothing exactly for the jobs whose builds, if any fails, fail for the first tuple already. */
  lemma NeverHalfSentIff<T, Req(!new), Resp(!new), Exc(!new)>(job: Job<T, Req, Exc>)
    ensures NeverHalfSent<T, Req, Resp, Exc>(job) <==> FailsFirst(job)
  {
    if FailsFirst(job) {
      forall run: seq<State<Req, Resp, Exc>> | IsRun(job, run) && run[|run| - 1].main.Raised?
        ensures run[|run| - 1].executed == []
      {
        AllOrNothing(job, run, |run| - 1);
      }
    } else {
      var i :| 0 <= i < Size(job) && job.build(job.tuples.value[i]).Err? && job.build(job.tuples.value[0]).Ok?;
      var k := FirstFailure(job, i);
      var run: seq<State<Req, Resp, Exc>> := RaisesAfter(job, k);
      assert run[|run| - 1].executed != [];
    }
  }

  // ----- what is returned

  /** Whatever the order of completions, entry i of the results is the cluster's answer to the request built from tuple i,
      and no callback is outstanding when the call returns. */
  lemma ResultsInRequestOrder<T, Req, Resp(!new), Exc>(job: Job<T, Req, Exc>, run: seq<State<Req, Resp, Exc>>)
    requires IsRun(job, run) && run[|run| - 1].main.Done?
    ensures Sendable(job)
    ensures var s := run[|run| - 1];
            && |s.results| == |s.executed| == Size(job)
            && s.pending == {}
            && forall i :: 0 <= i < |s.results| ==>
                 && job.build(job.tuples.value[i]) == Ok(s.executed[i].req)
                 && i in s.answers
                 && s.results[i] == s.answers[i]
  {
    RunInvariant(job, run, |run| - 1);
  }

  // ----- the cluster answers as it likes

  /** From one state to the next the cluster completes one request with one response. */
  ghost predicate Completes<T, Req, Resp, Exc>(
    job: Job<T, Req, Exc>, s: State<Req, Resp, Exc>, op: nat, resp: Resp, s': State<Req, Resp, Exc>)
  {
    Enabled(job, s, Complete(op, resp)) && Effect(job, s, Complete(op, resp)) == Next(s')
  }

  /** At every moment of every run, each executed request is answered or pending, and each pending one may be completed next
      with any response, which answers it and changes nothing for the calling thread. */
  lemma AnyCompletion<T, Req, Resp(!new), Exc>(
    job: Job<T, Req, Exc>, run: seq<State<Req, Resp, Exc>>, i: nat, op: nat, resp: Resp)
    requires IsRun(job, run) && i < |run|
    ensures op in run[i].pending <==> op < |run[i].executed| && op !in run[i].answers
    ensures op in run[i].pending ==>
              && Enabled(job, run[i], Complete(op, resp))
              && Effect(job, run[i], Complete(op, resp)).Next?
              && var s, s' := run[i], Effect(job, run[i], Complete(op, resp)).state;
                 && s'.answers == s.answers[op := resp] && s'.pending == s.pending - {op}
                 && s'.main == s.main && s'.executed == s.executed && s'.results == s.results
  {
    RunInvariant(job, run, i);
    hide PlaceInv, InOrder;
    if op < |run[i].executed| { assert run[i].promises[op] == run[i].promises[op]; }
  }

  ghost predicate Distinct(order: seq<nat>) {
    forall i, j :: 0 <= i < j < |order| ==> order[i] != order[j]
  }

  /** From any run, pending requests can be completed in any order, one right after the other. */
  lemma {:induction false} CompletesInOrder<T, Req, Resp(!new), Exc>(
    job: Job<T, Req, Exc>, run: seq<State<Req, Resp, Exc>>, order: seq<nat>, resps: seq<Resp>)
    returns (longer: seq<State<Req, Resp, Exc>>)
    requires IsRun(job, run) && Distinct(order)
    requires forall j :: 0 <= j < |order| ==> order[j] in run[|run| - 1].pending && order[j] < |resps|
    ensures IsRun(job, longer) && run <= longer && |longer| == |run| + |order|
    ensures forall j :: 0 <= j < |order| ==>
              Completes(job, longer[|run| - 1 + j], order[j], resps[order[j]], longer[|run| + j])
    ensures longer[|longer| - 1].main == run[|run| - 1].main
    ensures var before, after := run[|run| - 1].answers, longer[|longer| - 1].answers;
            && (forall j :: 0 <= j < |order| ==> order[j] in after && after[order[j]] == resps[order[j]])
            && (forall k :: k in before ==> k in after && after[k] == before[k])
    decreases |order|
  {
    hide Enabled, Effect;
    if order == [] {
      longer := run;
    } else {
      var s, op, rest := run[|run| - 1], order[0], order[1..];
      var step := Complete(op, resps[op]);
      AnyCompletion(job, run, |run| - 1, op, resps[op]);
      ExtendRun(job, run, step);
      var next := run + [Effect(job, s, step).state];
      assert Completes(job, s, op, resps[op], next[|run|]);
      longer := CompletesInOrder(job, next, rest, resps);
      assert longer[|run| - 1] == next[|run| - 1] == s && longer[|run|] == next[|run|];
      forall j | 0 <= j < |order|
        ensures Completes(job, longer[|run| - 1 + j], order[j], resps[order[j]], longer[|run| + j])
        ensures order[j] in longer[|longer| - 1].answers && longer[|longer| - 1].answers[order[j]] == resps[order[j]]
      {
        if j > 0 {
          assert order[j] == rest[j - 1];
          assert Completes(job, longer[|next| - 1 + (j - 1)], rest[j - 1], resps[rest[j - 1]], longer[|next| + (j - 1)]);
        }
      }
    }
  }

  ghost predicate AllPending<Req, Resp, Exc>(s: State<Req, Resp, Exc>) {
    forall k :: 0 <= k < |s.executed| ==> k in s.pending
  }

  ghost predicate AllAnswered<Req, Resp, Exc>(s: State<Req, Resp, Exc>) {
    forall k :: 0 <= k < |s.executed| ==> k in s.answers
  }

  lemma LastInvariant<T, Req, Resp(!new), Exc>(job: Job<T, Req, Exc>, run: seq<State<Req, Resp, Exc>>)
    requires IsRun(job, run)
    ensures run != [] && Inv(job, run[|run| - 1])
    ensures run[|run| - 1].answers == map[] ==> AllPending(run[|run| - 1])
  {
    RunInvariant(job, run, |run| - 1);
  }

  /** Once everything is answered, the calling thread collects and returns. */
  lemma {:induction false} Collects<T, Req, Resp(!new), Exc>(job: Job<T, Req, Exc>, run: seq<State<Req, Resp, Exc>>)
    returns (longer: seq<State<Req, Resp, Exc>>)
    requires IsRun(job, run) && run[|run| - 1].main.Collecting? && AllAnswered(run[|run| - 1])
    ensures IsRun(job, longer) && run <= longer && longer[|longer| - 1].main.Done?
    ensures longer[|longer| - 1].answers == run[|run| - 1].answers
    decreases Size(job) - run[|run| - 1].main.got
  {
    LastInvariant(job, run);
    hide IsRun, Inv;
    var s := run[|run| - 1];
    MayCollect(job, s);
    var step := if s.main.got < Size(job) then Collect else Finish;
    ExtendRun(job, run, step);
    longer := run + [Effect(job, s, step).state];
    if step.Collect? {
      longer := Collects(job, longer);
    }
  }

  lemma MayCollect<T, Req, Resp, Exc>(job: Job<T, Req, Exc>, s: State<Req, Resp, Exc>)
    requires Inv(job, s) && s.main.Collecting? && AllAnswered(s)
    ensures Enabled(job, s, if s.main.got < Size(job) then Collect else Finish)
  {
  }

  lemma CollectsAll<T, Req, Resp(!new), Exc>(job: Job<T, Req, Exc>, run: seq<State<Req, Resp, Exc>>)
    returns (longer: seq<State<Req, Resp, Exc>>)
    requires IsRun(job, run) && run[|run| - 1].main == Dispatching(Size(job)) && AllAnswered(run[|run| - 1])
    ensures IsRun(job, longer) && run <= longer && longer[|longer| - 1].main.Done?
    ensures longer[|longer| - 1].answers == run[|run| - 1].answers
  {
    ExtendRun(job, run, StartCollecting);
    hide IsRun;
    longer := run + [Effect(job, run[|run| - 1], StartCollecting).state];
    longer := Collects(job, longer);
  }

  /** Every order of completions happens in some run: for any permutation of the requests and any responses there is a run in
      which the cluster completes them in that order with those responses, and which returns the responses in request order. */
  lemma AnyOrder<T, Req, Resp(!new), Exc>(job: Job<T, Req, Exc>, order: seq<nat>, resps: seq<Resp>)
    returns (run: seq<State<Req, Resp, Exc>>, at: nat)
    requires Sendable(job) && |order| == |resps| == Size(job)
    requires Distinct(order) && forall j :: 0 <= j < |order| ==> order[j] < Size(job)
    ensures IsRun(job, run) && at + |order| < |run|
    ensures forall j :: 0 <= j < |order| ==>
              Completes(job, run[at + j], order[j], resps[order[j]], run[at + j + 1])
    ensures run[|run| - 1].main.Done? && run[|run| - 1].results == resps
  {
    hide Enabled, Effect, Inv;
    var dispatched: seq<State<Req, Resp, Exc>> := DispatchReaches(job, Size(job));
    at := |dispatched| - 1;
    LastInvariant(job, dispatched);
    var answered := CompletesInOrder(job, dispatched, order, resps);
    AllCovered(order);
    AnsweredInOrder(job, answered, order, resps);
    run := CollectsAll(job, answered);
    forall j | 0 <= j < |order|
      ensures Completes(job, run[at + j], order[j], resps[order[j]], run[at + j + 1])
    {
      assert run[at + j] == answered[at + j] && run[at + j + 1] == answered[at + j + 1];
      assert Completes(job, answered[|dispatched| - 1 + j], order[j], resps[order[j]], answered[|dispatched| + j]);
    }
    ResultsInRequestOrder(job, run);
  }

  lemma AnsweredInOrder<T, Req, Resp(!new), Exc>(
    job: Job<T, Req, Exc>, run: seq<State<Req, Resp, Exc>>, order: seq<nat>, resps: seq<Resp>)
    requires IsRun(job, run) && |order| == |resps| == Size(job) && (forall k :: 0 <= k < |order| ==> k in order)
    requires var answers := run[|run| - 1].answers;
             forall j :: 0 <= j < |order| ==>
               order[j] < |resps| && order[j] in answers && answers[order[j]] == resps[order[j]]
    ensures AllAnswered(run[|run| - 1])
    ensures var answers := run[|run| - 1].answers;
            forall k :: 0 <= k < |resps| ==> k in answers && answers[k] == resps[k]
  {
    RunInvariant(job, run, |run| - 1);
    var answers := run[|run| - 1].answers;
    forall k | 0 <= k < |order|
      ensures k in answers && answers[k] == resps[k]
    {
      assert k in order;
    }
  }

  function Below(n: nat): set<nat> {
    if n == 0 then {} else Below(n - 1) + {n - 1}
  }

  lemma {:induction false} BelowIs(n: nat)
    ensures |Below(n)| == n && forall k: nat :: k in Below(n) <==> k < n
  {
    if n > 0 { BelowIs(n - 1); }
  }

  function Members(order: seq<nat>): set<nat> {
    set k | k in order
  }

  lemma {:induction false} CountDistinct(order: seq<nat>)
    requires Distinct(order)
    ensures |Members(order)| == |order|
  {
    if order != [] {
      var m := |order| - 1;
      CountDistinct(order[..m]);
      assert order == order[..m] + [order[m]];
      assert Members(order) == Members(order[..m]) + {order[m]};
    }
  }

  /** Among n numbers below n that are all different, each occurs. */
  lemma AllCovered(order: seq<nat>)
    requires Distinct(order) && forall j :: 0 <= j < |order| ==> order[j] < |order|
    ensures forall k: nat :: k < |order| ==> k in order
  {
    BelowIs(|order|);
    CountDistinct(order);
    assert Members(order) <= Below(|order|);
    assert |Below(|order|) - Members(order)| == 0;
    forall k: nat | k < |order|
      ensures k in order
    {
      assert k in Below(|order|);
    }
  }

  /** What the calling thread does next. */
  function MainStep<T, Req, Resp, Exc>(job: Job<T, Req, Exc>, s: State<Req, Resp, Exc>): Step<Resp>
    requires !s.main.Raised? && !s.main.Done?
  {
    match s.main
    case Start => Extract
    case Dispatching(i) => if i < Size(job) then Execute else StartCollecting
    case Registered(_, _) => Push
    case Collecting(j) => if j < |s.barriers| then Collect else Finish
  }

  /** No deadlock: until the call has returned or raised, its thread can move, or waits for the promise of a
      request that is pending, and setting that promise lets it move. */
  lemma NeverStuck<T, Req, Resp(!new), Exc>(
    job: Job<T, Req, Exc>, run: seq<State<Req, Resp, Exc>>, i: nat, resp: Resp)
    requires IsRun(job, run) && i < |run| && !run[i].main.Raised? && !run[i].main.Done?
    ensures var s := run[i];
            || Enabled(job, s, MainStep(job, s))
            || (&& s.main.Collecting?
                && Enabled(job, s, Complete(s.main.got, resp))
                && Effect(job, s, Complete(s.main.got, resp)).Next?
                && Enabled(job, Effect(job, s, Complete(s.main.got, resp)).state, Collect))
  {
    RunInvariant(job, run, i);
  }

  /** Steps that can still happen. */
  function Remaining<T, Req, Resp, Exc>(job: Job<T, Req, Exc>, s: State<Req, Resp, Exc>): int {
    var n := Size(job);
    var outstanding := n - |s.executed| + |s.pending|;
    match s.main
    case Start => if job.tuples.Ok? then 3 * n + 3 + outstanding else 1
    case Raised(_) => |s.pending|
    case Dispatching(i) => 2 * (n - i) + n + 2 + outstanding
    case Registered(i, _) => 2 * (n - i) - 1 + n + 2 + outstanding
    case Collecting(j) => n - j + 1 + outstanding
    case Done => outstanding
  }

  /** What a step does to the number of pending requests. */
  lemma PendingChange<T, Req, Resp, Exc>(job: Job<T, Req, Exc>, s: State<Req, Resp, Exc>, step: Step<Resp>)
    requires Answered(s) && Enabled(job, s, step) && Effect(job, s, step).Next?
    ensures var s' := Effect(job, s, step).state;
            |s'.pending| + |s.executed| == |s.pending| + |s'.executed| - (if step.Complete? then 1 else 0)
    ensures s.executed == [] ==> |s.pending| == 0
  {
    if step.Execute? {
      assert |s.executed| !in s.pending;
    }
    if s.executed == [] {
      assert s.pending == {};
    }
  }

  lemma ExecutedFits<T, Req, Resp, Exc>(job: Job<T, Req, Exc>, s: State<Req, Resp, Exc>)
    requires Inv(job, s)
    ensures |s.executed| <= Size(job)
    ensures s.main.Collecting? ==> |s.barriers| == Size(job)
  {
  }

  lemma StepDecreases<T, Req, Resp, Exc>(job: Job<T, Req, Exc>, s: State<Req, Resp, Exc>, step: Step<Resp>)
    requires Inv(job, s) && Enabled(job, s, step)
    ensures Effect(job, s, step).Next?
    ensures 0 <= Remaining(job, Effect(job, s, step).state) < Remaining(job, s)
  {
    hide InOrder, Answered, Aligned;
    StepSucceeds(job, s, step);
    PendingChange(job, s, step);
    ExecutedFits(job, s);
  }

  /** Every run is finite: with n tuples at most 4n + 3 steps. */
  lemma {:induction false} RunsAreBounded<T, Req, Resp(!new), Exc>(job: Job<T, Req, Exc>, run: seq<State<Req, Resp, Exc>>)
    requires IsRun(job, run)
    ensures job.tuples.Ok? ==> |run| - 1 <= 4 * Size(job) + 3
    ensures job.tuples.Err? ==> |run| <= 2
  {
    RemainingAlong(job, run, |run| - 1);
  }

  lemma {:induction false} RemainingAlong<T, Req, Resp(!new), Exc>(
    job: Job<T, Req, Exc>, run: seq<State<Req, Resp, Exc>>, i: nat)
    requires IsRun(job, run) && i < |run|
    ensures Remaining(job, run[i]) >= 0
    ensures i + Remaining(job, run[i]) <= Remaining(job, run[0])
  {
    if i > 0 {
      RemainingAlong(job, run, i - 1);
      RunInvariant(job, run, i - 1);
      assert Transition(job, run[i - 1], run[i - 1 + 1]);
      var step: Step<Resp> :| Enabled(job, run[i - 1], step) && Effect(job, run[i - 1], step) == Next(run[i]);
      StepDecreases(job, run[i - 1], step);
    }
  }
}
