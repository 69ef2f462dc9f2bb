/** The concurrent scan of the category directories (pkg/v2/repository/wagon_stones.go,
    SearchArtifacts and analyzeCatDir) as a state machine: a launcher that takes a semaphore
    permit for each worker it starts and then collects one response per unbuffered channel, in
    launch order; workers that give the permit back before they send.
 */
module CategoryScan {
  import opened Packages

  /** What a worker sends: the artefacts of its category, or an error. */
  type Response<A> = Result<seq<A>>

  datatype Worker = Scanning | Sending | Finishing | Exited

  /** Where the launcher is: about to start worker `i`, about to receive from worker `i`, or past
      the wait group. */
  datatype Launcher = Launch(i: nat) | Collect(i: nat) | Done

  datatype State<A> = State(permits: nat, workers: seq<Worker>, launcher: Launcher, ans: seq<A>)

  datatype Step = Start | EndLaunch | Release(w: nat) | Receive | Exit(w: nat) | EndWait

  /** The artefacts of a response; those of a failed category are missing from the answer. */
  function Artifacts<A>(r: Response<A>): seq<A> {
    if r.Ok? then r.value else []
  }

  function Answer<A>(responses: seq<Response<A>>): seq<A> {
    if responses == [] then []
    else Answer(responses[..|responses| - 1]) + Artifacts(responses[|responses| - 1])
  }

  predicate Enabled<A>(responses: seq<Response<A>>, s: State<A>, step: Step) {
    match step
    case Start => s.launcher.Launch? && s.launcher.i < |responses| && s.permits > 0
    case EndLaunch => s.launcher == Launch(|responses|)
    case Release(w) => w < |s.workers| && s.workers[w] == Scanning
    case Receive =>
      && s.launcher.Collect? && s.launcher.i < |responses| && s.launcher.i < |s.workers|
      && s.workers[s.launcher.i] == Sending
    case Exit(w) => w < |s.workers| && s.workers[w] == Finishing
    case EndWait => s.launcher == Collect(|responses|) && forall w | 0 <= w < |s.workers| :: s.workers[w] == Exited
  }

  function Apply<A>(responses: seq<Response<A>>, s: State<A>, step: Step): State<A>
    requires Enabled(responses, s, step)
  {
    match step
    case Start => s.(permits := s.permits - 1, workers := s.workers + [Scanning], launcher := Launch(s.launcher.i + 1))
    case EndLaunch => s.(launcher := Collect(0))
    case Release(w) => s.(permits := s.permits + 1, workers := s.workers[w := Sending])
    case Receive =>
      s.(workers := s.workers[s.launcher.i := Finishing], launcher := Collect(s.launcher.i + 1),
         ans := s.ans + Artifacts(responses[s.launcher.i]))
    case Exit(w) => s.(workers := s.workers[w := Exited])
    case EndWait => s.(launcher := Done)
  }

  function Init<A>(concurrency: nat): State<A> {
    State(concurrency, [], Launch(0), [])
  }

  /** How many workers hold a permit. */
  function Holding(workers: seq<Worker>): nat {
    if workers == [] then 0
    else Holding(workers[..|workers| - 1]) + if workers[|workers| - 1] == Scanning then 1 else 0
  }

  /** How many responses the launcher has taken. */
  function Collected(launcher: Launcher, n: nat): nat {
    match launcher
    case Launch(_) => 0
    case Collect(i) => i
    case Done => n
  }

  ghost predicate Inv<A>(responses: seq<Response<A>>, concurrency: nat, s: State<A>) {
    var n, k := |responses|, Collected(s.launcher, |responses|);
    && k <= n
    && s.permits + Holding(s.workers) == concurrency
    && |s.workers| == (if s.launcher.Launch? then s.launcher.i else n) <= n
    && (forall w | 0 <= w < |s.workers| ::
          s.workers[w] in if w < k then {Finishing, Exited} else {Scanning, Sending})
    && s.ans == Answer(responses[..k])
    && (s.launcher == Done ==> forall w | 0 <= w < n :: s.workers[w] == Exited)
  }

  lemma {:induction false} HoldingUpdate(workers: seq<Worker>, w: nat, to: Worker)
    requires w < |workers|
    ensures Holding(workers[w := to]) + (if workers[w] == Scanning then 1 else 0)
         == Holding(workers) + (if to == Scanning then 1 else 0)
  {
    var last := |workers| - 1;
    if w < last {
      HoldingUpdate(workers[..last], w, to);
      assert workers[w := to][..last] == workers[..last][w := to];
    } else {
      assert workers[w := to][..last] == workers[..last];
    }
  }

  lemma {:induction false} SomeoneHolds(workers: seq<Worker>) returns (w: nat)
    requires Holding(workers) > 0
    ensures w < |workers| && workers[w] == Scanning
  {
    var last := |workers| - 1;
    if workers[last] == Scanning {
      w := last;
    } else {
      w := SomeoneHolds(workers[..last]);
    }
  }

  lemma ReceiveKeepsInv<A>(responses: seq<Response<A>>, concurrency: nat, s: State<A>)
    requires Inv(responses, concurrency, s) && Enabled(responses, s, Receive)
    ensures Inv(responses, concurrency, Apply(responses, s, Receive))
  {
    var i := s.launcher.i;
    HoldingUpdate(s.workers, i, Finishing);
    assert responses[..i + 1][..i] == responses[..i];
    assert Answer(responses[..i + 1]) == Answer(responses[..i]) + Artifacts(responses[i]);
  }

  lemma StepKeepsInv<A>(responses: seq<Response<A>>, concurrency: nat, s: State<A>, step: Step)
    requires Inv(responses, concurrency, s) && Enabled(responses, s, step)
    ensures Inv(responses, concurrency, Apply(responses, s, step))
  {
    match step
    case Start => assert (s.workers + [Scanning])[..|s.workers|] == s.workers;
    case EndLaunch =>
    case Release(w) => HoldingUpdate(s.workers, w, Sending);
    case Receive => ReceiveKeepsInv(responses, concurrency, s);
    case Exit(w) => HoldingUpdate(s.workers, w, Exited);
    case EndWait =>
  }

  /** No deadlock: with at least one permit in all, some process can always go on until the
      launcher is done. */
  lemma NeverStuck<A>(responses: seq<Response<A>>, concurrency: nat, s: State<A>) returns (step: Step)
    requires Inv(responses, concurrency, s) && concurrency >= 1 && s.launcher != Done
    ensures Enabled(responses, s, step)
  {
    match s.launcher
    case Launch(i) =>
      if i == |responses| {
        step := EndLaunch;
      } else if s.permits > 0 {
        step := Start;
      } else {
        var w := SomeoneHolds(s.workers);
        step := Release(w);
      }
    case Collect(i) =>
      if i < |responses| {
        step := if s.workers[i] == Scanning then Release(i) else Receive;
      } else if w :| 0 <= w < |s.workers| && s.workers[w] != Exited {
        step := Exit(w);
      } else {
        step := EndWait;
      }
  }

  // ----- every run ends -----

  function Weight(worker: Worker): nat {
    match worker case Scanning => 3 case Sending => 2 case Finishing => 1 case Exited => 0
  }

  function WorkLeft(workers: seq<Worker>): nat {
    if workers == [] then 0 else WorkLeft(workers[..|workers| - 1]) + Weight(workers[|workers| - 1])
  }

  function Left<A>(n: nat, s: State<A>): int {
    WorkLeft(s.workers) +
    match s.launcher case Launch(i) => 4 * (n - i) + 2 case Collect(_) => 1 case Done => 0
  }

  lemma {:induction false} WorkUpdate(workers: seq<Worker>, w: nat, to: Worker)
    requires w < |workers|
    ensures WorkLeft(workers[w := to]) + Weight(workers[w]) == WorkLeft(workers) + Weight(to)
  {
    var last := |workers| - 1;
    if w < last {
      WorkUpdate(workers[..last], w, to);
      assert workers[w := to][..last] == workers[..last][w := to];
    } else {
      assert workers[w := to][..last] == workers[..last];
    }
  }

  /** Each step leaves exactly one step less to do. */
  lemma StepMakesProgress<A>(responses: seq<Response<A>>, concurrency: nat, s: State<A>, step: Step)
    requires Inv(responses, concurrency, s) && Enabled(responses, s, step)
    ensures Left(|responses|, Apply(responses, s, step)) == Left(|responses|, s) - 1
  {
    match step
    case Start => assert (s.workers + [Scanning])[..|s.workers|] == s.workers;
    case EndLaunch =>
    case Release(w) => WorkUpdate(s.workers, w, Sending);
    case Receive => WorkUpdate(s.workers, s.launcher.i, Finishing);
    case Exit(w) => WorkUpdate(s.workers, w, Exited);
    case EndWait =>
  }

  /** A run: each step is enabled in the state the steps before it lead to. */
  ghost predicate IsRun<A>(responses: seq<Response<A>>, s: State<A>, steps: seq<Step>)
    decreases |steps|
  {
    steps == [] || (Enabled(responses, s, steps[0]) && IsRun(responses, Apply(responses, s, steps[0]), steps[1..]))
  }

  function After<A>(responses: seq<Response<A>>, s: State<A>, steps: seq<Step>): State<A>
    requires IsRun(responses, s, steps)
    decreases |steps|
  {
    if steps == [] then s else After(responses, Apply(responses, s, steps[0]), steps[1..])
  }

  lemma {:induction false} RunKeepsInv<A>(responses: seq<Response<A>>, concurrency: nat, s: State<A>, steps: seq<Step>)
    requires Inv(responses, concurrency, s) && IsRun(responses, s, steps)
    ensures Inv(responses, concurrency, After(responses, s, steps))
    ensures Left(|responses|, After(responses, s, steps)) == Left(|responses|, s) - |steps|
    decreases |steps|
  {
    if steps != [] {
      StepKeepsInv(responses, concurrency, s, steps[0]);
      StepMakesProgress(responses, concurrency, s, steps[0]);
      RunKeepsInv(responses, concurrency, Apply(responses, s, steps[0]), steps[1..]);
    }
  }

  /** Whatever the schedule, a run has at most 4n + 2 steps for n categories, and one that can
      go no further has received exactly one response per category, in launch order, with all
      workers gone and all permits given back. */
  lemma EveryRunDelivers<A>(responses: seq<Response<A>>, concurrency: nat, steps: seq<Step>)
    requires concurrency >= 1 && IsRun(responses, Init(concurrency), steps)
    ensures |steps| <= 4 * |responses| + 2
    ensures var s := After(responses, Init(concurrency), steps);
      (forall step :: !Enabled(responses, s, step)) <==> |steps| == 4 * |responses| + 2
    ensures var s := After(responses, Init(concurrency), steps);
      |steps| == 4 * |responses| + 2 ==>
        && s.launcher == Done && s.ans == Answer(responses) && s.permits == concurrency
        && forall w | 0 <= w < |s.workers| :: s.workers[w] == Exited
  {
    var s := After(responses, Init(concurrency), steps);
    assert responses[..0] == [] && responses[..|responses|] == responses;
    RunKeepsInv(responses, concurrency, Init(concurrency), steps);
    if s.launcher == Done {
      AllExited(s.workers);
    } else {
      var step := NeverStuck(responses, concurrency, s);
      StepMakesProgress(responses, concurrency, s, step);
      StepKeepsInv(responses, concurrency, s, step);
      LeftIsNat(responses, concurrency, Apply(responses, s, step));
    }
  }

  lemma {:induction false} AllExited(workers: seq<Worker>)
    requires forall w | 0 <= w < |workers| :: workers[w] == Exited
    ensures Holding(workers) == 0 && WorkLeft(workers) == 0
  {
    if workers != [] { AllExited(workers[..|workers| - 1]); }
  }

  function ScanningAt(workers: seq<Worker>): set<int> {
    set w | 0 <= w < |workers| && workers[w] == Scanning
  }

  lemma {:induction false} HoldingCounts(workers: seq<Worker>)
    ensures Holding(workers) == |ScanningAt(workers)|
  {
    if workers != [] {
      var last := |workers| - 1;
      HoldingCounts(workers[..last]);
      assert ScanningAt(workers) == ScanningAt(workers[..last]) + if workers[last] == Scanning then {last} else {};
    }
  }

  /** The semaphore does its work: at every point of every run the permits left and the workers that
      scan add up to the concurrency, so no more than that many categories are scanned at once. */
  lemma ScansAreBounded<A>(responses: seq<Response<A>>, concurrency: nat, steps: seq<Step>)
    requires IsRun(responses, Init(concurrency), steps)
    ensures var s := After(responses, Init(concurrency), steps);
      |set w | 0 <= w < |s.workers| && s.workers[w] == Scanning| == concurrency - s.permits
  {
    assert responses[..0] == [];
    RunKeepsInv(responses, concurrency, Init(concurrency), steps);
    var s := After(responses, Init(concurrency), steps);
    HoldingCounts(s.workers);
    assert ScanningAt(s.workers) == set w | 0 <= w < |s.workers| && s.workers[w] == Scanning;
  }

  lemma LeftIsNat<A>(responses: seq<Response<A>>, concurrency: nat, s: State<A>)
    requires Inv(responses, concurrency, s)
    ensures Left(|responses|, s) >= 0
  {
  }

  // ----- what the answer is worth -----

  function All<A>(hits: seq<seq<A>>): seq<A> {
    if hits == [] then [] else All(hits[..|hits| - 1]) + hits[|hits| - 1]
  }

  /** Each category that could be read answers with its hits. */
  ghost predicate AnswersWith<A>(responses: seq<Response<A>>, hits: seq<seq<A>>) {
    |responses| == |hits| && forall i | 0 <= i < |hits| && responses[i].Ok? :: responses[i].value == hits[i]
  }

  ghost predicate HitsReadable<A>(responses: seq<Response<A>>, hits: seq<seq<A>>)
    requires |responses| == |hits|
  {
    forall i | 0 <= i < |hits| && hits[i] != [] :: responses[i].Ok?
  }

  lemma {:induction false} AnswerIsComplete<A>(responses: seq<Response<A>>, hits: seq<seq<A>>)
    requires AnswersWith(responses, hits)
    ensures |Answer(responses)| <= |All(hits)|
    ensures |Answer(responses)| == |All(hits)| ==> HitsReadable(responses, hits)
    ensures HitsReadable(responses, hits) ==> Answer(responses) == All(hits)
  {
    if hits != [] {
      var n := |hits| - 1;
      AnswerIsComplete(responses[..n], hits[..n]);
      assert HitsReadable(responses, hits) <==>
        HitsReadable(responses[..n], hits[..n]) && (hits[n] != [] ==> responses[n].Ok?);
    }
  }

  lemma {:induction false} AnswerOfPrefix<A>(responses: seq<Response<A>>, k: nat)
    requires k <= |responses|
    ensures Answer(responses[..k]) <= Answer(responses)
    decreases |responses|
  {
    if k == |responses| {
      assert responses[..k] == responses;
    } else {
      AnswerOfPrefix(responses[..|responses| - 1], k);
      assert responses[..|responses| - 1][..k] == responses[..k];
    }
  }

  /** The answers of the categories stand one after the other, in launch order: that of category `i`
      follows on the answer to the categories before it, and a failed category adds nothing. */
  lemma AnswerInOrder<A>(responses: seq<Response<A>>, i: nat)
    requires i < |responses|
    ensures var from, to := |Answer(responses[..i])|, |Answer(responses[..i + 1])|;
      && to <= |Answer(responses)|
      && to == from + (if responses[i].Ok? then |responses[i].value| else 0)
      && (responses[i].Ok? ==> Answer(responses)[from..to] == responses[i].value)
  {
    assert responses[..i + 1][..i] == responses[..i];
    AnswerOfPrefix(responses, i + 1);
  }

  /** The answer of a finished search holds the hits of all categories exactly if every category with
      a hit could be read; the others are missing without an error. */
  lemma FinishedAnswer<A>(responses: seq<Response<A>>, hits: seq<seq<A>>, concurrency: nat, steps: seq<Step>)
    requires concurrency >= 1 && IsRun(responses, Init(concurrency), steps) && |steps| == 4 * |responses| + 2
    requires AnswersWith(responses, hits)
    ensures After(responses, Init(concurrency), steps).ans == All(hits) <==> HitsReadable(responses, hits)
  {
    EveryRunDelivers(responses, concurrency, steps);
    AnswerIsComplete(responses, hits);
  }

  /** A search over one category that cannot be read: it finishes with an empty answer. */
  lemma UnreadableCategoryIsSilent<A>(message: string)
    ensures var responses: seq<Response<A>> := [Err(message)];
      var steps := [Start, EndLaunch, Release(0), Receive, Exit(0), EndWait];
      IsRun(responses, Init(1), steps) && After(responses, Init(1), steps) == State(1, [Exited], Done, [])
  {
    var responses: seq<Response<A>> := [Err(message)];
    var steps := [Start, EndLaunch, Release(0), Receive, Exit(0), EndWait];
    var s0: State<A> := Init(1);
    var s1 := Apply(responses, s0, Start);
    var s2 := Apply(responses, s1, EndLaunch);
    var s3 := Apply(responses, s2, Release(0));
    var s4 := Apply(responses, s3, Receive);
    var s5 := Apply(responses, s4, Exit(0));
    RunCons(responses, s5, EndWait, []);
    RunCons(responses, s4, Exit(0), [EndWait]);
    RunCons(responses, s3, Receive, [Exit(0), EndWait]);
    RunCons(responses, s2, Release(0), [Receive, Exit(0), EndWait]);
    RunCons(responses, s1, EndLaunch, [Release(0), Receive, Exit(0), EndWait]);
    RunCons(responses, s0, Start, [EndLaunch, Release(0), Receive, Exit(0), EndWait]);
  }

  lemma RunCons<A>(responses: seq<Response<A>>, s: State<A>, step: Step, rest: seq<Step>)
    requires Enabled(responses, s, step) && IsRun(responses, Apply(responses, s, step), rest)
    ensures IsRun(responses, s, [step] + rest)
    ensures After(responses, s, [step] + rest) == After(responses, Apply(responses, s, step), rest)
  {
    assert ([step] + rest)[1..] == rest;
  }
}
