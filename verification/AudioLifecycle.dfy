/**
 The pause word of the Android audio queue and the three kinds of threads that meet on
 it: any number that pause and resume, one that services, one that queues samples. Each
 atomic access and each section under the mutex is a step; any step may come next.
 */
module AudioLifecycle {
  import opened Arith

  const WORD_SPAN: nat := 0x1_0000_0000_0000_0000
  const GENERATIONS: nat := 0x8000_0000_0000_0000

  // ---- The word: low bit paused, the rest a generation

  predicate Paused(w: nat) {
    w % 2 == 1
  }

  function Generation(w: nat): nat {
    w / 2
  }

  /** `((previous + 2) & ~1) | paused` on 64 bits. */
  function NextWord(previous: nat, paused: bool): nat {
    var w := (previous + 2) % WORD_SPAN;
    w - w % 2 + if paused then 1 else 0
  }

  // ---- Threads

  datatype Pauser = Idle | Looping(previous: nat, want: bool)

  datatype Servicer = Away | Waiting | Holding | Chosen(word: nat, ghost at: nat) | Cleared(word: nat, ghost at: nat)

  /** A queuer that has passed its check remembers the word it was checked under. */
  datatype Queuer = Out | AtLock | Inside | Ready(word: nat)

  datatype Lock = Free | HeldByServicer | HeldByQueuer

  /**
   The shared state and where each thread stands. The device queue is given by the
   lifecycle word under which each of its frames passed the check. `flips` counts the
   successful exchanges so far and `applied` remembers how many were known at the
   last reset; neither exists in the program.
   */
  datatype State = State(word: nat, appliedWord: nat, device: bool, lock: Lock, queue: seq<nat>,
                         pausers: seq<Pauser>, servicer: Servicer, queuer: Queuer,
                         flips: nat, applied: nat)

  datatype Step =
    | Want(i: nat, paused: bool)          // set_paused: the first load
    | Exchange(i: nat, spurious: bool)    // one turn of its loop
    | ServiceEnter | ServiceLock | ServiceLoad | ServiceClear | ServiceApply
    | QueueEnter | QueueLock | QueueCheck
    | QueueDrop                           // the backlog is dropped
    | QueueAppend(frames: nat)            // what the device accepted
    | Drain(frames: nat)                  // the device plays
    | Open                                // open() under the mutex

  predicate Enabled(s: State, step: Step) {
    match step
    case Want(i, _) => i < |s.pausers| && s.pausers[i].Idle?
    case Exchange(i, _) => i < |s.pausers| && s.pausers[i].Looping?
    case ServiceEnter => s.servicer.Away?
    case ServiceLock => s.servicer.Waiting? && s.lock.Free?
    case ServiceLoad => s.servicer.Holding?
    case ServiceClear => s.servicer.Chosen?
    case ServiceApply => s.servicer.Cleared?
    case QueueEnter => s.queuer.Out?
    case QueueLock => s.queuer.AtLock? && s.lock.Free?
    case QueueCheck => s.queuer.Inside?
    case QueueDrop => s.queuer.Ready?
    case QueueAppend(_) => s.queuer.Ready?
    case Drain(n) => n <= |s.queue|
    case Open => s.lock.Free? && !s.device
  }

  /** `ready()`. */
  predicate IsReady(s: State) {
    s.device && Passes(s.word, s.appliedWord)
  }

  /** A word that is not paused and that the last reset has seen. */
  predicate Passes(word: nat, appliedWord: nat) {
    !Paused(word) && word == appliedWord
  }

  function Copies(word: nat, n: nat): (q: seq<nat>)
    ensures |q| == n && forall i :: 0 <= i < n ==> q[i] == word
  {
    seq(n, _ => word)
  }

  ghost function Next(s: State, step: Step): State
    requires Enabled(s, step)
  {
    match step
    case Want(i, paused) => s.(pausers := s.pausers[i := Looping(s.word, paused)])
    case Exchange(i, spurious) =>
      var p := s.pausers[i];
      if Paused(p.previous) == p.want then s.(pausers := s.pausers[i := Idle])
      else if !spurious && s.word == p.previous then
        s.(word := NextWord(p.previous, p.want), flips := s.flips + 1, pausers := s.pausers[i := Idle])
      else s.(pausers := s.pausers[i := Looping(s.word, p.want)])
    case ServiceEnter => if Paused(s.word) then s else s.(servicer := Waiting)
    case ServiceLock => s.(lock := HeldByServicer, servicer := Holding)
    case ServiceLoad =>
      if !s.device || Paused(s.word) || s.word == s.appliedWord then s.(lock := Free, servicer := Away)
      else s.(servicer := Chosen(s.word, s.flips))
    case ServiceClear => s.(queue := [], servicer := Cleared(s.servicer.word, s.servicer.at))
    case ServiceApply =>
      s.(appliedWord := s.servicer.word, applied := s.servicer.at, lock := Free, servicer := Away)
    case QueueEnter => if Paused(s.word) then s else s.(queuer := AtLock)
    case QueueLock => s.(lock := HeldByQueuer, queuer := Inside)
    case QueueCheck => if IsReady(s) then s.(queuer := Ready(s.word)) else s.(lock := Free, queuer := Out)
    case QueueDrop => s.(queue := [])
    case QueueAppend(n) => s.(queue := s.queue + Copies(s.queuer.word, n), lock := Free, queuer := Out)
    case Drain(n) => s.(queue := s.queue[n..])
    case Open => s.(device := true, queue := [], appliedWord := s.word, applied := s.flips)
  }

  /** Program start: paused, generation 0, no device. */
  predicate Init(s: State) {
    && s.word == 1 && s.appliedWord == 1 && !s.device && s.lock.Free? && s.queue == []
    && (forall i :: 0 <= i < |s.pausers| ==> s.pausers[i].Idle?)
    && s.servicer.Away? && s.queuer.Out? && s.flips == 0 && s.applied == 0
  }

  // ---- Invariant

  /** The word after `n` successful exchanges: each one flips the pause bit and goes one generation up. */
  function WordAfter(n: nat): nat {
    n % GENERATIONS * 2 + (n + 1) % 2
  }

  ghost predicate Inv(s: State) {
    && s.word == WordAfter(s.flips) && s.appliedWord == WordAfter(s.applied) && s.applied <= s.flips
    // the mutex
    && (s.lock.HeldByServicer? <==> s.servicer.Holding? || s.servicer.Chosen? || s.servicer.Cleared?)
    && (s.lock.HeldByQueuer? <==> s.queuer.Inside? || s.queuer.Ready?)
    // the words in flight
    && (s.servicer.Chosen? || s.servicer.Cleared? ==>
          && s.device && !Paused(s.servicer.word)
          && s.servicer.word == WordAfter(s.servicer.at) && s.applied <= s.servicer.at <= s.flips)
    && (s.servicer.Cleared? ==> s.queue == [])
    && (s.queuer.Ready? ==> s.queuer.word == s.appliedWord)
    // the device queue
    && (forall j :: 0 <= j < |s.queue| ==> s.queue[j] == s.appliedWord)
  }

  /** A successful exchange flips the pause bit and raises the generation by exactly one, modulo the word. */
  lemma ExchangeRaisesGeneration(n: nat, want: bool)
    requires Paused(WordAfter(n)) != want
    ensures NextWord(WordAfter(n), want) == WordAfter(n + 1)
    ensures Paused(WordAfter(n + 1)) == want
    ensures Generation(WordAfter(n + 1)) == (Generation(WordAfter(n)) + 1) % GENERATIONS
  {
    var g, b := n % GENERATIONS, (n + 1) % 2;
    WordParts(g, b);
    WordParts((n + 1) % GENERATIONS, (n + 2) % 2);
    GenerationWraps(n);
    hide NextWord;
    NextWordOf(g, b, want);
  }

  /** One generation up, with the bit as wanted. */
  lemma NextWordOf(g: nat, b: nat, want: bool)
    requires g < GENERATIONS && b < 2
    ensures NextWord(g * 2 + b, want) == (g + 1) % GENERATIONS * 2 + if want then 1 else 0
  {
    if g == GENERATIONS - 1 {
      assert (g * 2 + b + 2) % WORD_SPAN == b;
    } else {
      assert (g * 2 + b + 2) % WORD_SPAN == (g + 1) * 2 + b;
    }
  }

  lemma WordParts(g: nat, b: nat)
    requires b < 2
    ensures (g * 2 + b) / 2 == g && (g * 2 + b) % 2 == b
  {
  }

  lemma GenerationWraps(n: nat)
    ensures (n + 1) % GENERATIONS == (n % GENERATIONS + 1) % GENERATIONS
    ensures n % GENERATIONS < GENERATIONS
  {
  }

  lemma InitInv(s: State)
    requires Init(s)
    ensures Inv(s)
  {
  }

  lemma StepKeepsInv(s: State, step: Step)
    requires Inv(s) && Enabled(s, step)
    ensures Inv(Next(s, step))
    ensures s.flips <= Next(s, step).flips <= s.flips + 1
  {
    if step.Exchange? {
      ExchangeKeepsInv(s, step);
    } else {
      hide WordAfter, NextWord, Paused;
    }
  }

  lemma ExchangeKeepsInv(s: State, step: Step)
    requires Inv(s) && Enabled(s, step) && step.Exchange?
    ensures Inv(Next(s, step))
  {
    var p := s.pausers[step.i];
    if Paused(p.previous) != p.want && !step.spurious && s.word == p.previous {
      ExchangeRaisesGeneration(s.flips, p.want);
    }
    hide WordAfter, NextWord, Paused;
  }

  // ---- Runs

  ghost predicate EnabledAll(s: State, steps: seq<Step>)
    decreases |steps|
  {
    steps == [] || (Enabled(s, steps[0]) && EnabledAll(Next(s, steps[0]), steps[1..]))
  }

  ghost function Run(s: State, steps: seq<Step>): State
    requires EnabledAll(s, steps)
    decreases |steps|
  {
    if steps == [] then s else Run(Next(s, steps[0]), steps[1..])
  }

  /** In every interleaving, every frame in the device queue was accepted under the present applied word. */
  lemma {:induction false} QueueIsCurrent(s: State, steps: seq<Step>)
    requires Inv(s) && EnabledAll(s, steps)
    ensures Inv(Run(s, steps)) && s.flips <= Run(s, steps).flips
    ensures var t := Run(s, steps); forall j :: 0 <= j < |t.queue| ==> t.queue[j] == t.appliedWord
    decreases |steps|
  {
    if steps == [] {
    } else {
      StepKeepsInv(s, steps[0]);
      QueueIsCurrent(Next(s, steps[0]), steps[1..]);
    }
  }

  /** Equal words mean no flip in between, or as many as it takes the generation counter to go all the way round. */
  lemma WordTellsFlips(m: nat, n: nat)
    requires m <= n
    ensures WordAfter(m) == WordAfter(n) <==> (n - m) % GENERATIONS == 0
    ensures n - m < GENERATIONS ==> ((n - m) % GENERATIONS == 0 <==> m == n)
  {
    WordParts(m % GENERATIONS, (m + 1) % 2);
    WordParts(n % GENERATIONS, (n + 1) % 2);
    SameGeneration(m, n);
  }

  lemma SameGeneration(m: nat, n: nat)
    requires m <= n
    ensures m % GENERATIONS == n % GENERATIONS <==> (n - m) % GENERATIONS == 0
    ensures m % GENERATIONS == n % GENERATIONS ==> m % 2 == n % 2
  {
    SameRemainder(m, n, GENERATIONS);
    Parity(m);
    Parity(n);
  }

  lemma Parity(n: nat)
    ensures n % 2 == n % GENERATIONS % 2
  {
    var q, r := n / GENERATIONS, n % GENERATIONS;
    assert n == 2 * (q * (GENERATIONS / 2)) + r;
  }

  /** The word is paused after every even number of flips. */
  lemma PauseAlternates(n: nat)
    ensures Paused(WordAfter(n)) <==> n % 2 == 0
  {
    WordParts(n % GENERATIONS, (n + 1) % 2);
  }

  /** A flip has happened since the last reset. */
  predicate Stale(s: State) {
    s.applied < s.flips
  }

  /** One step of such a stretch: the `ready()` check fails, and the queue only loses frames. */
  lemma StaleStep(s: State, step: Step)
    requires Inv(s) && Enabled(s, step) && Stale(s) && s.device && !s.queuer.Ready?
    requires s.flips - s.applied < GENERATIONS && step != ServiceApply
    ensures var t := Next(s, step);
      && Stale(t) && t.device && !t.queuer.Ready? && t.applied == s.applied
      && |t.queue| <= |s.queue| && t.queue == s.queue[|s.queue| - |t.queue|..]
  {
    WordTellsFlips(s.applied, s.flips);
    hide WordAfter, NextWord, Paused;
  }

  /**
   Once a flip has happened, a call that has not yet passed its `ready()` check adds
   nothing: until the servicer applies a reset, the queue only shrinks from the front
   or is cleared, whatever the interleaving. The word has 63 bits of generation, so this
   holds for as long as fewer than 2^63 flips have happened since the last reset.
   */
  lemma {:induction false} NothingAddedUntilReset(s: State, steps: seq<Step>) returns (k: nat)
    requires Inv(s) && EnabledAll(s, steps) && Stale(s) && s.device && !s.queuer.Ready?
    requires Run(s, steps).flips - s.applied < GENERATIONS
    requires forall j :: 0 <= j < |steps| ==> steps[j] != ServiceApply
    ensures k <= |s.queue| && Run(s, steps).queue == s.queue[k..]
    ensures Stale(Run(s, steps)) && !Run(s, steps).queuer.Ready?
    decreases |steps|
  {
    if steps == [] {
      k := 0;
    } else {
      var t := Next(s, steps[0]);
      StepKeepsInv(s, steps[0]);
      QueueIsCurrent(t, steps[1..]);
      StaleStep(s, steps[0]);
      hide Inv, Next, Stale;
      var n := NothingAddedUntilReset(t, steps[1..]);
      k := |s.queue| - |t.queue| + n;
    }
  }

  /** When the servicer applies a reset the queue is empty, and afterwards it is current again. */
  lemma ResetStartsEmpty(s: State)
    requires Inv(s) && Enabled(s, ServiceApply)
    ensures Next(s, ServiceApply).queue == [] && Next(s, ServiceApply).applied >= s.applied
    ensures Next(s, ServiceApply).appliedWord == s.servicer.word
    ensures IsReady(Next(s, ServiceApply)) <==> s.word == s.servicer.word
  {
  }

  /**
   A quick pause and resume cannot be lost: a servicer that finds the queue resumed goes
   on to reset it exactly when flips have happened since the last reset, unless they are
   a multiple of all the generations there are.
   */
  lemma FlipsAreNotLost(s: State)
    requires Inv(s) && Enabled(s, ServiceLoad) && s.device
    ensures Next(s, ServiceLoad).servicer.Chosen? <==> (s.flips - s.applied) % GENERATIONS != 0 && s.flips % 2 == 1
    ensures s.flips - s.applied < GENERATIONS ==> ((s.flips - s.applied) % GENERATIONS != 0 <==> Stale(s))
  {
    WordTellsFlips(s.applied, s.flips);
    PauseAlternates(s.flips);
    hide WordAfter, Paused;
  }

  /** A thread's exchange succeeds, if it does, only from the word it last read, and leaves what it wants. */
  lemma ExchangeDelivers(s: State, i: nat, spurious: bool)
    requires Inv(s) && Enabled(s, Exchange(i, spurious))
    ensures var t := Next(s, Exchange(i, spurious));
      if t.word == s.word then t.flips == s.flips
      else
        && t.flips == s.flips + 1
        && Paused(s.word) != s.pausers[i].want == Paused(t.word)
        && Generation(t.word) == (Generation(s.word) + 1) % GENERATIONS
  {
    var p := s.pausers[i];
    if Paused(p.previous) != p.want && !spurious && s.word == p.previous {
      ExchangeRaisesGeneration(s.flips, p.want);
    }
    hide WordAfter, NextWord;
  }

  // ---- Getting things done

  /** An exchange that finds the word it last read, and wants another state, stores it and ends the loop. */
  lemma ExchangeSucceeds(s: State, i: nat)
    requires Inv(s) && Enabled(s, Exchange(i, false)) && s.word == s.pausers[i].previous
    requires Paused(s.word) != s.pausers[i].want
    ensures var t := Next(s, Exchange(i, false));
      && t.flips == s.flips + 1 && Paused(t.word) == s.pausers[i].want && t.pausers[i] == Idle
      && Generation(t.word) == (Generation(s.word) + 1) % GENERATIONS
  {
    ExchangeRaisesGeneration(s.flips, s.pausers[i].want);
    hide WordAfter, NextWord;
  }

  /** Undisturbed, a call leaves the state it wants. */
  lemma SetPausedSets(s: State, i: nat, want: bool)
    requires Inv(s) && Enabled(s, Want(i, want))
    ensures var t := Next(s, Want(i, want));
      && Enabled(t, Exchange(i, false))
      && Paused(Next(t, Exchange(i, false)).word) == want && Next(t, Exchange(i, false)).pausers[i] == Idle
  {
    var t := Next(s, Want(i, want));
    StepKeepsInv(s, Want(i, want));
    if Paused(s.word) != want {
      ExchangeSucceeds(t, i);
    }
  }

  /** In its loop, a thread leaves only after the word had the state it wants. */
  lemma {:induction false} LoopEndsWhenSet(s: State, steps: seq<Step>, i: nat) returns (j: nat)
    requires Inv(s) && EnabledAll(s, steps)
    requires i < |s.pausers| && s.pausers[i].Looping? && Paused(s.pausers[i].previous) != s.pausers[i].want
    requires i < |Run(s, steps).pausers| && Run(s, steps).pausers[i] == Idle
    ensures j <= |steps| && EnabledAll(s, steps[..j]) && Paused(Run(s, steps[..j]).word) == s.pausers[i].want
    decreases |steps|
  {
    hide Paused, WordAfter, NextWord;
    var want, t := s.pausers[i].want, Next(s, steps[0]);
    StepKeepsInv(s, steps[0]);
    if Paused(s.word) == want {
      j := 0;
    } else if Paused(t.word) == want {
      j := 1;
      RunOne(s, steps);
    } else {
      StaysInLoop(s, steps[0], i);
      j := LoopEndsWhenSet(t, steps[1..], i);
      assert steps[..j + 1][1..] == steps[1..][..j];
      j := j + 1;
    }
  }

  lemma RunOne(s: State, steps: seq<Step>)
    requires steps != [] && Enabled(s, steps[0])
    ensures EnabledAll(s, steps[..1]) && Run(s, steps[..1]) == Next(s, steps[0])
  {
    assert steps[..1] == [steps[0]] && steps[..1][1..] == [];
  }

  /** A step that does not bring the wanted state leaves the thread in its loop. */
  lemma StaysInLoop(s: State, step: Step, i: nat)
    requires Inv(s) && Enabled(s, step) && i < |s.pausers| && s.pausers[i].Looping?
    requires Paused(s.pausers[i].previous) != s.pausers[i].want
    requires Paused(s.word) != s.pausers[i].want && Paused(Next(s, step).word) != s.pausers[i].want
    ensures var t := Next(s, step);
      && i < |t.pausers| && t.pausers[i].Looping? && t.pausers[i].want == s.pausers[i].want
      && Paused(t.pausers[i].previous) != t.pausers[i].want
  {
    if step.Exchange? && step.i == i && !step.spurious && s.word == s.pausers[i].previous {
      ExchangeSucceeds(s, i);
    }
    hide Paused, WordAfter, NextWord, Inv;
  }

  /** In every interleaving, between the start of a call and its end the word has the state it wants. */
  lemma SetPausedTakesEffect(s: State, steps: seq<Step>, i: nat, want: bool) returns (j: nat)
    requires Inv(s) && steps != [] && steps[0] == Want(i, want) && EnabledAll(s, steps)
    requires i < |Run(s, steps).pausers| && Run(s, steps).pausers[i] == Idle
    ensures j <= |steps| && EnabledAll(s, steps[..j]) && Paused(Run(s, steps[..j]).word) == want
  {
    hide Paused, WordAfter, NextWord;
    StepKeepsInv(s, steps[0]);
    if Paused(s.word) == want {
      j := 0;
    } else {
      j := LoopEndsWhenSet(Next(s, steps[0]), steps[1..], i);
      assert steps[..j + 1][1..] == steps[1..][..j];
      j := j + 1;
    }
  }

  /** A device just opened has nothing queued and is ready unless it is paused. */
  lemma OpenStartsEmpty(s: State)
    requires Inv(s) && Enabled(s, Open)
    ensures var t := Next(s, Open);
      t.device && t.queue == [] && t.word == s.word && (IsReady(t) <==> !Paused(t.word))
  {
  }

  /** A servicer that runs undisturbed after a resume empties the queue and makes it ready again. */
  lemma ServiceMakesReady(s: State)
    requires Inv(s) && s.device && s.lock.Free? && s.servicer.Away? && !Paused(s.word)
    requires Stale(s) && s.flips - s.applied < GENERATIONS
    ensures var steps := [ServiceEnter, ServiceLock, ServiceLoad, ServiceClear, ServiceApply];
      && EnabledAll(s, steps)
      && var t := Run(s, steps);
      t.queue == [] && IsReady(t) && t.lock.Free? && t.servicer.Away? && t.word == s.word
  {
    WordTellsFlips(s.applied, s.flips);
    hide WordAfter, NextWord, Paused, Inv;
    var s1 := Next(s, ServiceEnter);
    var s2 := Next(s1, ServiceLock);
    var s3 := Next(s2, ServiceLoad);
    var s4 := Next(s3, ServiceClear);
    var s5 := Next(s4, ServiceApply);
    FiveSteps(s, ServiceEnter, ServiceLock, ServiceLoad, ServiceClear, ServiceApply);
  }

  lemma FiveSteps(s: State, a: Step, b: Step, c: Step, d: Step, e: Step)
    requires Enabled(s, a) && Enabled(Next(s, a), b) && Enabled(Next(Next(s, a), b), c)
    requires Enabled(Next(Next(Next(s, a), b), c), d)
    requires Enabled(Next(Next(Next(Next(s, a), b), c), d), e)
    ensures EnabledAll(s, [a, b, c, d, e])
    ensures Run(s, [a, b, c, d, e]) == Next(Next(Next(Next(Next(s, a), b), c), d), e)
  {
    hide Enabled, Next;
    var s1 := Next(s, a);
    var s2 := Next(s1, b);
    var s3 := Next(s2, c);
    var s4 := Next(s3, d);
    StepThen(s4, e, []);
    StepThen(s3, d, [e]);
    StepThen(s2, c, [d, e]);
    StepThen(s1, b, [c, d, e]);
    StepThen(s, a, [b, c, d, e]);
    assert [a] + [b, c, d, e] == [a, b, c, d, e] && [b] + [c, d, e] == [b, c, d, e];
    assert [c] + [d, e] == [c, d, e] && [d] + [e] == [d, e] && [e] + [] == [e];
  }

  lemma StepThen(s: State, step: Step, rest: seq<Step>)
    requires Enabled(s, step) && EnabledAll(Next(s, step), rest)
    ensures EnabledAll(s, [step] + rest) && Run(s, [step] + rest) == Run(Next(s, step), rest)
  {
    hide Enabled, Next;
    assert ([step] + rest)[1..] == rest;
  }

  /** A call that runs undisturbed while the queue is ready adds its frames. */
  lemma ReadyQueueGrows(s: State, n: nat)
    requires Inv(s) && s.lock.Free? && s.queuer.Out? && IsReady(s)
    ensures var steps := [QueueEnter, QueueLock, QueueCheck, QueueAppend(n), Drain(0)];
      && EnabledAll(s, steps)
      && var t := Run(s, steps);
      t.queue == s.queue + Copies(s.word, n) && t.lock.Free? && t.queuer.Out?
  {
    hide WordAfter, NextWord, Paused, Inv;
    FiveSteps(s, QueueEnter, QueueLock, QueueCheck, QueueAppend(n), Drain(0));
  }
}
