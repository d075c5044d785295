/** The reader/writer lock in one signed 64-bit word, as a machine of atomic steps. */
module RwLock {
  const WRITER: int := 0x1_0000_0000_0000
  const WORDS: int := 0x1_0000_0000_0000_0000
  const HALF: int := 0x8000_0000_0000_0000

  /** Most threads for which the word cannot overflow. */
  const MAX_THREADS: nat := 32769

  /** Where a thread is; the comment names the next atomic step. */
  datatype Pc =
    | Idle
    | WriteTry   // subtract WRITER
    | WriteBack  // the result was not zero: add WRITER again
    | WriteSpin  // wait until the word is at least WRITER
    | WriteHold  // add WRITER
    | ReadTry    // subtract 1
    | ReadBack   // the result was negative: add 1 again
    | ReadHold   // add 1

  datatype State = State(word: int, pcs: seq<Pc>)

  /** Two's complement in 64 bits. */
  function Wrap(x: int): int {
    (x + HALF) % WORDS - HALF
  }

  /** The sign that atomic_add reports. */
  function Sign(x: int): int {
    if x < 0 then -1 else if x == 0 then 0 else 1
  }

  function Init(n: nat): State {
    State(WRITER, seq(n, i => Idle))
  }

  /** One atomic step of thread `t`; an idle thread starts to write or to read. */
  function Step(s: State, t: nat, write: bool): State {
    if t >= |s.pcs| then s
    else
      match s.pcs[t]
      case Idle => s.(pcs := s.pcs[t := if write then WriteTry else ReadTry])
      case WriteTry =>
        var w := Wrap(s.word - WRITER);
        State(w, s.pcs[t := if Sign(w) != 0 then WriteBack else WriteHold])
      case WriteBack => State(Wrap(s.word + WRITER), s.pcs[t := WriteSpin])
      case WriteSpin => if s.word < WRITER then s else s.(pcs := s.pcs[t := WriteTry])
      case WriteHold => State(Wrap(s.word + WRITER), s.pcs[t := Idle])
      case ReadTry =>
        var w := Wrap(s.word - 1);
        State(w, s.pcs[t := if Sign(w) == -1 then ReadBack else ReadHold])
      case ReadBack => State(Wrap(s.word + 1), s.pcs[t := ReadTry])
      case ReadHold => State(Wrap(s.word + 1), s.pcs[t := Idle])
  }

  function Run(s: State, schedule: seq<(nat, bool)>): State
    decreases |schedule|
  {
    if schedule == [] then s
    else
      var k := |schedule| - 1;
      Step(Run(s, schedule[..k]), schedule[k].0, schedule[k].1)
  }

  /** The shared word and the threads that use it. */
  class Lock {
    var word: int
    var pcs: seq<Pc>

    ghost function Now(): State
      reads this
    {
      State(word, pcs)
    }

    /** init_rwlock. */
    constructor (n: nat)
      ensures Now() == Init(n)
    {
      word := WRITER;
      pcs := seq(n, i => Idle);
    }

    /** lock add, and the sign and zero flags it leaves. */
    method AtomicAdd(d: int) returns (sign: int)
      modifies this`word
      ensures word == Wrap(old(word) + d) && sign == Sign(word)
    {
      word := Wrap(word + d);
      if word < 0 {
        sign := -1;
      } else if word == 0 {
        sign := 0;
      } else {
        sign := 1;
      }
    }

    /** The next atomic step of thread `t` in write_lock, write_unlock, read_lock or read_unlock. */
    method Advance(t: nat, write: bool)
      requires t < |pcs|
      modifies this
      ensures Now() == Step(old(Now()), t, write)
    {
      match pcs[t]
      case Idle =>
        pcs := pcs[t := if write then WriteTry else ReadTry];
      case WriteTry =>
        var sign := AtomicAdd(-WRITER);
        pcs := pcs[t := if sign != 0 then WriteBack else WriteHold];
      case WriteBack =>
        var sign := AtomicAdd(WRITER);
        pcs := pcs[t := WriteSpin];
      case WriteSpin =>
        if word >= WRITER {
          pcs := pcs[t := WriteTry];
        }
      case WriteHold =>
        var sign := AtomicAdd(WRITER);
        pcs := pcs[t := Idle];
      case ReadTry =>
        var sign := AtomicAdd(-1);
        pcs := pcs[t := if sign == -1 then ReadBack else ReadHold];
      case ReadBack =>
        var sign := AtomicAdd(1);
        pcs := pcs[t := ReadTry];
      case ReadHold =>
        var sign := AtomicAdd(1);
        pcs := pcs[t := Idle];
    }
  }

  // ---------------------------------------------------------------- counting

  /** Threads whose WRITER is subtracted: holding or about to back out. */
  predicate Writes(pc: Pc) {
    pc.WriteHold? || pc.WriteBack?
  }

  predicate Reads(pc: Pc) {
    pc.ReadHold? || pc.ReadBack?
  }

  function Count(pcs: seq<Pc>, p: Pc -> bool): nat {
    if pcs == [] then 0 else Count(pcs[..|pcs| - 1], p) + if p(pcs[|pcs| - 1]) then 1 else 0
  }

  lemma {:induction false} CountUpdate(pcs: seq<Pc>, t: nat, pc: Pc, p: Pc -> bool)
    requires t < |pcs|
    ensures Count(pcs[t := pc], p) == Count(pcs, p) - (if p(pcs[t]) then 1 else 0) + (if p(pc) then 1 else 0)
  {
    var k := |pcs| - 1;
    if t < k {
      CountUpdate(pcs[..k], t, pc, p);
      assert pcs[t := pc][..k] == pcs[..k][t := pc];
    } else {
      assert pcs[t := pc][..k] == pcs[..k];
    }
  }

  lemma {:induction false} CountZero(pcs: seq<Pc>, p: Pc -> bool)
    ensures Count(pcs, p) == 0 <==> forall i :: 0 <= i < |pcs| ==> !p(pcs[i])
  {
    if pcs != [] {
      CountZero(pcs[..|pcs| - 1], p);
    }
  }

  lemma {:induction false} CountTwo(pcs: seq<Pc>)
    ensures Count(pcs, Writes) + Count(pcs, Reads) <= |pcs|
  {
    if pcs != [] {
      CountTwo(pcs[..|pcs| - 1]);
    }
  }

  /** What the word would be in unbounded arithmetic. */
  function Exact(pcs: seq<Pc>): int {
    WRITER * (1 - Count(pcs, Writes)) - Count(pcs, Reads)
  }

  // ---------------------------------------------------------------- the word

  lemma WrapAdd(x: int, d: int)
    ensures Wrap(Wrap(x) + d) == Wrap(x + d)
  {
    var q := (x + HALF) / WORDS;
    assert Wrap(x) == x - WORDS * q;
    Shift(x + d + HALF, q);
  }

  lemma Shift(y: int, q: int)
    ensures (y - WORDS * q) % WORDS == y % WORDS
  {
    assert (y - WORDS * q) / WORDS == y / WORDS - q;
  }

  lemma WrapSmall(x: int)
    ensures -HALF <= x < HALF ==> Wrap(x) == x
  {
  }

  /** The word always is the exact value, wrapped. */
  ghost predicate WordOk(s: State) {
    s.word == Wrap(Exact(s.pcs))
  }

  /** Up to 32769 threads the exact value fits into the word. */
  lemma NoOverflow(pcs: seq<Pc>)
    requires |pcs| <= MAX_THREADS
    ensures -HALF <= Exact(pcs) <= WRITER
  {
    CountTwo(pcs);
  }

  lemma StepWord(s: State, t: nat, write: bool)
    requires WordOk(s)
    ensures WordOk(Step(s, t, write))
  {
    hide Exact, Wrap, Sign;
    if t < |s.pcs| {
      var u := Step(s, t, write);
      ExactUpdate(s.pcs, t, u.pcs[t]);
      assert u.pcs == s.pcs[t := u.pcs[t]];
      WrapAdd(Exact(s.pcs), Part(u.pcs[t]) - Part(s.pcs[t]));
    }
  }

  /** What one thread adds to the exact value. */
  function Part(pc: Pc): int {
    -(if Writes(pc) then WRITER else 0) - if Reads(pc) then 1 else 0
  }

  lemma ExactUpdate(pcs: seq<Pc>, t: nat, pc: Pc)
    requires t < |pcs|
    ensures Exact(pcs[t := pc]) == Exact(pcs) - Part(pcs[t]) + Part(pc)
  {
    hide Count;
    CountUpdate(pcs, t, pc, Writes);
    CountUpdate(pcs, t, pc, Reads);
  }

  lemma {:induction false} InitCounts(n: nat)
    ensures Count(Init(n).pcs, Writes) == 0 && Count(Init(n).pcs, Reads) == 0
  {
    CountZero(Init(n).pcs, Writes);
    CountZero(Init(n).pcs, Reads);
  }

  /** For every number of threads and every interleaving, the word is the wrapped exact value. */
  lemma {:induction false} RunWord(n: nat, schedule: seq<(nat, bool)>)
    ensures var s := Run(Init(n), schedule); WordOk(s) && |s.pcs| == n
    decreases |schedule|
  {
    if schedule == [] {
      InitCounts(n);
    } else {
      var k := |schedule| - 1;
      RunWord(n, schedule[..k]);
      StepWord(Run(Init(n), schedule[..k]), schedule[k].0, schedule[k].1);
    }
  }

  /** With no overflow the word is 2^48 (1 - writers) - readers, and 2^48 when all threads are idle. */
  lemma WordIsExact(n: nat, schedule: seq<(nat, bool)>)
    requires n <= MAX_THREADS
    ensures var s := Run(Init(n), schedule);
      && s.word == Exact(s.pcs)
      && ((forall i :: 0 <= i < |s.pcs| ==> s.pcs[i].Idle?) ==> s.word == WRITER)
  {
    RunWord(n, schedule);
    var s := Run(Init(n), schedule);
    NoOverflow(s.pcs);
    WrapSmall(Exact(s.pcs));
    CountZero(s.pcs, Writes);
    CountZero(s.pcs, Reads);
  }

  // ---------------------------------------------------------------- exclusion

  /** A holding writer excludes all other holders. */
  ghost predicate Exclusive(s: State) {
    forall i, j :: 0 <= i < |s.pcs| && 0 <= j < |s.pcs| && i != j && s.pcs[i].WriteHold? ==>
      !s.pcs[j].WriteHold? && !s.pcs[j].ReadHold?
  }

  /** An attempt to write succeeds exactly when nobody has anything subtracted, one to read exactly when
      no writer has. */
  lemma AttemptsAreExact(s: State, t: nat, write: bool)
    requires WordOk(s) && |s.pcs| <= MAX_THREADS && t < |s.pcs|
    ensures s.pcs[t].WriteTry? ==>
      (Step(s, t, write).pcs[t].WriteHold? <==> forall i :: 0 <= i < |s.pcs| ==> !Writes(s.pcs[i]) && !Reads(s.pcs[i]))
    ensures s.pcs[t].ReadTry? ==>
      (Step(s, t, write).pcs[t].ReadHold? <==> forall i :: 0 <= i < |s.pcs| ==> !Writes(s.pcs[i]))
  {
    StepWord(s, t, write);
    NoOverflow(Step(s, t, write).pcs);
    WrapSmall(Exact(Step(s, t, write).pcs));
    CountZero(s.pcs, Writes);
    CountZero(s.pcs, Reads);
    CountTwo(s.pcs);
    CountUpdate(s.pcs, t, Step(s, t, write).pcs[t], Writes);
    CountUpdate(s.pcs, t, Step(s, t, write).pcs[t], Reads);
  }

  lemma StepExclusive(s: State, t: nat, write: bool)
    requires WordOk(s) && |s.pcs| <= MAX_THREADS && Exclusive(s)
    ensures Exclusive(Step(s, t, write))
  {
    if t < |s.pcs| {
      AttemptsAreExact(s, t, write);
    }
  }

  lemma {:induction false} RunExclusive(n: nat, schedule: seq<(nat, bool)>)
    requires n <= MAX_THREADS
    ensures Exclusive(Run(Init(n), schedule))
    decreases |schedule|
  {
    if schedule != [] {
      var k := |schedule| - 1;
      RunExclusive(n, schedule[..k]);
      RunWord(n, schedule[..k]);
      StepExclusive(Run(Init(n), schedule[..k]), schedule[k].0, schedule[k].1);
    }
  }

  // ---------------------------------------------------------------- one thread too many

  /** Threads 0 to k - 1 each start a write attempt and perform it. */
  function Attempts(k: nat): seq<(nat, bool)> {
    if k == 0 then [] else Attempts(k - 1) + [(k - 1, true), (k - 1, true)]
  }

  /** Thread 0 holds the lock for writing, threads 1 to k - 1 are about to back out. */
  ghost predicate Crowded(s: State, n: nat, k: nat) {
    && |s.pcs| == n
    && (forall i :: 0 <= i < n ==> s.pcs[i] == if i >= k then Idle else if i == 0 then WriteHold else WriteBack)
  }

  lemma {:induction false} CrowdedCounts(pcs: seq<Pc>, k: nat)
    requires k <= |pcs|
    requires forall i :: 0 <= i < |pcs| ==> Writes(pcs[i]) == (i < k) && !Reads(pcs[i])
    ensures Count(pcs, Writes) == k && Count(pcs, Reads) == 0
  {
    if pcs != [] {
      var m := |pcs| - 1;
      CrowdedCounts(pcs[..m], if k > m then m else k);
    }
  }

  lemma RunTwo(s: State, schedule: seq<(nat, bool)>, a: (nat, bool), b: (nat, bool))
    ensures Run(s, schedule + [a, b]) == Step(Step(Run(s, schedule), a.0, a.1), b.0, b.1)
  {
    var all := schedule + [a, b];
    assert all[..|all| - 1] == schedule + [a];
    assert (schedule + [a])[..|schedule|] == schedule;
  }

  lemma CrowdWord(s: State, n: nat, k: nat)
    requires Crowded(s, n, k) && k <= n && k <= MAX_THREADS && WordOk(s)
    ensures s.word == WRITER * (1 - k)
  {
    CrowdedCounts(s.pcs, k);
    WrapSmall(WRITER * (1 - k));
  }

  /** The next thread finds the word at zero or below. */
  lemma CrowdGrows(s: State, n: nat, k: nat)
    requires Crowded(s, n, k) && k < n && k < MAX_THREADS && WordOk(s)
    ensures Crowded(Step(Step(s, k, true), k, true), n, k + 1)
  {
    hide Wrap, WordOk;
    CrowdWord(s, n, k);
    WrapSmall(WRITER * (1 - k) - WRITER);
  }

  lemma {:induction false} CrowdBuilds(n: nat, k: nat)
    requires k <= MAX_THREADS && k <= n
    ensures Crowded(Run(Init(n), Attempts(k)), n, k)
  {
    hide Run, Step, WordOk;
    if k > 0 {
      CrowdBuilds(n, k - 1);
      RunTwo(Init(n), Attempts(k - 1), (k - 1, true), (k - 1, true));
      RunWord(n, Attempts(k - 1));
      CrowdGrows(Run(Init(n), Attempts(k - 1)), n, k - 1);
    } else {
      RunNothing(Init(n));
    }
  }

  lemma RunNothing(s: State)
    ensures Run(s, []) == s
  {
  }

  /** The next reader finds the word below the least 64-bit value, which reads as positive. */
  lemma ReaderGetsIn(s: State, n: nat)
    requires Crowded(s, n, MAX_THREADS) && n > MAX_THREADS && WordOk(s)
    ensures !Exclusive(Step(Step(s, MAX_THREADS, false), MAX_THREADS, false))
  {
    hide WordOk;
    CrowdWord(s, n, MAX_THREADS);
    assert Wrap(-HALF - 1) == HALF - 1;
    var u := Step(Step(s, MAX_THREADS, false), MAX_THREADS, false);
    assert u.pcs[MAX_THREADS] == ReadHold && u.pcs[0] == WriteHold;
  }

  /** With 32770 threads the word wraps: a reader gets in beside the writer. */
  lemma OverflowAdmitsReader(n: nat)
    requires n > MAX_THREADS
    ensures !Exclusive(Run(Init(n), Attempts(MAX_THREADS) + [(MAX_THREADS, false), (MAX_THREADS, false)]))
  {
    hide Run, Step, WordOk, Attempts, Exclusive, Crowded;
    CrowdBuilds(n, MAX_THREADS);
    RunTwo(Init(n), Attempts(MAX_THREADS), (MAX_THREADS, false), (MAX_THREADS, false));
    RunWord(n, Attempts(MAX_THREADS));
    ReaderGetsIn(Run(Init(n), Attempts(MAX_THREADS)), n);
  }

  /** The lock excludes in every run of `n` threads if and only if n is at most 32769. */
  lemma ExclusionBound(n: nat)
    ensures (forall schedule :: Exclusive(Run(Init(n), schedule))) <==> n <= MAX_THREADS
  {
    if n <= MAX_THREADS {
      forall schedule ensures Exclusive(Run(Init(n), schedule)) {
        RunExclusive(n, schedule);
      }
    } else {
      OverflowAdmitsReader(n);
    }
  }

  // ---------------------------------------------------------------- no deadlock

  /** Neither holding nor backing out. */
  predicate Quiet(pc: Pc) {
    !Writes(pc) && !Reads(pc)
  }

  /** One step of every thread but `t`, if it has anything subtracted. */
  function Drain(s: State, t: nat, k: nat): seq<(nat, bool)>
    requires k <= |s.pcs|
  {
    if k == 0 then []
    else Drain(s, t, k - 1) + if k - 1 == t || Quiet(s.pcs[k - 1]) then [] else [(k - 1, true)]
  }

  lemma QuietStep(s: State, i: nat)
    requires i < |s.pcs| && !Quiet(s.pcs[i])
    ensures var u := Step(s, i, true); |u.pcs| == |s.pcs| && Quiet(u.pcs[i]) && u.pcs == s.pcs[i := u.pcs[i]]
  {
  }

  /** The first `k` threads other than `t` are quiet; all others are where they were. */
  ghost predicate Drained(s: State, u: State, t: nat, k: nat) {
    && |u.pcs| == |s.pcs|
    && forall i :: 0 <= i < |s.pcs| ==> if i < k && i != t then Quiet(u.pcs[i]) else u.pcs[i] == s.pcs[i]
  }

  lemma {:induction false} DrainQuiets(s: State, t: nat, k: nat)
    requires k <= |s.pcs| && WordOk(s)
    ensures WordOk(Run(s, Drain(s, t, k))) && Drained(s, Run(s, Drain(s, t, k)), t, k)
  {
    hide Step, WordOk, Quiet, Drained;
    if k == 0 {
      NoneDrained(s, t);
    } else {
      DrainQuiets(s, t, k - 1);
      var d := Drain(s, t, k - 1);
      DrainedNext(s, Run(s, d), t, k);
      if k - 1 == t || Quiet(s.pcs[k - 1]) {
        assert d + [] == d;
      } else {
        RunOne(s, d, (k - 1, true));
        StepWord(Run(s, d), k - 1, true);
      }
    }
  }

  lemma NoneDrained(s: State, t: nat)
    ensures Drained(s, s, t, 0)
  {
  }

  lemma DrainedNext(s: State, u: State, t: nat, k: nat)
    requires 0 < k <= |s.pcs| && Drained(s, u, t, k - 1)
    ensures Drained(s, if k - 1 == t || Quiet(s.pcs[k - 1]) then u else Step(u, k - 1, true), t, k)
  {
    hide Quiet, Step;
    if k - 1 != t && !Quiet(s.pcs[k - 1]) {
      QuietStep(u, k - 1);
    }
  }

  /** The thread is on its way in. */
  predicate Waits(s: State, t: nat) {
    t < |s.pcs| && (s.pcs[t].WriteTry? || s.pcs[t].WriteSpin? || s.pcs[t].WriteBack? || s.pcs[t].ReadTry? || s.pcs[t].ReadBack?)
  }

  predicate Holds(s: State, t: nat) {
    t < |s.pcs| && (s.pcs[t].WriteHold? || s.pcs[t].ReadHold?)
  }

  function Distance(pc: Pc): nat {
    match pc
    case WriteBack => 2
    case WriteSpin => 1
    case ReadBack => 1
    case _ => 0
  }

  ghost predicate OthersQuiet(s: State, t: nat) {
    forall i :: 0 <= i < |s.pcs| && i != t ==> Quiet(s.pcs[i])
  }

  lemma WordWhenQuiet(s: State, t: nat)
    requires WordOk(s) && t < |s.pcs| && OthersQuiet(s, t)
    ensures s.word == if Writes(s.pcs[t]) then 0 else if Reads(s.pcs[t]) then WRITER - 1 else WRITER
  {
    var calm := s.pcs[t := Idle];
    CountZero(calm, Writes);
    CountZero(calm, Reads);
    CountUpdate(calm, t, s.pcs[t], Writes);
    CountUpdate(calm, t, s.pcs[t], Reads);
    assert calm[t := s.pcs[t]] == s.pcs;
  }

  lemma RunOne(s: State, schedule: seq<(nat, bool)>, a: (nat, bool))
    ensures Run(s, schedule + [a]) == Step(Run(s, schedule), a.0, a.1)
  {
    assert (schedule + [a])[..|schedule|] == schedule;
  }

  lemma SoloStep(s: State, t: nat)
    requires WordOk(s) && Waits(s, t) && OthersQuiet(s, t)
    ensures var u := Step(s, t, true);
      && WordOk(u) && OthersQuiet(u, t) && t < |u.pcs|
      && (Holds(u, t) || (Waits(u, t) && Distance(u.pcs[t]) < Distance(s.pcs[t])))
  {
    StepWord(s, t, true);
    WordWhenQuiet(s, t);
  }

  /** A thread whose competitors are quiet gets in by its own steps. */
  lemma SoloGetsIn(s: State, t: nat) returns (more: seq<(nat, bool)>)
    requires WordOk(s) && Waits(s, t) && OthersQuiet(s, t)
    ensures Holds(Run(s, more), t)
    decreases Distance(s.pcs[t])
  {
    hide WordOk, OthersQuiet, Holds, Step, Run;
    SoloStep(s, t);
    RunNothing(s);
    RunOne(s, [], (t, true));
    assert [] + [(t, true)] == [(t, true)];
    more := [(t, true)];
    if !Holds(Step(s, t, true), t) {
      var rest := SoloGetsIn(Step(s, t, true), t);
      RunAppend(s, more, rest);
      more := more + rest;
    }
  }

  lemma {:induction false} RunAppend(s: State, a: seq<(nat, bool)>, b: seq<(nat, bool)>)
    ensures Run(s, a + b) == Run(Run(s, a), b)
    decreases |b|
  {
    hide Step;
    if b == [] {
      assert a + b == a;
    } else {
      var k := |b| - 1;
      RunAppend(s, a, b[..k]);
      assert (a + b)[..|a| + k] == a + b[..k];
    }
  }

  /** Never a deadlock: from every reachable state, with any number of threads, a thread that waits for the
      lock can still get it. */
  lemma NeverStuck(n: nat, schedule: seq<(nat, bool)>, t: nat)
    requires Waits(Run(Init(n), schedule), t)
    ensures exists more :: Holds(Run(Init(n), schedule + more), t)
  {
    hide WordOk, Run, Init, Drain, Holds, Quiet;
    RunWord(n, schedule);
    var s := Run(Init(n), schedule);
    DrainQuiets(s, t, n);
    var drain := Drain(s, t, n);
    var rest := SoloGetsIn(Run(s, drain), t);
    RunAppend(s, drain, rest);
    RunAppend(Init(n), schedule, drain + rest);
    assert Holds(Run(Init(n), schedule + (drain + rest)), t);
  }
}
