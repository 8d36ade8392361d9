/** Racing publishers and readers of one authority, as a machine of critical sections (src/authority.cpp). */
module Authority {
  import opened Rules
  import opened Runs
  import opened Store
  import opened Disk = RegistryStore

  /** How far a publication has come. `Ready` holds the candidate that passed validation. */
  datatype Phase<B, D> =
    | Started(body: B, expected: nat)
    | HeadSeen(body: B, expected: nat)
    | Ready(expected: nat, candidate: Doc<B, D>)
    | Ended

  /** The cached head, the snapshot served to readers, the retained generations and the publications under way.
      `committed`, `winners` and `handedOut` keep account: every committed generation from the first,
      the expected generation of each success, and every snapshot a reader received. */
  datatype State<B, D> = State(
    meta: Meta<D>,
    current: Option<Doc<B, D>>,
    history: map<nat, Doc<B, D>>,
    publishers: map<nat, Phase<B, D>>,
    committed: seq<Doc<B, D>>,
    winners: seq<nat>,
    handedOut: seq<Doc<B, D>>)

  /** Each action is one critical section, or a step of a publisher between two of them.
      `Swap` is the exclusive section; `Forget` is pruning. */
  datatype Action<B> =
    | Begin(publisher: nat, body: B, expected: nat)
    | ReadHead(publisher: nat)
    | Prepare(publisher: nat)
    | Swap(publisher: nat, works: bool)
    | Quit(publisher: nat)
    | Read
    | Forget(number: nat)

  ghost predicate Permits<B, D>(s: State<B, D>, a: Action<B>) {
    match a
    case Begin(p, _, _) => p !in s.publishers
    case ReadHead(p) => p in s.publishers && s.publishers[p].Started?
    case Prepare(p) => p in s.publishers && s.publishers[p].HeadSeen?
    case Swap(p, _) => p in s.publishers && s.publishers[p].Ready?
    case Quit(p) => p in s.publishers
    case Read => s.current.Some?
    case Forget(n) => n != s.meta.generation
  }

  ghost predicate Wins<B, D>(env: Env<B, D>, s: State<B, D>, phase: Phase<B, D>, works: bool) {
    && phase.Ready?
    && works
    && s.meta.generation == phase.expected
    && s.meta.generation < MAX_U64
    && env.compiles(Prepared(env, s.meta, phase.candidate.body))
  }

  ghost function SwapIn<B, D>(env: Env<B, D>, s: State<B, D>, expected: nat, body: B): State<B, D> {
    var doc := Prepared(env, s.meta, body);
    s.(meta := CommittedMeta(env, s.meta, doc),
       current := Some(doc),
       history := s.history[doc.generation := doc],
       committed := s.committed + [doc],
       winners := s.winners + [expected])
  }

  ghost function Advance<B, D>(env: Env<B, D>, s: State<B, D>, p: nat): Phase<B, D>
    requires p in s.publishers && s.publishers[p].Started?
  {
    var phase := s.publishers[p];
    if s.meta.generation == phase.expected && s.meta.generation < MAX_U64 then HeadSeen(phase.body, phase.expected) else Ended
  }

  /** The candidate carries the epoch and digest of whatever head this section finds. */
  ghost function Candidate<B, D>(env: Env<B, D>, s: State<B, D>, phase: Phase<B, D>): Doc<B, D>
    requires phase.HeadSeen?
  {
    Doc(phase.expected + 1, s.meta.epoch, if phase.expected == 0 then None else Some(s.meta.digest), env.normalize(phase.body))
  }

  ghost function Perform<B, D>(env: Env<B, D>, validates: Doc<B, D> -> bool, s: State<B, D>, a: Action<B>): State<B, D> {
    if !Permits(s, a) then s else
    match a
    case Begin(p, body, expected) => s.(publishers := s.publishers[p := Started(body, expected)])
    case ReadHead(p) => s.(publishers := s.publishers[p := Advance(env, s, p)])
    case Prepare(p) =>
      var phase := s.publishers[p];
      var candidate := Candidate(env, s, phase);
      s.(publishers := s.publishers[p := if validates(candidate) then Ready(phase.expected, candidate) else Ended])
    case Swap(p, works) =>
      var phase := s.publishers[p];
      var done := s.(publishers := s.publishers[p := Ended]);
      if Wins(env, s, phase, works) then SwapIn(env, done, phase.expected, phase.candidate.body) else done
    case Quit(p) => s.(publishers := s.publishers[p := Ended])
    case Read => s.(handedOut := s.handedOut + [s.current.value])
    case Forget(n) => s.(history := s.history - {n})
  }

  ghost function Race<B, D>(env: Env<B, D>, validates: Doc<B, D> -> bool): Machine<State<B, D>, Action<B>> {
    Machine((s, a) => Permits(s, a), (s, a) => Perform(env, validates, s, a))
  }

  // ----- What every interleaving keeps -----

  /** Consecutive numbers from the first, each naming the digest of the one before. */
  ghost predicate Linked<B, D>(env: Env<B, D>, docs: seq<Doc<B, D>>) {
    |docs| < 2 || (Linked(env, docs[..|docs| - 1]) && Follows(env, docs[|docs| - 2], docs[|docs| - 1]))
  }

  ghost predicate Follows<B, D>(env: Env<B, D>, before: Doc<B, D>, doc: Doc<B, D>) {
    doc.generation == before.generation + 1 && doc.parent == Some(env.digest(before))
  }

  /** The served snapshot is the last committed generation, and the cached head describes it. */
  ghost predicate Agrees<B, D>(env: Env<B, D>, s: State<B, D>) {
    if s.committed == [] then s.current == None && s.meta.generation == 0
    else
      var last := s.committed[|s.committed| - 1];
      s.current == Some(last) && s.meta.generation == last.generation > 0 && s.meta.digest == env.digest(last)
  }

  ghost predicate AllCommitted<B, D>(s: State<B, D>) {
    && (forall n :: n in s.history ==> s.history[n] in s.committed && s.history[n].generation == n)
    && (forall i :: 0 <= i < |s.handedOut| ==> s.handedOut[i] in s.committed)
  }

  /** A success is recorded under the generation that was the head just before. */
  ghost predicate WinnersRise(base: nat, winners: seq<nat>) {
    forall i :: 0 <= i < |winners| ==> winners[i] == base + i
  }

  /** Normalising again changes nothing. */
  ghost predicate Idempotent<B(!new), D>(env: Env<B, D>) {
    forall body :: env.normalize(env.normalize(body)) == env.normalize(body)
  }

  /** What was committed since the start passed validation and compilation, as the very document installed. */
  ghost predicate Vetted<B, D>(env: Env<B, D>, validates: Doc<B, D> -> bool, s: State<B, D>) {
    && |s.winners| <= |s.committed|
    && forall i :: |s.committed| - |s.winners| <= i < |s.committed| ==>
         validates(s.committed[i]) && env.compiles(s.committed[i])
  }

  /** As long as the head is the expected one, the validated candidate is what a commit would install. */
  ghost predicate CandidateIsCurrent<B, D>(env: Env<B, D>, validates: Doc<B, D> -> bool, meta: Meta<D>, phase: Phase<B, D>) {
    && (phase.HeadSeen? || phase.Ready? ==> phase.expected <= meta.generation)
    && (phase.Ready? ==> validates(phase.candidate))
    && (phase.Ready? && phase.expected == meta.generation ==> phase.candidate == Prepared(env, meta, phase.candidate.body))
  }

  ghost predicate CandidatesAreCurrent<B, D>(env: Env<B, D>, validates: Doc<B, D> -> bool, s: State<B, D>) {
    forall p :: p in s.publishers ==> CandidateIsCurrent(env, validates, s.meta, s.publishers[p])
  }

  ghost predicate Consistent<B, D>(env: Env<B, D>, validates: Doc<B, D> -> bool, base: nat, s: State<B, D>) {
    && Linked(env, s.committed)
    && Agrees(env, s)
    && AllCommitted(s)
    && Vetted(env, validates, s)
    && WinnersRise(base, s.winners)
    && s.meta.generation == base + |s.winners|
    && CandidatesAreCurrent(env, validates, s)
  }

  lemma SwapKeepsChain<B, D>(env: Env<B, D>, s: State<B, D>, body: B)
    requires Linked(env, s.committed) && Agrees(env, s)
    ensures var t := SwapIn(env, s, s.meta.generation, body); Linked(env, t.committed) && Agrees(env, t)
  {
    var longer := s.committed + [Prepared(env, s.meta, body)];
    assert longer[..|longer| - 1] == s.committed;
  }

  lemma SwapKeepsCommitted<B, D>(env: Env<B, D>, s: State<B, D>, body: B)
    requires AllCommitted(s)
    ensures AllCommitted(SwapIn(env, s, s.meta.generation, body))
  {
    var doc := Prepared(env, s.meta, body);
    var longer := s.committed + [doc];
    assert forall d :: d in s.committed ==> d in longer;
    assert doc in longer;
  }

  lemma SwapKeepsLedger<B, D>(env: Env<B, D>, validates: Doc<B, D> -> bool, base: nat, s: State<B, D>, body: B)
    requires Consistent(env, validates, base, s)
    requires validates(Prepared(env, s.meta, body)) && env.compiles(Prepared(env, s.meta, body))
    ensures var t := SwapIn(env, s, s.meta.generation, body);
      Linked(env, t.committed) && Agrees(env, t) && AllCommitted(t) && Vetted(env, validates, t)
      && WinnersRise(base, t.winners) && t.meta.generation == base + |t.winners|
  {
    SwapKeepsChain(env, s, body);
    SwapKeepsCommitted(env, s, body);
    hide Linked, Agrees, AllCommitted, CandidatesAreCurrent;
  }

  lemma StepKeepsCandidates<B(!new), D>(env: Env<B, D>, validates: Doc<B, D> -> bool, s: State<B, D>, a: Action<B>)
    requires Idempotent(env)
    requires CandidatesAreCurrent(env, validates, s) && Permits(s, a)
    ensures CandidatesAreCurrent(env, validates, Perform(env, validates, s, a))
  {
    var t := Perform(env, validates, s, a);
    forall p | p in t.publishers ensures CandidateIsCurrent(env, validates, t.meta, t.publishers[p]) {
      if p in s.publishers {
        assert CandidateIsCurrent(env, validates, s.meta, s.publishers[p]);
      }
    }
  }

  lemma StepKeepsConsistent<B(!new), D>(env: Env<B, D>, validates: Doc<B, D> -> bool, base: nat, s: State<B, D>, a: Action<B>)
    requires Idempotent(env)
    requires Consistent(env, validates, base, s) && Permits(s, a)
    ensures Consistent(env, validates, base, Perform(env, validates, s, a))
  {
    StepKeepsCandidates(env, validates, s, a);
    match a
    case Swap(p, works) =>
      var done := s.(publishers := s.publishers[p := Ended]);
      assert Consistent(env, validates, base, done);
      assert CandidateIsCurrent(env, validates, s.meta, s.publishers[p]);
      if Wins(env, s, s.publishers[p], works) {
        SwapKeepsLedger(env, validates, base, done, s.publishers[p].candidate.body);
      }
    case _ =>
  }

  // ----- What holds of every interleaving -----

  /** An in-memory authority begins with a compiled seed, a persistent one with nothing or with the head it loaded. */
  ghost predicate Fresh<B, D>(env: Env<B, D>, s: State<B, D>) {
    && s.publishers == map[] && s.winners == [] && s.handedOut == []
    && |s.committed| <= 1
    && Agrees(env, s)
    && (forall n :: n in s.history ==> s.committed != [] && n == s.meta.generation && s.history[n] == s.committed[0])
  }

  ghost function ConsistentIn<B(!new), D(!new)>(env: Env<B, D>, validates: Doc<B, D> -> bool, base: nat): State<B, D> -> bool {
    s => Consistent(env, validates, base, s)
  }

  lemma ConsistencyIsInductive<B(!new), D(!new)>(env: Env<B, D>, validates: Doc<B, D> -> bool, base: nat)
    requires Idempotent(env)
    ensures Inductive(Race(env, validates), ConsistentIn(env, validates, base))
  {
    forall s, a | Consistent(env, validates, base, s) && Permits(s, a)
      ensures Consistent(env, validates, base, Perform(env, validates, s, a))
    {
      StepKeepsConsistent(env, validates, base, s, a);
    }
  }

  lemma EveryInterleavingIsConsistent<B(!new), D(!new)>(env: Env<B, D>, validates: Doc<B, D> -> bool, s: State<B, D>,
                                                        actions: seq<Action<B>>)
    requires Idempotent(env) && Fresh(env, s) && IsRun(Race(env, validates), s, actions)
    ensures Consistent(env, validates, s.meta.generation, After(Race(env, validates), s, actions))
  {
    ConsistencyIsInductive(env, validates, s.meta.generation);
    RunKeeps(Race(env, validates), ConsistentIn(env, validates, s.meta.generation), s, actions);
  }

  /** No two publications ever succeed on the same expected generation. */
  lemma OneSuccessPerHead<B(!new), D(!new)>(env: Env<B, D>, validates: Doc<B, D> -> bool, s: State<B, D>,
                                            actions: seq<Action<B>>, i: nat, j: nat)
    requires Idempotent(env) && Fresh(env, s) && IsRun(Race(env, validates), s, actions)
    requires i < |After(Race(env, validates), s, actions).winners| && j < |After(Race(env, validates), s, actions).winners|
    ensures After(Race(env, validates), s, actions).winners[i] == After(Race(env, validates), s, actions).winners[j] ==> i == j
  {
    EveryInterleavingIsConsistent(env, validates, s, actions);
  }

  /** Every snapshot a reader ever received, or can look up by number, is a whole committed generation. */
  lemma SnapshotsAreCommitted<B(!new), D(!new)>(env: Env<B, D>, validates: Doc<B, D> -> bool, s: State<B, D>, actions: seq<Action<B>>)
    requires Idempotent(env) && Fresh(env, s) && IsRun(Race(env, validates), s, actions)
    ensures var t := After(Race(env, validates), s, actions);
      && (forall i :: 0 <= i < |t.handedOut| ==> t.handedOut[i] in t.committed)
      && (forall n :: n in t.history ==> t.history[n] in t.committed && t.history[n].generation == n)
      && (t.committed != [] ==> t.current == Some(t.committed[|t.committed| - 1]))
  {
    EveryInterleavingIsConsistent(env, validates, s, actions);
  }

  lemma {:induction false} LinkedAt<B, D>(env: Env<B, D>, docs: seq<Doc<B, D>>, i: nat)
    requires Linked(env, docs) && i + 1 < |docs|
    ensures Follows(env, docs[i], docs[i + 1])
  {
    if i + 2 < |docs| {
      LinkedAt(env, docs[..|docs| - 1], i);
    }
  }

  /** The committed generations form a contiguous chain of digests from the first. */
  lemma {:induction false} ChainIsContiguous<B, D>(env: Env<B, D>, docs: seq<Doc<B, D>>, i: nat)
    requires Linked(env, docs) && i < |docs|
    ensures docs[i].generation == docs[0].generation + i
    ensures i > 0 ==> docs[i].parent == Some(env.digest(docs[i - 1]))
  {
    if i > 0 {
      LinkedAt(env, docs, i - 1);
      ChainIsContiguous(env, docs, i - 1);
    }
  }

  /** A swap succeeds exactly when the head is still the expected one and the document can be installed;
      then what it installs is the candidate that was validated outside the lock. */
  lemma SwapInstallsTheCandidate<B(!new), D(!new)>(env: Env<B, D>, validates: Doc<B, D> -> bool, s: State<B, D>,
                                                   actions: seq<Action<B>>, p: nat, works: bool)
    requires Idempotent(env) && Fresh(env, s) && IsRun(Race(env, validates), s, actions)
    requires var t := After(Race(env, validates), s, actions); p in t.publishers && t.publishers[p].Ready?
    ensures var t := After(Race(env, validates), s, actions);
      var phase, u := t.publishers[p], Perform(env, validates, t, Swap(p, works));
      if works && t.meta.generation == phase.expected && phase.expected < MAX_U64 && env.compiles(phase.candidate)
      then u.current == Some(phase.candidate) && u.committed == t.committed + [phase.candidate]
           && u.winners == t.winners + [phase.expected]
      else u == t.(publishers := t.publishers[p := Ended])
  {
    EveryInterleavingIsConsistent(env, validates, s, actions);
    var t := After(Race(env, validates), s, actions);
    assert CandidateIsCurrent(env, validates, t.meta, t.publishers[p]);
  }

  /** A publisher that nobody interrupts commits, whatever the state, if its document passes and the numbers last. */
  lemma LonePublisherSucceeds<B(!new), D(!new)>(env: Env<B, D>, validates: Doc<B, D> -> bool, s: State<B, D>, p: nat, body: B)
    requires Idempotent(env) && p !in s.publishers && s.meta.generation < MAX_U64
    requires validates(Prepared(env, s.meta, body)) && env.compiles(Prepared(env, s.meta, body))
    ensures var doc, head := Prepared(env, s.meta, body), s.meta.generation;
      var run := [Begin(p, body, head), ReadHead(p), Prepare(p), Swap(p, true)];
      && IsRun(Race(env, validates), s, run)
      && After(Race(env, validates), s, run) == s.(
           meta := CommittedMeta(env, s.meta, doc), current := Some(doc), history := s.history[doc.generation := doc],
           publishers := s.publishers[p := Ended], committed := s.committed + [doc], winners := s.winners + [head])
  {
    var doc, head := Prepared(env, s.meta, body), s.meta.generation;
    var s1 := s.(publishers := s.publishers[p := Started(body, head)]);
    var s2 := s.(publishers := s.publishers[p := HeadSeen(body, head)]);
    var s3 := s.(publishers := s.publishers[p := Ready(head, doc)]);
    var run := [Begin(p, body, head), ReadHead(p), Prepare(p), Swap(p, true)];
    SeesTheHead(env, validates, s, s1, s2, p, body);
    CandidateIsReady(env, validates, s, s2, s3, p, body);
    CandidateWins(env, validates, s, s3, p, body);
    hide Perform, Permits, Prepared, CommittedMeta;
    FourSteps(Race(env, validates), s, run, s1, s2, s3);
  }

  lemma SeesTheHead<B(!new), D(!new)>(env: Env<B, D>, validates: Doc<B, D> -> bool, s: State<B, D>, s1: State<B, D>, s2: State<B, D>,
                                      p: nat, body: B)
    requires p !in s.publishers && s.meta.generation < MAX_U64
    requires s1 == s.(publishers := s.publishers[p := Started(body, s.meta.generation)])
    requires s2 == s.(publishers := s.publishers[p := HeadSeen(body, s.meta.generation)])
    ensures Permits(s, Begin(p, body, s.meta.generation)) && Perform(env, validates, s, Begin(p, body, s.meta.generation)) == s1
    ensures Permits(s1, ReadHead(p)) && Perform(env, validates, s1, ReadHead(p)) == s2
  {
    assert s1.publishers[p := HeadSeen(body, s.meta.generation)] == s2.publishers;
  }

  lemma CandidateIsReady<B(!new), D(!new)>(env: Env<B, D>, validates: Doc<B, D> -> bool, s: State<B, D>, s2: State<B, D>, s3: State<B, D>,
                                           p: nat, body: B)
    requires validates(Prepared(env, s.meta, body))
    requires s2 == s.(publishers := s.publishers[p := HeadSeen(body, s.meta.generation)])
    requires s3 == s.(publishers := s.publishers[p := Ready(s.meta.generation, Prepared(env, s.meta, body))])
    ensures Permits(s2, Prepare(p)) && Perform(env, validates, s2, Prepare(p)) == s3
  {
    var ready := Ready(s.meta.generation, Prepared(env, s.meta, body));
    assert s2.publishers[p] == HeadSeen(body, s.meta.generation) && s2.publishers[p := ready] == s3.publishers;
    assert Candidate(env, s2, s2.publishers[p]) == Prepared(env, s.meta, body);
  }

  lemma CandidateWins<B(!new), D(!new)>(env: Env<B, D>, validates: Doc<B, D> -> bool, s: State<B, D>, s3: State<B, D>, p: nat, body: B)
    requires Idempotent(env) && s.meta.generation < MAX_U64 && env.compiles(Prepared(env, s.meta, body))
    requires s3 == s.(publishers := s.publishers[p := Ready(s.meta.generation, Prepared(env, s.meta, body))])
    ensures Permits(s3, Swap(p, true))
    ensures var doc := Prepared(env, s.meta, body);
      Perform(env, validates, s3, Swap(p, true)) == s.(
        meta := CommittedMeta(env, s.meta, doc), current := Some(doc), history := s.history[doc.generation := doc],
        publishers := s.publishers[p := Ended], committed := s.committed + [doc], winners := s.winners + [s.meta.generation])
  {
    var doc := Prepared(env, s.meta, body);
    assert s3.publishers[p] == Ready(s.meta.generation, doc) && s3.publishers[p := Ended] == s.publishers[p := Ended];
    assert Prepared(env, s.meta, doc.body) == doc;
    assert Wins(env, s3, s3.publishers[p], true);
  }

  lemma FourSteps<S, A>(m: Machine<S, A>, s: S, run: seq<A>, s1: S, s2: S, s3: S)
    requires |run| == 4 && m.step(s, run[0]) == s1 && m.step(s1, run[1]) == s2 && m.step(s2, run[2]) == s3
    requires m.enabled(s, run[0]) && m.enabled(s1, run[1]) && m.enabled(s2, run[2]) && m.enabled(s3, run[3])
    ensures IsRun(m, s, run) && After(m, s, run) == m.step(s3, run[3])
  {
    assert run[..3][..2] == run[..2] && run[..2][..1] == run[..1] && run[..1][..0] == [];
    assert After(m, s, run[..1]) == s1 && IsRun(m, s, run[..1]);
    assert After(m, s, run[..2]) == s2 && IsRun(m, s, run[..2]);
    assert After(m, s, run[..3]) == s3 && IsRun(m, s, run[..3]);
  }

  /** A reader gets the generation committed last. */
  lemma ReaderGetsTheHead<B(!new), D(!new)>(env: Env<B, D>, validates: Doc<B, D> -> bool, s: State<B, D>, actions: seq<Action<B>>)
    requires Idempotent(env) && Fresh(env, s) && IsRun(Race(env, validates), s, actions)
    ensures var t := After(Race(env, validates), s, actions);
      && (Permits(t, Read) <==> t.committed != [])
      && (t.committed != [] ==>
            Perform(env, validates, t, Read) == t.(handedOut := t.handedOut + [t.committed[|t.committed| - 1]]))
  {
    hide *;
    EveryInterleavingIsConsistent(env, validates, s, actions);
    var t := After(Race(env, validates), s, actions);
    ConsistentAgrees(env, validates, s.meta.generation, t);
    ReadTakesTheLast(env, validates, t);
  }

  lemma ConsistentAgrees<B(!new), D(!new)>(env: Env<B, D>, validates: Doc<B, D> -> bool, base: nat, t: State<B, D>)
    requires Consistent(env, validates, base, t)
    ensures Agrees(env, t)
  {
  }

  lemma ReadTakesTheLast<B(!new), D(!new)>(env: Env<B, D>, validates: Doc<B, D> -> bool, t: State<B, D>)
    requires Agrees(env, t)
    ensures Permits(t, Read) <==> t.committed != []
    ensures t.committed != [] ==>
              Perform(env, validates, t, Read) == t.(handedOut := t.handedOut + [t.committed[|t.committed| - 1]])
  {
  }

  // ----- The authority -----

  /** The served state and the directory below it. */
  datatype Joint<B, D> = Joint(state: State<B, D>, disk: World<B, D>)

  /** Publishing goes through, and what was written can be read back. */
  ghost predicate CommitWorks<B, D>(env: Env<B, D>, s: State<B, D>, w: World<B, D>, body: B, io: Io) {
    && Publishes(env, w, body, FenceOf(s.meta), 4, io)
    && Loads(env, PublishedWorld(env, w, body, FenceOf(s.meta), 4, io).files, io, s.meta.generation + 1)
  }

  /** The exclusive section over a store: the directory moves by steps of its protocol. */
  ghost function CommitBoth<B, D>(env: Env<B, D>, s: State<B, D>, w: World<B, D>, body: B, io: Io): Joint<B, D> {
    Joint(if CommitWorks(env, s, w, body, io) then SwapIn(env, s, s.meta.generation, body) else s,
          PublishedWorld(env, w, body, FenceOf(s.meta), 4, io))
  }

  datatype Stamp<D> = Stamp(incarnation: nat, generation: Option<(nat, D)>)

  class RegistryAuthority<B(!new), D(!new, ==)> {
    const env: Env<B, D>
    const validates: Doc<B, D> -> bool
    const store: RegistryStore?<B, D>
    const epoch: nat
    const incarnation: nat
    var meta: Meta<D>
    var current: Option<Doc<B, D>>
    var history: map<nat, Doc<B, D>>
    ghost var committed: seq<Doc<B, D>>
    ghost var winners: seq<nat>

    ghost function Disk(): set<object> {
      if store == null then {} else {store.directory}
    }

    ghost function View(): State<B, D>
      reads this
    {
      State(meta, current, history, map[], committed, winners, [])
    }

    /** Snapshot, cached head and retained generations tell one story. */
    ghost predicate Healthy()
      reads this
    {
      Linked(env, committed) && Agrees(env, View()) && AllCommitted(View())
    }

    /** On disk the head is the cached one. */
    ghost predicate Synced()
      reads this, Disk()
    {
      store != null ==> store.directory.meta.generation == meta.generation
    }

    ghost predicate Valid()
      reads this, Disk()
    {
      && meta.epoch == epoch && meta.incarnation == incarnation
      && (store != null ==>
            && store.Valid() && store.directory.env == env
            && (store.writable && Synced() ==> store.directory.meta == meta))
    }

    constructor (env: Env<B, D>, validates: Doc<B, D> -> bool, store: RegistryStore?<B, D>, meta: Meta<D>,
                 current: Option<Doc<B, D>>)
      ensures this.env == env && this.validates == validates && this.store == store
      ensures this.epoch == meta.epoch && this.incarnation == meta.incarnation
      ensures this.meta == meta && this.current == current
      ensures history == if current.None? then map[] else map[current.value.generation := current.value]
      ensures committed == if current.None? then [] else [current.value]
      ensures winners == []
    {
      this.env, this.validates, this.store := env, validates, store;
      this.epoch, this.incarnation := meta.epoch, meta.incarnation;
      this.meta, this.current := meta, current;
      history := if current.None? then map[] else map[current.value.generation := current.value];
      committed, winners := if current.None? then [] else [current.value], [];
    }

    /** Serves the seed in normal form; a non-zero seed starts a healthy authority. */
    static method OpenInMemory(env: Env<B, D>, validates: Doc<B, D> -> bool, seed: Doc<B, D>)
      returns (r: Result<RegistryAuthority<B, D>>)
      ensures r.Ok? <==> env.compiles(seed)
      ensures r.Ok? ==> fresh(r.value) && r.value.store == null && r.value.Valid() && r.value.env == env
      ensures r.Err? ==> r.error == CompileFailed
      ensures r.Ok? ==> r.value.incarnation == 1 && r.value.epoch == 1 && r.value.winners == []
      ensures r.Ok? ==> r.value.current == Some(seed.(body := env.normalize(seed.body)))
      ensures r.Ok? ==> r.value.history == map[seed.generation := r.value.current.value]
      ensures r.Ok? ==> r.value.meta.generation == seed.generation
      ensures r.Ok? ==> (r.value.Healthy() <==> seed.generation > 0)
    {
      if !env.compiles(seed) { return Err(CompileFailed); }
      var doc := seed.(body := env.normalize(seed.body));
      var meta := Meta(doc.generation, env.digest(doc), 1, 1, doc.generation);
      var authority := new RegistryAuthority<B, D>(env, validates, null, meta, Some(doc));
      return Ok(authority);
    }

    /** Serves what it could load; it agrees with the head exactly when the head itself could be read.
        A failed opening leaves the lock as it was. */
    static method Open(directory: Directory<B, D>, writable: bool, validates: Doc<B, D> -> bool, allowEmpty: bool, io: Io)
      returns (r: Result<RegistryAuthority<B, D>>)
      requires directory.Valid()
      modifies directory
      ensures directory.Valid()
      ensures directory.history == old(directory.history)
      ensures r.Ok? <==>
        && io.readMeta && (writable ==> !old(directory.locked) && io.writeMeta && CanBump(old(directory.meta)))
        && if directory.history == [] then allowEmpty
           else exists n :: 0 <= n <= directory.meta.generation && Loads(directory.env, directory.files, io, n)
      ensures r.Err? ==> directory.locked == old(directory.locked)
      ensures r.Ok? && writable ==> directory.locked
      ensures r.Ok? ==> fresh(r.value) && r.value.store != null && r.value.store.directory == directory && r.value.Valid()
      ensures r.Ok? ==> r.value.Synced() && r.value.env == directory.env
      ensures r.Ok? && directory.history == [] ==> r.value.current == None && r.value.Healthy()
      ensures r.Ok? && directory.history != [] ==> r.value.current.Some? && r.value.current.value in directory.history
      ensures r.Ok? && directory.history != [] ==>
        (r.value.Healthy() <==> Loads(directory.env, directory.files, io, directory.meta.generation))
      ensures r.Ok? && r.value.Healthy() ==>
        && Fresh(directory.env, r.value.View()) && r.value.meta == directory.meta
        && r.value.committed == directory.history[if directory.history == [] then 0 else |directory.history| - 1..]
    {
      hide IsRun, After, IsPruned, AreDebris, Loads;
      var handle := RegistryStore<B, D>.Open(directory, writable, io);
      if handle.Err? { return Err(handle.error); }
      var store := handle.value;
      EmptyMeansZero(directory);
      var meta := directory.meta;
      if meta.generation == 0 {
        if !allowEmpty {
          Close(store);
          return Err(NotFound);
        }
        var empty := new RegistryAuthority<B, D>(directory.env, validates, store, meta, None);
        return Ok(empty);
      }
      r := ServeLatest(store, validates, io);
    }

    static method ServeLatest(store: RegistryStore<B, D>, validates: Doc<B, D> -> bool, io: Io)
      returns (r: Result<RegistryAuthority<B, D>>)
      requires store.Valid() && store.directory.history != []
      requires store.epoch == store.directory.meta.epoch && store.incarnation == store.directory.meta.incarnation
      modifies store.directory
      ensures store.Valid() || r.Err?
      ensures store.directory.Valid() && store.directory.history == old(store.directory.history)
      ensures io.readMeta ==>
        (r.Ok? <==> exists n :: 0 <= n <= store.directory.meta.generation && Loads(store.directory.env, store.directory.files, io, n))
      ensures store.directory.meta == old(store.directory.meta)
      ensures store.directory.locked == (old(store.directory.locked) && (r.Ok? || !store.writable))
      ensures r.Ok? ==> fresh(r.value) && r.value.store == store && r.value.Valid() && r.value.Synced()
      ensures r.Ok? ==> r.value.env == store.directory.env
      ensures r.Ok? ==> r.value.current.Some? && r.value.current.value in store.directory.history
      ensures r.Ok? ==>
        (r.value.Healthy() <==> Loads(store.directory.env, store.directory.files, io, store.directory.meta.generation))
      ensures r.Ok? && r.value.Healthy() ==>
        && Fresh(store.directory.env, r.value.View()) && r.value.meta == store.directory.meta
        && r.value.committed == store.directory.history[|store.directory.history| - 1..]
    {
      hide IsRun, After, IsPruned, AreDebris, Loads, Linked, AllCommitted, Agrees, Fresh;
      var loaded := store.LoadLatest(io);
      if loaded.Err? {
        Close(store);
        return Err(loaded.error);
      }
      HeadAgrees(store.directory, io, loaded.value);
      var authority :=
        new RegistryAuthority<B, D>(store.directory.env, validates, store, store.directory.meta, Some(loaded.value.doc));
      StartingState(authority.env, authority.View(), loaded.value.doc);
      return Ok(authority);
    }

    static lemma StartingState(env: Env<B, D>, s: State<B, D>, doc: Doc<B, D>)
      requires s == State(s.meta, Some(doc), map[doc.generation := doc], map[], [doc], [], [])
      ensures Linked(env, s.committed) && AllCommitted(s)
      ensures Agrees(env, s) <==> s.meta.generation == doc.generation > 0 && s.meta.digest == env.digest(doc)
      ensures Agrees(env, s) ==> Fresh(env, s)
    {
    }

    /** An authority that cannot start is destroyed, and its store with it. */
    static method Close(store: RegistryStore<B, D>)
      requires store.Valid()
      modifies store.directory
      ensures store.directory.Valid()
      ensures store.directory.locked == (old(store.directory.locked) && !store.writable)
      ensures store.directory.history == old(store.directory.history) && store.directory.meta == old(store.directory.meta)
      ensures store.directory.files == old(store.directory.files)
    {
      hide IsRun, After;
      if store.writable { store.directory.Unlock(); }
    }

    static lemma EmptyMeansZero(directory: Directory<B, D>)
      requires directory.Valid()
      ensures directory.meta.generation == 0 <==> directory.history == []
    {
      directory.ValidIsSound();
    }

    static lemma HeadAgrees(directory: Directory<B, D>, io: Io, loaded: Loaded<B, D>)
      requires directory.Valid()
      requires var n := loaded.doc.generation;
        && 0 < n <= |directory.history| && loaded.doc == directory.history[n - 1]
        && Loads(directory.env, directory.files, io, n)
        && forall m :: n < m <= |directory.history| ==> !Loads(directory.env, directory.files, io, m)
      ensures loaded.doc in directory.history && 0 <= loaded.doc.generation <= directory.meta.generation
      ensures loaded.doc.generation == directory.meta.generation
        <==> Loads(directory.env, directory.files, io, directory.meta.generation)
      ensures loaded.doc.generation == directory.meta.generation ==>
        directory.meta.digest == directory.env.digest(loaded.doc) && [loaded.doc] == directory.history[|directory.history| - 1..]
    {
      directory.ValidIsSound();
    }

    method Snapshot() returns (r: Result<Doc<B, D>>)
      requires Valid() && Healthy()
      ensures r.Ok? <==> committed != []
      ensures r.Err? ==> r.error == NotFound
      ensures r.Ok? ==> r.value == committed[|committed| - 1] && r.value.generation == meta.generation
    {
      if current.None? { return Err(NotFound); }
      return Ok(current.value);
    }

    /** From memory if retained, else from disk. */
    method SnapshotAt(number: nat, io: Io) returns (r: Result<Doc<B, D>>)
      requires Valid() && Healthy()
      ensures r.Ok? <==> number in history || (store != null && Loads(env, store.directory.files, io, number))
      ensures r.Ok? && number in history ==> r.value in committed && r.value.generation == number
      ensures r.Ok? && number !in history && number <= |store.directory.history| ==>
        0 < number && r.value == store.directory.history[number - 1]
    {
      if number in history { return Ok(history[number]); }
      if store == null { return Err(NotFound); }
      r := store.LoadGeneration(number, io);
      store.directory.ValidIsSound();
    }

    // ----- Publishing -----

    method Install(doc: Doc<B, D>, updated: Meta<D>)
      requires Healthy()
      requires doc.generation == meta.generation + 1 && doc.parent == ParentOf(meta)
      requires updated == CommittedMeta(env, meta, doc)
      modifies this
      ensures Healthy()
      ensures View() == old(View()).(meta := updated, current := Some(doc), history := old(history)[doc.generation := doc],
                                     committed := old(committed) + [doc], winners := old(winners) + [old(meta.generation)])
    {
      var longer := committed + [doc];
      assert longer[..|committed|] == committed;
      assert forall d :: d in committed ==> d in longer;
      assert doc in longer;
      winners := winners + [meta.generation];
      committed := longer;
      meta, current, history := updated, Some(doc), history[doc.generation := doc];
    }

    /** Publishes to the store and reads the result back. If only the reading fails, the head on disk is ahead
        of the cached one, and from then on no commit succeeds. */
    method CommitToStore(body: B, io: Io) returns (r: Result<Receipt<D>>)
      requires Valid() && Healthy() && store != null
      modifies this, Disk()
      ensures Valid() && Healthy()
      ensures r.Ok? ==> View() == SwapIn(env, old(View()), old(meta.generation), body)
      ensures r.Ok? ==> old(Synced()) && Synced()
      ensures r.Ok? ==> r.value == Receipt(meta.generation, meta.digest, meta)
      ensures r.Err? ==> View() == old(View())
      ensures r.Err? && old(Synced()) && !Synced() ==> store.directory.meta.generation == meta.generation + 1
      ensures !old(Synced()) ==> r.Err? && store.directory.meta == old(store.directory.meta)
      ensures store.writable ==>
        Joint(View(), store.directory.World()) == CommitBoth(env, old(View()), old(store.directory.World()), body, io)
      ensures r.Ok? <==> store.writable && CommitWorks(env, old(View()), old(store.directory.World()), body, io)
    {
      hide IsRun, After, Publishable, HasRoom, PublishedWorld;
      var fence := Fence(meta.generation, epoch, incarnation);
      var outcome := store.Publish(body, fence, 4, io);
      if outcome.Err? { return Err(outcome.error); }
      var loaded := store.LoadGeneration(outcome.value.number, io);
      if loaded.Err? { return Err(loaded.error); }
      Install(loaded.value, outcome.value.meta);
      return Ok(outcome.value);
    }

    /** The exclusive section: it installs the next generation, or changes nothing that readers see. */
    method Commit(body: B, expected: nat, io: Io) returns (r: Result<Receipt<D>>)
      requires Valid() && Healthy()
      modifies this, Disk()
      ensures Valid() && Healthy()
      ensures r.Ok? ==> View() == SwapIn(env, old(View()), expected, body) && old(meta.generation) == expected
      ensures r.Ok? ==> old(Synced()) && Synced()
      ensures r.Err? ==> View() == old(View())
      ensures old(meta.generation) != expected ==> r == Err(StaleGeneration)
      ensures store != null && old(meta.generation) == expected ==>
        (r.Ok? <==> store.writable && CommitWorks(env, old(View()), old(store.directory.World()), body, io))
      ensures r.Ok? ==> r.value == Receipt(meta.generation, meta.digest, meta)
      ensures !old(Synced()) ==> r.Err? && !Synced()
      ensures store == null ==>
        (r.Ok? <==> old(meta.generation) == expected < MAX_U64 && env.compiles(Prepared(env, old(meta), body)))
    {
      hide IsRun, After, CommitWorks;
      if meta.generation != expected { return Err(StaleGeneration); }
      if store != null {
        r := CommitToStore(body, io);
        return;
      }
      if meta.generation >= MAX_U64 { return Err(CounterOverflow); }
      var doc := Prepared(env, meta, body);
      if !env.compiles(doc) { return Err(CompileFailed); }
      Install(doc, CommittedMeta(env, meta, doc));
      return Ok(Receipt(doc.generation, env.digest(doc), meta));
    }

    /** All sections of one publication in a row. `checks` of the three looks at the token find it not cancelled. */
    method Publish(body: B, expected: nat, checks: nat, io: Io) returns (r: Result<Receipt<D>>)
      requires Valid() && Healthy() && Idempotent(env)
      modifies this, Disk()
      ensures Valid() && Healthy()
      ensures r.Err? ==> View() == old(View())
      ensures r.Ok? ==> (old(meta.generation) == expected
                         && View() == SwapIn(env, old(View()), expected, env.normalize(body))
                         && current == Some(Prepared(env, old(meta), body)) && validates(current.value))
      ensures checks == 0 ==> r == Err(Cancelled)
      ensures checks > 0 && old(meta.generation) != expected ==> r == Err(StaleGeneration)
      ensures r.Ok? ==> current.value.body == env.normalize(body) && current.value.parent == ParentOf(old(meta))
      ensures store != null ==>
        (r.Ok? <==> checks >= 3 && old(meta.generation) == expected < MAX_U64 && validates(Prepared(env, old(meta), body))
                    && store.writable && CommitWorks(env, old(View()), old(store.directory.World()), env.normalize(body), io))
      ensures store == null ==>
        (r.Ok? <==> checks >= 3 && old(meta.generation) == expected < MAX_U64
                    && validates(Prepared(env, old(meta), body)) && env.compiles(Prepared(env, old(meta), body)))
    {
      hide IsRun, After, CommitWorks;
      if checks == 0 { return Err(Cancelled); }
      var head := meta.generation;
      if head != expected { return Err(StaleGeneration); }
      if head >= MAX_U64 { return Err(CounterOverflow); }
      var candidate := Doc(head + 1, epoch, if head == 0 then None else Some(meta.digest), env.normalize(body));
      if checks == 1 { return Err(Cancelled); }
      if !validates(candidate) { return Err(CompileFailed); }
      if checks == 2 { return Err(Cancelled); }
      assert Prepared(env, meta, candidate.body) == candidate;
      r := Commit(candidate.body, expected, io);
    }

    // ----- Stamps and pruning -----

    method CurrentStamp() returns (stamp: Stamp<D>)
      requires Healthy()
      ensures stamp.incarnation == incarnation
      ensures stamp.generation == if committed == [] then None else Some((meta.generation, meta.digest))
    {
      return Stamp(incarnation, if current.None? then None else Some((current.value.generation, env.digest(current.value))));
    }

    /** A stamp holds for one incarnation and one head only. */
    method CheckStamp(stamp: Stamp<D>) returns (r: Result<bool>)
      requires Healthy()
      ensures r.Ok? <==> (stamp.incarnation == incarnation
                          && (committed == [] || stamp.generation == Some((meta.generation, meta.digest))))
      ensures r.Err? ==> r.error == if stamp.incarnation != incarnation then StaleIncarnation else StaleGeneration
    {
      if stamp.incarnation != incarnation { return Err(StaleIncarnation); }
      if current.Some? && stamp.generation != Some((current.value.generation, env.digest(current.value))) {
        return Err(StaleGeneration);
      }
      return Ok(true);
    }

    method Forget(numbers: seq<nat>)
      requires Healthy()
      modifies `history
      ensures Healthy()
      ensures forall n :: n in history <==> n in old(history) && n !in numbers
    {
      for i := 0 to |numbers|
        invariant AllCommitted(View())
        invariant forall n :: n in history <==> n in old(history) && n !in numbers[..i]
      {
        history := history - {numbers[i]};
        assert numbers[..i + 1] == numbers[..i] + [numbers[i]];
      }
      assert numbers[..|numbers|] == numbers;
    }

    /** What is pruned on disk is forgotten in memory; the served snapshot stays. */
    method Prune(keep: nat, io: Io) returns (r: Result<seq<nat>>)
      requires Valid() && Healthy()
      modifies this, Disk()
      ensures Valid() && Healthy()
      ensures store == null ==> r == Err(ImmutableGeneration)
      ensures r.Ok? <==> store != null && store.writable && io.readMeta && io.list
      ensures r.Ok? ==> IsPruned(old(store.directory.files.Keys), store.directory.meta.generation, keep, io, r.value)
      ensures View() == old(View()).(history := history)
      ensures r.Err? ==> history == old(history)
      ensures r.Ok? ==> forall n :: n in history <==> n in old(history) && n !in r.value
      ensures r.Ok? && Synced() ==> meta.generation !in r.value
    {
      hide IsRun, After, Linked;
      if store == null { return Err(ImmutableGeneration); }
      r := store.Prune(keep, io);
      if r.Ok? {
        Forget(r.value);
      }
    }
  }
}
