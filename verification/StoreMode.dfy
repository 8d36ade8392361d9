/** Racing publishers over a store: the authority's sections and the directory's effects together (src/authority.cpp, src/store.cpp). */
module StoreMode {
  import opened Rules
  import opened Runs
  import opened Store
  import opened Disk = RegistryStore
  import opened Authority

  /** `Commit` is the exclusive section over the store; `Outside` is pruning, damage or loss of a file. */
  datatype Move<B, D> =
    | Section(section: Authority.Action<B>)
    | Commit(publisher: nat, io: Io)
    | Outside(effect: Store.Action<B, D>)

  ghost predicate MayMove<B, D>(env: Env<B, D>, j: Joint<B, D>, m: Move<B, D>) {
    match m
    case Section(a) => Permits(j.state, a) && !a.Swap?
    case Commit(p, _) => p in j.state.publishers && j.state.publishers[p].Ready?
    case Outside(e) => (e.RemoveFile? || e.Damage? || e.Lose?) && Enabled(env, j.disk, e)
  }

  ghost function Moved<B, D>(env: Env<B, D>, validates: Doc<B, D> -> bool, j: Joint<B, D>, m: Move<B, D>): Joint<B, D> {
    if !MayMove(env, j, m) then j else
    match m
    case Section(a) => j.(state := Perform(env, validates, j.state, a))
    case Commit(p, io) =>
      var phase, ended := j.state.publishers[p], j.state.publishers[p := Ended];
      if j.state.meta.generation != phase.expected then j.(state := j.state.(publishers := ended))
      else
        var both := CommitBoth(env, j.state, j.disk, phase.candidate.body, io);
        both.(state := both.state.(publishers := ended))
    case Outside(e) => j.(disk := Do(env, j.disk, e))
  }

  ghost function Service<B, D>(env: Env<B, D>, validates: Doc<B, D> -> bool): Machine<Joint<B, D>, Move<B, D>> {
    Machine((j, m) => MayMove(env, j, m), (j, m) => Moved(env, validates, j, m))
  }

  // ----- An attempt to publish is a run of the directory's protocol -----

  lemma WritingIsEnabled<B, D>(env: Env<B, D>, w: World<B, D>, body: B, fence: Fence, checks: nat, io: Io)
    requires w.writer == Idle && Admissible(env, w, body, fence, checks, io)
    ensures var doc := Prepared(env, w.meta, body); Enabled(env, Cleared(env, w, doc, io), WriteFile(doc))
  {
    var doc := Prepared(env, w.meta, body);
    FilesStayBounded(w.files, doc.generation, Damaged);
    assert w.files - {doc.generation} - {doc.generation} == w.files - {doc.generation};
  }

  lemma ClearedByRun<B(!new), D(!new)>(env: Env<B, D>, w: World<B, D>, doc: Doc<B, D>, io: Io) returns (effects: seq<Store.Action<B, D>>)
    requires w.writer == Idle && doc.generation == w.meta.generation + 1
    ensures IsRun(Protocol(env), w, effects) && After(Protocol(env), w, effects) == Cleared(env, w, doc, io)
  {
    effects := [];
    if io.removable(doc.generation) {
      RunGrows(Protocol(env), w, [], RemoveFile(doc.generation));
      effects := [] + [RemoveFile(doc.generation)];
    }
  }

  lemma OneMore<B(!new), D(!new)>(env: Env<B, D>, w: World<B, D>, effects: seq<Store.Action<B, D>>, a: Store.Action<B, D>)
    requires IsRun(Protocol(env), w, effects) && Enabled(env, After(Protocol(env), w, effects), a)
    ensures IsRun(Protocol(env), w, effects + [a])
    ensures After(Protocol(env), w, effects + [a]) == Do(env, After(Protocol(env), w, effects), a)
  {
    RunGrows(Protocol(env), w, effects, a);
  }

  lemma PublishedByRun<B(!new), D(!new)>(env: Env<B, D>, w: World<B, D>, body: B, fence: Fence, io: Io)
    returns (effects: seq<Store.Action<B, D>>)
    requires w.writer == Idle
    ensures IsRun(Protocol(env), w, effects)
    ensures After(Protocol(env), w, effects) == PublishedWorld(env, w, body, fence, 4, io)
  {
    if Admissible(env, w, body, fence, 4, io) {
      var doc := Prepared(env, w.meta, body);
      effects := ClearedByRun(env, w, doc, io);
      WritingIsEnabled(env, w, body, fence, 4, io);
      hide Admissible, IsRun, After, Prepared;
      if io.writeFile {
        OneMore(env, w, effects, WriteFile(doc));
        effects := effects + [WriteFile(doc)];
        var last := if io.writeMeta then CommitMeta else Abandon;
        OneMore(env, w, effects, last);
        effects := effects + [last];
      }
    } else {
      effects := [];
    }
  }

  /** Without success head and history stay; the lock stays held. */
  lemma PublishedHead<B, D>(env: Env<B, D>, w: World<B, D>, body: B, fence: Fence, io: Io)
    requires w.writer == Idle
    ensures var v := PublishedWorld(env, w, body, fence, 4, io);
      && v.writer == Idle
      && (Publishes(env, w, body, fence, 4, io) ==>
            var doc := Prepared(env, w.meta, body);
            v.meta == CommittedMeta(env, w.meta, doc) && v.history == w.history + [doc] && v.files == w.files[doc.generation := Intact(doc)])
      && (!Publishes(env, w, body, fence, 4, io) ==> v.meta == w.meta && v.history == w.history)
  {
    hide Admissible;
    var doc := Prepared(env, w.meta, body);
    assert (w.files - {doc.generation})[doc.generation := Intact(doc)] == w.files[doc.generation := Intact(doc)];
  }

  // ----- What every interleaving keeps -----

  ghost predicate IsTail<B, D>(docs: seq<Doc<B, D>>, history: seq<Doc<B, D>>) {
    |docs| <= |history| && docs == history[|history| - |docs|..]
  }

  /** The cached head is the one on disk. */
  ghost predicate Together<B, D>(j: Joint<B, D>) {
    j.state.meta == j.disk.meta && IsTail(j.state.committed, j.disk.history)
  }

  /** One document was committed that could not be read back; only the directory knows of it. */
  ghost predicate Behind<B, D>(j: Joint<B, D>) {
    && j.state.meta.generation + 1 == j.disk.meta.generation
    && j.disk.history != [] && IsTail(j.state.committed, j.disk.history[..|j.disk.history| - 1])
  }

  ghost predicate Serves<B, D>(env: Env<B, D>, validates: Doc<B, D> -> bool, base: nat, j: Joint<B, D>) {
    && Consistent(env, validates, base, j.state)
    && Sound(env, j.disk) && j.disk.writer == Idle
    && (Together(j) || Behind(j))
  }

  lemma SectionKeeps<B(!new), D>(env: Env<B, D>, validates: Doc<B, D> -> bool, base: nat, j: Joint<B, D>, a: Authority.Action<B>)
    requires Idempotent(env) && Serves(env, validates, base, j) && Permits(j.state, a) && !a.Swap?
    ensures Serves(env, validates, base, Moved(env, validates, j, Section(a)))
  {
    StepKeepsConsistent(env, validates, base, j.state, a);
    hide Consistent, Sound, IsTail;
  }

  lemma OutsideLeavesHead<B, D>(env: Env<B, D>, w: World<B, D>, e: Store.Action<B, D>)
    requires e.RemoveFile? || e.Damage? || e.Lose?
    ensures var v := Do(env, w, e); v.meta == w.meta && v.history == w.history && v.writer == w.writer
  {
  }

  lemma OutsideKeeps<B(!new), D>(env: Env<B, D>, validates: Doc<B, D> -> bool, base: nat, j: Joint<B, D>, e: Store.Action<B, D>)
    requires Serves(env, validates, base, j) && MayMove(env, j, Outside(e))
    ensures Serves(env, validates, base, Moved(env, validates, j, Outside(e)))
  {
    hide Consistent, Sound, IsTail, Do, Enabled;
    StepKeepsSound(env, j.disk, e);
    OutsideLeavesHead(env, j.disk, e);
  }

  lemma TailGrows<B, D>(docs: seq<Doc<B, D>>, history: seq<Doc<B, D>>, doc: Doc<B, D>)
    requires IsTail(docs, history)
    ensures IsTail(docs + [doc], history + [doc])
    ensures (history + [doc])[..|history + [doc]| - 1] == history
  {
  }

  /** Over a store that is ahead, no publication goes through. */
  lemma BehindIsStuck<B, D>(env: Env<B, D>, s: State<B, D>, w: World<B, D>, body: B, io: Io)
    requires s.meta.generation + 1 == w.meta.generation
    ensures !Publishes(env, w, body, FenceOf(s.meta), 4, io)
  {
  }

  lemma CommitIsSwap<B, D>(env: Env<B, D>, validates: Doc<B, D> -> bool, j: Joint<B, D>, p: nat, io: Io)
    requires MayMove(env, j, Commit(p, io)) && (Together(j) || Behind(j))
    ensures var phase := j.state.publishers[p];
      var works := phase.expected == j.state.meta.generation && CommitWorks(env, j.state, j.disk, phase.candidate.body, io);
      Moved(env, validates, j, Commit(p, io)).state == Perform(env, validates, j.state, Swap(p, works))
  {
    hide Loads, PublishedWorld, IsTail;
    var phase := j.state.publishers[p];
    if Behind(j) { BehindIsStuck(env, j.state, j.disk, phase.candidate.body, io); }
  }

  lemma CommitKeepsDisk<B(!new), D(!new)>(env: Env<B, D>, j: Joint<B, D>, body: B, io: Io)
    requires Sound(env, j.disk) && j.disk.writer == Idle && (Together(j) || Behind(j))
    ensures var both := CommitBoth(env, j.state, j.disk, body, io);
      Sound(env, both.disk) && both.disk.writer == Idle && (Together(both) || Behind(both))
  {
    var fence, doc := FenceOf(j.state.meta), Prepared(env, j.disk.meta, body);
    var effects := PublishedByRun(env, j.disk, body, fence, io);
    SoundnessIsInductive(env);
    RunKeeps(Protocol(env), SoundIn(env), j.disk, effects);
    PublishedHead(env, j.disk, body, fence, io);
    hide PublishedWorld, Sound, Loads, IsRun, After, IsTail, Admissible;
    if Behind(j) { BehindIsStuck(env, j.state, j.disk, body, io); }
    if Together(j) { TailGrows(j.state.committed, j.disk.history, doc); }
  }

  lemma CommitMoves<B, D>(env: Env<B, D>, validates: Doc<B, D> -> bool, j: Joint<B, D>, p: nat, io: Io)
    requires MayMove(env, j, Commit(p, io))
    ensures var k, phase := Moved(env, validates, j, Commit(p, io)), j.state.publishers[p];
      var both := if j.state.meta.generation != phase.expected then j else CommitBoth(env, j.state, j.disk, phase.candidate.body, io);
      k.disk == both.disk && k.state.meta == both.state.meta && k.state.committed == both.state.committed
  {
    hide CommitBoth;
  }

  lemma SameHead<B, D>(j: Joint<B, D>, k: Joint<B, D>)
    requires k.disk == j.disk && k.state.meta == j.state.meta && k.state.committed == j.state.committed
    ensures (Together(j) ==> Together(k)) && (Behind(j) ==> Behind(k))
  {
    hide IsTail;
  }

  lemma CommitKeepsHead<B(!new), D(!new)>(env: Env<B, D>, validates: Doc<B, D> -> bool, j: Joint<B, D>, p: nat, io: Io)
    requires Sound(env, j.disk) && j.disk.writer == Idle && (Together(j) || Behind(j)) && MayMove(env, j, Commit(p, io))
    ensures var k := Moved(env, validates, j, Commit(p, io));
      Sound(env, k.disk) && k.disk.writer == Idle && (Together(k) || Behind(k))
  {
    hide Sound, Together, Behind, CommitBoth, Moved;
    var phase := j.state.publishers[p];
    var both := if j.state.meta.generation != phase.expected then j else CommitBoth(env, j.state, j.disk, phase.candidate.body, io);
    CommitKeepsDisk(env, j, phase.candidate.body, io);
    CommitMoves(env, validates, j, p, io);
    SameHead(both, Moved(env, validates, j, Commit(p, io)));
  }

  lemma CommitKeeps<B(!new), D(!new)>(env: Env<B, D>, validates: Doc<B, D> -> bool, base: nat, j: Joint<B, D>, p: nat, io: Io)
    requires Idempotent(env) && Serves(env, validates, base, j) && MayMove(env, j, Commit(p, io))
    ensures Serves(env, validates, base, Moved(env, validates, j, Commit(p, io)))
  {
    hide Consistent, Sound, Together, Behind, Perform, CommitWorks, Moved;
    var phase := j.state.publishers[p];
    var works := phase.expected == j.state.meta.generation && CommitWorks(env, j.state, j.disk, phase.candidate.body, io);
    StepKeepsConsistent(env, validates, base, j.state, Swap(p, works));
    CommitIsSwap(env, validates, j, p, io);
    CommitKeepsHead(env, validates, j, p, io);
  }

  ghost function ServesIn<B(!new), D(!new)>(env: Env<B, D>, validates: Doc<B, D> -> bool, base: nat): Joint<B, D> -> bool {
    j => Serves(env, validates, base, j)
  }

  /** An authority that has just opened a store whose head it could read. */
  ghost predicate JustOpened<B, D>(env: Env<B, D>, j: Joint<B, D>) {
    Fresh(env, j.state) && Sound(env, j.disk) && j.disk.writer == Idle && Together(j)
  }

  /**
   * Whatever publishers and readers do in whatever order, whichever file operations fail, and
   * whatever is pruned, damaged or lost: what the authority committed is the end of the
   * directory's history, but for at most one last document that could not be read back.
   */
  lemma EveryInterleavingServes<B(!new), D(!new)>(env: Env<B, D>, validates: Doc<B, D> -> bool, j: Joint<B, D>, moves: seq<Move<B, D>>)
    requires Idempotent(env) && JustOpened(env, j) && IsRun(Service(env, validates), j, moves)
    ensures Serves(env, validates, j.state.meta.generation, After(Service(env, validates), j, moves))
  {
    var base := j.state.meta.generation;
    forall k, m | Serves(env, validates, base, k) && MayMove(env, k, m) ensures Serves(env, validates, base, Moved(env, validates, k, m)) {
      match m
      case Section(a) => SectionKeeps(env, validates, base, k, a);
      case Commit(p, io) => CommitKeeps(env, validates, base, k, p, io);
      case Outside(e) => OutsideKeeps(env, validates, base, k, e);
    }
    hide Serves, MayMove, Moved, IsRun, After;
    assert Serves(env, validates, base, j) by { OpenedServes(env, validates, j); }
    RunKeeps(Service(env, validates), ServesIn(env, validates, base), j, moves);
  }

  lemma OpenedServes<B, D>(env: Env<B, D>, validates: Doc<B, D> -> bool, j: Joint<B, D>)
    requires JustOpened(env, j)
    ensures Serves(env, validates, j.state.meta.generation, j)
  {
    hide Sound, IsTail;
  }

  lemma {:induction false} TailIsThere<B, D>(docs: seq<Doc<B, D>>, history: seq<Doc<B, D>>, doc: Doc<B, D>)
    requires IsTail(docs, history) && doc in docs
    ensures doc in history
  {
  }

  lemma CommittedIsOnDisk<B, D>(env: Env<B, D>, w: World<B, D>, doc: Doc<B, D>)
    requires Sound(env, w) && doc in w.history && doc.generation in w.files && w.files[doc.generation].Intact?
    ensures w.files[doc.generation] == Intact(doc)
  {
    var k :| 0 <= k < |w.history| && w.history[k] == doc;
    ChainAt(env, w.history, k);
    hide Chained, PendingIsSound, HeadIsLast, Publishable;
  }

  lemma HandedOutIsInHistory<B, D>(env: Env<B, D>, validates: Doc<B, D> -> bool, base: nat, j: Joint<B, D>, i: nat)
    requires Serves(env, validates, base, j) && i < |j.state.handedOut|
    ensures j.state.handedOut[i] in j.disk.history
  {
    var doc := j.state.handedOut[i];
    assert doc in j.state.committed;
    hide Consistent, Sound, IsTail;
    if Together(j) {
      TailIsThere(j.state.committed, j.disk.history, doc);
    } else {
      TailIsThere(j.state.committed, j.disk.history[..|j.disk.history| - 1], doc);
    }
  }

  /** Every snapshot ever handed out is a document of the directory's history, and as long as its file is undamaged, that file. */
  lemma SnapshotsAreOnDisk<B(!new), D(!new)>(env: Env<B, D>, validates: Doc<B, D> -> bool, j: Joint<B, D>, moves: seq<Move<B, D>>, i: nat)
    requires Idempotent(env) && JustOpened(env, j) && IsRun(Service(env, validates), j, moves)
    requires i < |After(Service(env, validates), j, moves).state.handedOut|
    ensures var t := After(Service(env, validates), j, moves); var doc := t.state.handedOut[i];
      && doc in t.disk.history
      && (doc.generation in t.disk.files && t.disk.files[doc.generation].Intact? ==> t.disk.files[doc.generation] == Intact(doc))
  {
    EveryInterleavingServes(env, validates, j, moves);
    hide After, IsRun, Sound, Consistent, Together, Behind;
    var t := After(Service(env, validates), j, moves);
    var doc := t.state.handedOut[i];
    HandedOutIsInHistory(env, validates, j.state.meta.generation, t, i);
    if doc.generation in t.disk.files && t.disk.files[doc.generation].Intact? { CommittedIsOnDisk(env, t.disk, doc); }
  }
}
