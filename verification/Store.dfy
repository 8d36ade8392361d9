/** The generation directory as a state machine of atomic disk effects (src/store.cpp). */
module Store {
  import opened Rules
  import opened Runs

  const MAX_U64: nat := 0xFFFF_FFFF_FFFF_FFFF
  const GENERATION_HEADER_BYTES: nat := 96
  const MAX_DOCUMENT_BYTES: nat := 8 * 1024 * 1024

  /** A registry document: its numbering, the digest of its predecessor, and the content. */
  datatype Doc<B, D> = Doc(generation: nat, epoch: nat, parent: Option<D>, body: B)

  /** Codec, digest and compiler are given functions; the two limits are fixed options of the directory. */
  datatype Env<!B, !D> = Env(
    normalize: B -> B,
    digest: Doc<B, D> -> D,
    size: Doc<B, D> -> nat,
    compiles: Doc<B, D> -> bool,
    parses: Doc<B, D> -> bool,
    noDigest: D,
    maxGenerations: nat,
    maxBytes: nat)

  /** A generation file: the encoding of a document, or bytes that no longer decode. */
  datatype File<B, D> = Intact(doc: Doc<B, D>) | Damaged

  /** An absent metadata file reads as all zeros. */
  datatype Meta<D> = Meta(generation: nat, digest: D, epoch: nat, incarnation: nat, totalPublications: nat)

  /** Where the one holder of the writer lock stands. */
  datatype Writer<B, D> = NoWriter | Opening | Idle | Written(doc: Doc<B, D>)

  /** `history` lists the committed documents; it is not on disk. */
  datatype World<B, D> = World(meta: Meta<D>, files: map<nat, File<B, D>>, writer: Writer<B, D>, history: seq<Doc<B, D>>)

  /** The atomic effects. `Stop` is the lock holder closing or dying, at any time. */
  datatype Action<B, D> =
    | Acquire
    | BumpMeta
    | WriteFile(doc: Doc<B, D>)
    | CommitMeta
    | Abandon
    | RemoveFile(number: nat)
    | Stop
    | Damage(number: nat)
    | Lose(number: nat)

  function Initial<B, D>(env: Env<B, D>): World<B, D> {
    World(Meta(0, env.noDigest, 0, 0, 0), map[], NoWriter, [])
  }

  function ParentOf<D>(meta: Meta<D>): Option<D> {
    if meta.generation == 0 then None else Some(meta.digest)
  }

  /** The document a publisher builds on this metadata. */
  ghost predicate Extends<B, D>(meta: Meta<D>, doc: Doc<B, D>) {
    doc.generation == meta.generation + 1 && doc.epoch == meta.epoch && doc.parent == ParentOf(meta)
  }

  ghost predicate Enabled<B, D>(env: Env<B, D>, w: World<B, D>, a: Action<B, D>) {
    match a
    case Acquire => w.writer == NoWriter
    case BumpMeta => w.writer == Opening && w.meta.epoch < MAX_U64 && w.meta.incarnation < MAX_U64
    case WriteFile(doc) =>
      && w.writer == Idle
      && w.meta.generation < MAX_U64
      && Extends(w.meta, doc)
      && (env.maxGenerations != 0 ==> |w.files - {doc.generation}| < env.maxGenerations)
      && Publishable(env, doc)
    case CommitMeta => w.writer.Written?
    case Abandon => w.writer.Written?
    case RemoveFile(n) => w.writer == Idle && n != w.meta.generation
    case Stop => true
    case Damage(n) => n in w.files
    case Lose(n) => n in w.files
  }

  function CommittedMeta<B, D>(env: Env<B, D>, meta: Meta<D>, doc: Doc<B, D>): Meta<D> {
    meta.(generation := doc.generation, digest := env.digest(doc), totalPublications := meta.totalPublications + 1)
  }

  /** The effect of an action, where it is enabled. */
  ghost function Do<B, D>(env: Env<B, D>, w: World<B, D>, a: Action<B, D>): World<B, D> {
    match a
    case Acquire => w.(writer := Opening)
    case BumpMeta =>
      w.(meta := w.meta.(epoch := w.meta.epoch + 1, incarnation := w.meta.incarnation + 1), writer := Idle)
    case WriteFile(doc) => w.(files := w.files[doc.generation := Intact(doc)], writer := Written(doc))
    case CommitMeta =>
      if !w.writer.Written? then w
      else w.(meta := CommittedMeta(env, w.meta, w.writer.doc), writer := Idle, history := w.history + [w.writer.doc])
    case Abandon => w.(writer := Idle)
    case RemoveFile(n) => w.(files := w.files - {n})
    case Stop => w.(writer := NoWriter)
    case Damage(n) => w.(files := w.files[n := Damaged])
    case Lose(n) => w.(files := w.files - {n})
  }

  ghost function Protocol<B, D>(env: Env<B, D>): Machine<World<B, D>, Action<B, D>> {
    Machine((w, a) => Enabled(env, w, a), (w, a) => Do(env, w, a))
  }

  // ----- What every step keeps -----

  ghost function HeadDigest<B, D>(env: Env<B, D>, history: seq<Doc<B, D>>): Option<D> {
    if history == [] then None else Some(env.digest(history[|history| - 1]))
  }

  /** The committed documents are numbered 1, 2, 3, ... and each names its predecessor's digest. */
  ghost predicate Chained<B, D>(env: Env<B, D>, history: seq<Doc<B, D>>) {
    history != [] ==>
      var front, last := history[..|history| - 1], history[|history| - 1];
      Chained(env, front) && last.generation == |history| && last.parent == HeadDigest(env, front)
  }

  lemma {:induction false} ChainAt<B, D>(env: Env<B, D>, history: seq<Doc<B, D>>, i: nat)
    requires Chained(env, history) && i < |history|
    ensures history[i].generation == i + 1
    ensures history[i].parent == if i == 0 then None else Some(env.digest(history[i - 1]))
  {
    if i < |history| - 1 {
      ChainAt(env, history[..|history| - 1], i);
    }
  }

  ghost predicate HeadIsLast<B, D>(env: Env<B, D>, w: World<B, D>) {
    && w.meta.generation == |w.history| <= MAX_U64
    && w.meta.totalPublications == w.meta.generation
    && w.meta.digest == if w.history == [] then env.noDigest else env.digest(w.history[|w.history| - 1])
  }

  /** A file up to the head that still decodes is the document committed under its number. */
  ghost predicate FilesAreCommitted<B, D>(w: World<B, D>) {
    && 0 !in w.files
    && (forall n :: n in w.files && w.files[n].Intact? ==> w.files[n].doc.generation == n)
    && forall n :: n in w.files && n <= |w.history| && w.files[n].Intact? ==> w.files[n].doc == w.history[n - 1]
  }

  ghost predicate HistoryIsSound<B, D>(env: Env<B, D>, w: World<B, D>) {
    && Chained(env, w.history)
    && forall i :: 0 <= i < |w.history| ==> Publishable(env, w.history[i]) && w.history[i].epoch <= w.meta.epoch
  }

  ghost predicate Publishable<B, D>(env: Env<B, D>, doc: Doc<B, D>) {
    env.compiles(doc) && env.size(doc) <= env.maxBytes
  }

  ghost predicate PendingIsSound<B, D>(env: Env<B, D>, w: World<B, D>) {
    w.writer.Written? ==>
      && Extends(w.meta, w.writer.doc) && w.meta.generation < MAX_U64
      && Publishable(env, w.writer.doc)
      && (w.writer.doc.generation in w.files && w.files[w.writer.doc.generation].Intact?
          ==> w.files[w.writer.doc.generation].doc == w.writer.doc)
  }

  ghost predicate Sound<B, D>(env: Env<B, D>, w: World<B, D>) {
    && HeadIsLast(env, w)
    && HistoryIsSound(env, w)
    && FilesAreCommitted(w)
    && PendingIsSound(env, w)
    && (env.maxGenerations != 0 ==> |w.files| <= env.maxGenerations)
  }

  lemma FilesStayBounded<B, D>(files: map<nat, File<B, D>>, n: nat, f: File<B, D>)
    ensures |files[n := f]| == |files - {n}| + 1
    ensures |files - {n}| <= |files|
    ensures n in files ==> |files[n := f]| == |files|
  {
    var grown := files[n := f];
    assert grown.Keys == files.Keys - {n} + {n};
    assert |grown| == |grown.Keys|;
    var less := files - {n};
    assert less.Keys == files.Keys - {n};
    assert |less| == |less.Keys|;
    assert files.Keys == if n in files then less.Keys + {n} else less.Keys;
    assert |files| == |files.Keys|;
  }

  lemma CommitKeepsFiles<B, D>(env: Env<B, D>, w: World<B, D>)
    requires HeadIsLast(env, w) && FilesAreCommitted(w) && PendingIsSound(env, w) && w.writer.Written?
    ensures FilesAreCommitted(Do(env, w, CommitMeta))
  {
    var longer := w.history + [w.writer.doc];
    forall n | n in w.files && n <= |longer| && w.files[n].Intact? ensures w.files[n].doc == longer[n - 1] {
      if n == |longer| {
        assert w.writer.doc.generation == n;
      } else {
        assert longer[n - 1] == w.history[n - 1];
      }
    }
  }

  lemma StepKeepsFiles<B, D>(env: Env<B, D>, w: World<B, D>, a: Action<B, D>)
    requires HeadIsLast(env, w) && FilesAreCommitted(w) && PendingIsSound(env, w) && Enabled(env, w, a)
    ensures FilesAreCommitted(Do(env, w, a))
  {
    match a
    case CommitMeta => CommitKeepsFiles(env, w);
    case _ =>
  }

  lemma StepKeepsBound<B, D>(env: Env<B, D>, w: World<B, D>, a: Action<B, D>)
    requires env.maxGenerations != 0 && |w.files| <= env.maxGenerations && Enabled(env, w, a)
    ensures |Do(env, w, a).files| <= env.maxGenerations
  {
    match a
    case WriteFile(doc) => FilesStayBounded(w.files, doc.generation, Intact(doc));
    case RemoveFile(n) => FilesStayBounded(w.files, n, Damaged);
    case Lose(n) => FilesStayBounded(w.files, n, Damaged);
    case Damage(n) => FilesStayBounded(w.files, n, Damaged);
    case _ =>
  }

  lemma CommitKeepsHistory<B, D>(env: Env<B, D>, w: World<B, D>)
    requires HeadIsLast(env, w) && HistoryIsSound(env, w) && PendingIsSound(env, w) && w.writer.Written?
    ensures HeadIsLast(env, Do(env, w, CommitMeta)) && HistoryIsSound(env, Do(env, w, CommitMeta))
  {
    var doc := w.writer.doc;
    var longer := w.history + [doc];
    assert longer[..|longer| - 1] == w.history;
    assert longer[|w.history|] == doc;
    assert forall i :: 0 <= i < |w.history| ==> longer[i] == w.history[i];
  }

  lemma StepKeepsHistory<B, D>(env: Env<B, D>, w: World<B, D>, a: Action<B, D>)
    requires Sound(env, w) && Enabled(env, w, a)
    ensures HeadIsLast(env, Do(env, w, a)) && HistoryIsSound(env, Do(env, w, a))
  {
    match a
    case CommitMeta => CommitKeepsHistory(env, w);
    case _ =>
  }

  lemma StepKeepsSound<B, D>(env: Env<B, D>, w: World<B, D>, a: Action<B, D>)
    requires Sound(env, w) && Enabled(env, w, a)
    ensures Sound(env, Do(env, w, a))
  {
    StepKeepsFiles(env, w, a);
    if env.maxGenerations != 0 { StepKeepsBound(env, w, a); }
    StepKeepsHistory(env, w, a);
  }

  lemma InitialIsSound<B, D>(env: Env<B, D>)
    ensures Sound(env, Initial(env))
  {
  }

  ghost function SoundIn<B(!new), D(!new)>(env: Env<B, D>): World<B, D> -> bool {
    w => Sound(env, w)
  }

  lemma SoundnessIsInductive<B(!new), D(!new)>(env: Env<B, D>)
    ensures Inductive(Protocol(env), SoundIn(env))
  {
    forall w, a | Sound(env, w) && Enabled(env, w, a) ensures Sound(env, Do(env, w, a)) {
      StepKeepsSound(env, w, a);
    }
  }

  /** The invariant holds in every reachable state, crashes and damage included. */
  lemma EveryRunIsSound<B(!new), D(!new)>(env: Env<B, D>, actions: seq<Action<B, D>>)
    requires IsRun(Protocol(env), Initial(env), actions)
    ensures Sound(env, After(Protocol(env), Initial(env), actions))
  {
    InitialIsSound(env);
    SoundnessIsInductive(env);
    RunKeeps(Protocol(env), SoundIn(env), Initial(env), actions);
  }

  // ----- What never goes back -----

  /** History only grows, counters never fall, and no file up to the head is ever rewritten. */
  ghost predicate NeverBack<B, D>(w: World<B, D>, v: World<B, D>) {
    && w.history <= v.history
    && w.meta.generation <= v.meta.generation
    && w.meta.epoch <= v.meta.epoch
    && w.meta.incarnation <= v.meta.incarnation
    && KeepsFilesUpTo(w.files, v.files, w.meta.generation)
  }

  ghost predicate KeepsFilesUpTo<B, D>(before: map<nat, File<B, D>>, after: map<nat, File<B, D>>, head: nat) {
    forall n :: n in after && n <= head ==> n in before && (after[n] == before[n] || after[n] == Damaged)
  }

  lemma StepNeverGoesBack<B, D>(env: Env<B, D>, w: World<B, D>, a: Action<B, D>)
    requires Sound(env, w) && Enabled(env, w, a)
    ensures NeverBack(w, Do(env, w, a))
  {
  }

  lemma RunNeverGoesBack<B(!new), D(!new)>(env: Env<B, D>, w: World<B, D>, actions: seq<Action<B, D>>)
    requires Sound(env, w) && IsRun(Protocol(env), w, actions)
    ensures NeverBack(w, After(Protocol(env), w, actions))
  {
    SoundnessIsInductive(env);
    forall w, a | Sound(env, w) && Enabled(env, w, a) ensures NeverBack(w, Do(env, w, a)) {
      StepNeverGoesBack(env, w, a);
    }
    RunMovesAlong(Protocol(env), SoundIn(env), (w, v) => NeverBack(w, v), w, actions);
  }

  /** A reader that takes the head at one time and opens a file at any later time, with any steps between,
      gets the document that was committed under that number before it took the head, or nothing. */
  lemma ReaderSeesCommitted<B(!new), D(!new)>(env: Env<B, D>, before: seq<Action<B, D>>, between: seq<Action<B, D>>, n: nat)
    requires IsRun(Protocol(env), Initial(env), before)
    requires IsRun(Protocol(env), After(Protocol(env), Initial(env), before), between)
    requires n <= After(Protocol(env), Initial(env), before).meta.generation
    requires n in After(Protocol(env), After(Protocol(env), Initial(env), before), between).files
    requires After(Protocol(env), After(Protocol(env), Initial(env), before), between).files[n].Intact?
    ensures 0 < n <= |After(Protocol(env), Initial(env), before).history|
    ensures After(Protocol(env), After(Protocol(env), Initial(env), before), between).files[n].doc
         == After(Protocol(env), Initial(env), before).history[n - 1]
  {
    var w := After(Protocol(env), Initial(env), before);
    EveryRunIsSound(env, before);
    RunNeverGoesBack(env, w, between);
  }

  // ----- Fences -----

  datatype Fence = Fence(generation: nat, epoch: nat, incarnation: nat)

  function FenceOf<D>(meta: Meta<D>): Fence {
    Fence(meta.generation, meta.epoch, meta.incarnation)
  }

  predicate MovesFence<B, D>(a: Action<B, D>) {
    a.CommitMeta? || a.BumpMeta?
  }

  function FenceRank<B, D>(w: World<B, D>): int {
    w.meta.generation + w.meta.epoch + w.meta.incarnation
  }

  lemma StepRanksFences<B, D>(env: Env<B, D>, w: World<B, D>, a: Action<B, D>)
    requires Sound(env, w) && Enabled(env, w, a)
    ensures FenceRank(w) <= FenceRank(Do(env, w, a))
    ensures FenceRank(w) == FenceRank(Do(env, w, a)) <==> !MovesFence(a)
  {
  }

  lemma FencesAreRanked<B(!new), D(!new)>(env: Env<B, D>)
    ensures Ranks(Protocol(env), SoundIn(env), w => FenceRank(w), a => MovesFence(a))
  {
    forall w, a | Sound(env, w) && Enabled(env, w, a)
      ensures FenceRank(w) <= FenceRank(Do(env, w, a)) && (FenceRank(w) == FenceRank(Do(env, w, a)) <==> !MovesFence(a))
    {
      StepRanksFences(env, w, a);
    }
  }

  /** A fence taken at one point is current later exactly when nothing was committed or opened for writing since. */
  lemma FenceIsNeverReused<B(!new), D(!new)>(env: Env<B, D>, w: World<B, D>, actions: seq<Action<B, D>>)
    requires Sound(env, w) && IsRun(Protocol(env), w, actions)
    ensures FenceOf(After(Protocol(env), w, actions).meta) == FenceOf(w.meta)
      <==> NoneMoves((a: Action<B, D>) => MovesFence(a), actions)
  {
    SoundnessIsInductive(env);
    RunNeverGoesBack(env, w, actions);
    FencesAreRanked(env);
    RankTellsMoves(Protocol(env), SoundIn(env), v => FenceRank(v), a => MovesFence(a), w, actions);
  }

  /** Each opening for writing is a new incarnation and a new epoch: either counter alone tells whether there was one. */
  lemma CountersTellOpenings<B(!new), D(!new)>(env: Env<B, D>, w: World<B, D>, actions: seq<Action<B, D>>)
    requires Sound(env, w) && IsRun(Protocol(env), w, actions)
    ensures After(Protocol(env), w, actions).meta.incarnation == w.meta.incarnation
      <==> NoneMoves((a: Action<B, D>) => a.BumpMeta?, actions)
    ensures After(Protocol(env), w, actions).meta.epoch == w.meta.epoch
      <==> NoneMoves((a: Action<B, D>) => a.BumpMeta?, actions)
  {
    SoundnessIsInductive(env);
    forall v, a | Sound(env, v) && Enabled(env, v, a)
      ensures Do(env, v, a).meta.incarnation == v.meta.incarnation + if a.BumpMeta? then 1 else 0
      ensures Do(env, v, a).meta.epoch == v.meta.epoch + if a.BumpMeta? then 1 else 0
    {
    }
    hide IsRun, After;
    RankTellsMoves(Protocol(env), SoundIn(env), (v: World<B, D>) => v.meta.incarnation, (a: Action<B, D>) => a.BumpMeta?, w, actions);
    RankTellsMoves(Protocol(env), SoundIn(env), (v: World<B, D>) => v.meta.epoch, (a: Action<B, D>) => a.BumpMeta?, w, actions);
  }

  /** Publication is atomic: whatever else happens in between, crashes included, head and history
      stay as they were exactly as long as no metadata switch takes place. */
  lemma HeadMovesOnlyByCommit<B(!new), D(!new)>(env: Env<B, D>, w: World<B, D>, actions: seq<Action<B, D>>)
    requires Sound(env, w) && IsRun(Protocol(env), w, actions)
    ensures After(Protocol(env), w, actions).history == w.history
      <==> NoneMoves((a: Action<B, D>) => a.CommitMeta?, actions)
  {
    SoundnessIsInductive(env);
    RunNeverGoesBack(env, w, actions);
    forall v, a | Sound(env, v) && Enabled(env, v, a)
      ensures |v.history| <= |Do(env, v, a).history| && (|v.history| == |Do(env, v, a).history| <==> !a.CommitMeta?)
    {
    }
    RankTellsMoves(Protocol(env), SoundIn(env), (v: World<B, D>) => |v.history|, (a: Action<B, D>) => a.CommitMeta?, w, actions);
  }
}
